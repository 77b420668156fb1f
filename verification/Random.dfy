/** Uniform sampling and shuffling (rand.go, and the receivers' shuffle of encrypt.go). */
module Random {
  import opened Bytes
  import opened Radix

  /** The number of uint32 values. */
  const TWO_32 := 0x1_0000_0000

  type uint32 = x: int | 0 <= x < TWO_32

  /** A source of random 32-bit numbers: these draws, and then an error. */
  class Csprng {
    var draws: seq<uint32>

    constructor (draws: seq<uint32>)
      ensures this.draws == draws
    {
      this.draws := draws;
    }

    method Uint32() returns (v: uint32, err: Err)
      modifies this
      ensures err == None <==> old(draws) != []
      ensures err == None ==> v == old(draws)[0] && draws == old(draws)[1..]
      ensures err != None ==> draws == []
    {
      if draws == [] {
        return 0, UnexpectedEOF;
      }
      v, draws := draws[0], draws[1..];
      err := None;
    }
  }

  // ---- rejection sampling ----

  /** The high and the low half of v * n. */
  function High(n: uint32, v: uint32): nat {
    MulMonotone(0, v, n);
    v * n / TWO_32
  }

  function Low(n: uint32, v: uint32): uint32 {
    v * n % TWO_32
  }

  /** A draw is rejected when its low half is below 2^32 mod n. */
  predicate Accepts(n: uint32, v: uint32)
    requires n > 0
  {
    Low(n, v) >= TWO_32 % n
  }

  lemma HighBelow(n: uint32, v: uint32)
    requires n > 0
    ensures High(n, v) < n
  {
    MulMonotone(v, TWO_32 - 1, n);
  }

  /** -n % n in uint32 arithmetic. */
  lemma Threshold(n: uint32)
    requires n > 0
    ensures (TWO_32 - n) % TWO_32 % n == TWO_32 % n < n
  {
    ModShift(TWO_32 - n, n);
  }

  lemma ModShift(m: nat, n: nat)
    requires n > 0
    ensures (m + n) % n == m % n < n
  {
    var q, d := m / n, m % n;
    DivMod(m, n, q, d);
    DivModSnoc(q + 1, d, n);
  }

  /** A number that was drawn, and the draws after it. */
  datatype Draw = Draw(k: uint32, rest: seq<uint32>)

  /** The first accepted draw, mapped to [0, n). */
  function Drawn(n: uint32, draws: seq<uint32>): (r: Option<Draw>)
    requires n > 0
    ensures r.Present? ==>
      && r.value.k < n && |r.value.rest| < |draws|
      && (var i := |draws| - |r.value.rest| - 1;
        && r.value.rest == draws[i + 1..] && Accepts(n, draws[i]) && r.value.k == High(n, draws[i])
        && forall j :: 0 <= j < i ==> !Accepts(n, draws[j]))
    ensures r.Absent? ==> forall j :: 0 <= j < |draws| ==> !Accepts(n, draws[j])
  {
    if draws == [] then Absent
    else if Accepts(n, draws[0]) then
      HighBelow(n, draws[0]);
      Present(Draw(High(n, draws[0]), draws[1..]))
    else Drawn(n, draws[1..])
  }

  /** csprngUint32n: maps the first accepted draw to [0, n), and fails when there is none. A low half
      of n or more needs no look at the threshold, since that is below n. */
  method Uint32n(csprng: Csprng, n: uint32) returns (k: uint32, err: Err)
    requires n > 0
    modifies csprng
    ensures Drawn(n, old(csprng.draws)) == if err == None then Present(Draw(k, csprng.draws)) else Absent
    ensures err == None ==> k < n
  {
    hide High, Low;
    var v;
    v, err := csprng.Uint32();
    if err != None {
      return 0, err;
    }
    Threshold(n);
    if Low(n, v) < n {
      var thresh := (TWO_32 - n) % TWO_32 % n;
      while Low(n, v) < thresh
        invariant err == None && Drawn(n, old(csprng.draws)) == Drawn(n, [v] + csprng.draws)
        decreases |csprng.draws|
      {
        assert ([v] + csprng.draws)[1..] == csprng.draws;
        v, err := csprng.Uint32();
        if err != None {
          return 0, err;
        }
      }
    }
    assert ([v] + csprng.draws)[1..] == csprng.draws;
    HighBelow(n, v);
    return High(n, v), None;
  }

  // ---- uniformity ----

  /** The draws that are accepted and mapped to k. */
  ghost function DrawsFor(n: uint32, k: nat): set<uint32>
    requires n > 0
  {
    set v: uint32 | Accepts(n, v) && High(n, v) == k
  }

  /** The least v with v * n >= a. */
  function CeilDiv(a: nat, n: nat): (r: nat)
    requires n > 0
    ensures r * n >= a
    ensures (r - 1) * n < a
  {
    DivMod(a + n - 1, n, (a + n - 1) / n, (a + n - 1) % n);
    (a + n - 1) / n
  }

  /** An accepted draw for k lies in one interval of floor(2^32 / n) numbers, and all of them are. */
  lemma DrawsForIff(n: uint32, k: nat, v: uint32)
    requires n > 0 && k < n
    ensures var first := CeilDiv(k * TWO_32 + TWO_32 % n, n);
      Accepts(n, v) && High(n, v) == k <==> first <= v < first + TWO_32 / n
  {
    hide CeilDiv;
    var q, t, x := TWO_32 / n, TWO_32 % n, v * n;
    MulMonotone(0, v, n);
    DivMod(TWO_32, n, q, t);
    InBlock(x, k, t);
    MultiplesIn(k * TWO_32 + t, q, n, v);
  }

  /** An interval of length q * n holds the multiples of n from one to q places further. */
  lemma MultiplesIn(a: nat, q: nat, n: nat, v: nat)
    requires n > 0
    ensures a <= v * n < a + q * n <==> CeilDiv(a, n) <= v < CeilDiv(a, n) + q
  {
    var first := CeilDiv(a, n);
    assert (first + q) * n == first * n + q * n && (first + q - 1) * n == (first - 1) * n + q * n;
    if first <= v < first + q {
      MulMonotone(first, v, n);
      MulMonotone(v, first + q - 1, n);
    }
    if a <= v * n < a + q * n {
      MulCancel(first - 1, v, n);
      MulCancel(v, first + q, n);
    }
  }

  lemma InBlock(x: nat, k: nat, t: nat)
    requires t < TWO_32
    ensures x / TWO_32 == k && x % TWO_32 >= t <==> k * TWO_32 + t <= x < k * TWO_32 + TWO_32
  {
  }

  /** The numbers from `a`, `q` of them. */
  ghost function Interval(a: nat, q: nat): (r: set<uint32>)
    requires a + q <= TWO_32
    ensures |r| == q && forall v: uint32 :: v in r <==> a <= v < a + q
  {
    if q == 0 then {} else Interval(a, q - 1) + {a + q - 1}
  }

  /** Sampling is uniform: for every k below n exactly floor(2^32 / n) draws are accepted and mapped to
      it. */
  lemma UniformDraws(n: uint32, k: nat)
    requires n > 0 && k < n
    ensures |DrawsFor(n, k)| == TWO_32 / n
  {
    var q, first := TWO_32 / n, CeilDiv(k * TWO_32 + TWO_32 % n, n);
    LastDraw(n, k);
    forall v: uint32 ensures v in DrawsFor(n, k) <==> first <= v < first + q {
      DrawsForIff(n, k, v);
    }
    assert DrawsFor(n, k) == Interval(first, q);
  }

  lemma LastDraw(n: uint32, k: nat)
    requires n > 0 && k < n
    ensures CeilDiv(k * TWO_32 + TWO_32 % n, n) + TWO_32 / n <= TWO_32
  {
    var q, t := TWO_32 / n, TWO_32 % n;
    var a := k * TWO_32 + t;
    var first := CeilDiv(a, n);
    DivMod(TWO_32, n, q, t);
    MulMonotone(k + 1, n, TWO_32);
    assert (first + q - 1) * n == (first - 1) * n + q * n;
    MulCancel(first + q - 1, TWO_32, n);
  }

  // ---- Fisher-Yates ----

  function Swap<T>(s: seq<T>, i: nat, j: nat): (r: seq<T>)
    requires i < |s| && j < |s|
    ensures |r| == |s| && multiset(r) == multiset(s)
  {
    s[i := s[j]][j := s[i]]
  }

  /** Choices for the places from `i` down to 1: for each place one that is not above it. */
  predicate Choices(i: nat, js: seq<nat>)
    decreases i
  {
    |js| == i && (i > 0 ==> js[0] <= i && Choices(i - 1, js[1..]))
  }

  /** The list after the swaps of the places from `i` down to 1. */
  function Swaps<T>(s: seq<T>, i: nat, js: seq<nat>): (r: seq<T>)
    requires (s == [] ==> i == 0) && (s != [] ==> i < |s|) && Choices(i, js)
    ensures |r| == |s| && multiset(r) == multiset(s)
    ensures forall k :: i < k < |s| ==> r[k] == s[k]
    decreases i
  {
    if i == 0 then s else Swaps(Swap(s, i, js[0]), i - 1, js[1..])
  }

  ghost predicate Distinct<T(!new)>(s: seq<T>) {
    forall i, j :: 0 <= i < j < |s| ==> s[i] != s[j]
  }

  function Find<T(==)>(s: seq<T>, x: T): (i: nat)
    requires x in s
    ensures i < |s| && s[i] == x
  {
    if s[0] == x then 0 else 1 + Find(s[1..], x)
  }

  lemma SwapDistinct<T(!new)>(s: seq<T>, i: nat, j: nat)
    requires i < |s| && j < |s| && Distinct(s)
    ensures Distinct(Swap(s, i, j))
  {
  }

  /** `t` is a permutation of `s` that differs from it at most up to place `i`. */
  ghost predicate Reaches<T(!new)>(s: seq<T>, t: seq<T>, i: nat) {
    && Distinct(s) && multiset(t) == multiset(s) && |t| == |s| && (s == [] ==> i == 0) && (s != [] ==> i < |s|)
    && forall k :: i < k < |s| ==> t[k] == s[k]
  }

  lemma ReachesNext<T(!new)>(s: seq<T>, t: seq<T>, i: nat)
    requires Reaches(s, t, i) && i > 0
    ensures t[i] in s && Find(s, t[i]) <= i
    ensures Reaches(Swap(s, i, Find(s, t[i])), t, i - 1)
  {
    assert t[i] in multiset(t);
    PermutationDistinct(s, t);
    assert forall k :: i < k < |s| ==> t[k] == s[k] && t[k] != t[i];
    SwapDistinct(s, i, Find(s, t[i]));
  }

  lemma PermutationDistinct<T(!new)>(s: seq<T>, t: seq<T>)
    requires Distinct(s) && multiset(t) == multiset(s)
    ensures Distinct(t)
  {
    DistinctCounts(s);
    forall i, j | 0 <= i < j < |t| ensures t[i] != t[j] {
      PairCounts(t, i, j);
    }
  }

  lemma PairCounts<T>(t: seq<T>, i: nat, j: nat)
    requires i < j < |t|
    ensures t[i] == t[j] ==> multiset(t)[t[i]] >= 2
  {
    assert t == t[..j] + t[j..];
    assert multiset(t) == multiset(t[..j]) + multiset(t[j..]);
    assert t[..j][i] in multiset(t[..j]) && t[j..][0] in multiset(t[j..]);
  }

  lemma {:induction false} DistinctCounts<T(!new)>(s: seq<T>)
    requires Distinct(s)
    ensures forall x :: multiset(s)[x] <= 1
  {
    if s != [] {
      DistinctCounts(s[1..]);
      assert s == [s[0]] + s[1..];
      assert s[0] !in multiset(s[1..]) by {
        assert forall k :: 0 <= k < |s| - 1 ==> s[1..][k] == s[k + 1];
      }
    }
  }

  /** The choices that lead from `s` to `t`. */
  ghost function ChoicesFor<T(!new)>(s: seq<T>, t: seq<T>, i: nat): (js: seq<nat>)
    requires Reaches(s, t, i)
    ensures Choices(i, js)
    decreases i
  {
    if i == 0 then []
    else
      ReachesNext(s, t, i);
      var j := Find(s, t[i]);
      [j] + ChoicesFor(Swap(s, i, j), t, i - 1)
  }

  /** Every permutation is reached, by the choices for it. */
  lemma {:induction false} ChoicesReach<T(!new)>(s: seq<T>, t: seq<T>, i: nat)
    requires Reaches(s, t, i)
    ensures Swaps(s, i, ChoicesFor(s, t, i)) == t
    decreases i
  {
    if i == 0 {
      OnlyOnePlace(s, t);
    } else {
      ReachesNext(s, t, i);
      ChoicesReach(Swap(s, i, Find(s, t[i])), t, i - 1);
    }
  }

  lemma OnlyOnePlace<T(!new)>(s: seq<T>, t: seq<T>)
    requires Reaches(s, t, 0)
    ensures s == t
  {
    if s != [] {
      assert s == [s[0]] + s[1..] && t == [t[0]] + s[1..];
      SameHead(s[0], t[0], s[1..]);
    }
  }

  lemma SameHead<T>(a: T, b: T, rest: seq<T>)
    requires multiset([a] + rest) == multiset([b] + rest)
    ensures a == b
  {
    assert multiset([a] + rest) == multiset{a} + multiset(rest);
    assert multiset([b] + rest) == multiset{b} + multiset(rest);
    assert (multiset{a} + multiset(rest))[a] == 1 + multiset(rest)[a];
    assert (multiset{b} + multiset(rest))[a] == multiset{b}[a] + multiset(rest)[a];
  }

  /** And by no others. */
  lemma {:induction false} ChoicesUnique<T(!new)>(s: seq<T>, i: nat, js: seq<nat>)
    requires Distinct(s) && (s == [] ==> i == 0) && (s != [] ==> i < |s|) && Choices(i, js)
    ensures Reaches(s, Swaps(s, i, js), i) && ChoicesFor(s, Swaps(s, i, js), i) == js
    decreases i
  {
    if i > 0 {
      var t := Swaps(s, i, js);
      var r := Swap(s, i, js[0]);
      SwapDistinct(s, i, js[0]);
      ChoicesUnique(r, i - 1, js[1..]);
      assert t[i] == r[i] == s[js[0]];
      assert Find(s, t[i]) == js[0];
    }
  }

  ghost predicate Makes<T(!new)>(s: seq<T>, t: seq<T>, js: seq<nat>)
    requires s != []
  {
    Choices(|s| - 1, js) && Swaps(s, |s| - 1, js) == t
  }

  /** The Fisher-Yates bijection: every permutation of distinct elements comes from exactly one choice
      sequence. */
  lemma ShuffleBijection<T(!new)>(s: seq<T>, t: seq<T>)
    requires s != [] && Distinct(s)
    ensures multiset(t) == multiset(s) <==> exists js :: Makes(s, t, js)
    ensures forall js, ks :: Makes(s, t, js) && Makes(s, t, ks) ==> js == ks
  {
    var i := |s| - 1;
    if multiset(t) == multiset(s) {
      assert |multiset(t)| == |t| && |multiset(s)| == |s|;
      ChoicesReach(s, t, i);
      assert Makes(s, t, ChoicesFor(s, t, i));
    }
    forall js, ks | Makes(s, t, js) && Makes(s, t, ks) ensures js == ks {
      ChoicesUnique(s, i, js);
      ChoicesUnique(s, i, ks);
    }
  }

  /** The highest place of a list of length `n` that is swapped. */
  function Top(n: nat): nat {
    if n == 0 then 0 else n - 1
  }

  /** The swaps done so far, with choices `js`, lead from `s` to `u`, and any further ones go on from
      there. */
  ghost predicate SwapsTo<T(!new)>(s: seq<T>, js: seq<nat>, u: seq<T>, i: nat) {
    && |u| == |s| && i <= Top(|s|)
    && forall rest :: Choices(i, rest) ==>
        Choices(Top(|s|), js + rest) && Swaps(s, Top(|s|), js + rest) == Swaps(u, i, rest)
  }

  lemma SwapsStart<T(!new)>(s: seq<T>)
    ensures SwapsTo(s, [], s, Top(|s|))
  {
    forall rest | Choices(Top(|s|), rest) ensures [] + rest == rest {
    }
  }

  lemma SwapsStep<T(!new)>(s: seq<T>, js: seq<nat>, u: seq<T>, i: nat, j: nat)
    requires SwapsTo(s, js, u, i) && 0 < i && j <= i
    ensures SwapsTo(s, js + [j], Swap(u, i, j), i - 1)
  {
    forall rest | Choices(i - 1, rest)
      ensures Choices(Top(|s|), js + [j] + rest)
      ensures Swaps(s, Top(|s|), js + [j] + rest) == Swaps(Swap(u, i, j), i - 1, rest) {
      var more := [j] + rest;
      assert more[1..] == rest && Choices(i, more);
      SeqAssoc(js, [j], rest);
    }
  }

  lemma SwapsEnd<T(!new)>(s: seq<T>, js: seq<nat>, u: seq<T>)
    requires SwapsTo(s, js, u, 0)
    ensures Choices(Top(|s|), js) && Swaps(s, Top(|s|), js) == u
  {
    assert Choices(0, []) && js + [] == js;
  }

  /** The choices for the places from `i` down to 1 that are drawn. */
  function ChoicesDrawn(i: nat, draws: seq<uint32>): (r: Option<seq<nat>>)
    requires i < 0x8000_0000
    ensures r.Present? ==> Choices(i, r.value)
  {
    if i == 0 then Present([])
    else
      match Drawn(i + 1, draws)
      case Absent => Absent
      case Present(d) => Prepend([d.k], ChoicesDrawn(i - 1, d.rest))
  }

  function Prepend(js: seq<nat>, r: Option<seq<nat>>): Option<seq<nat>> {
    match r
    case Absent => Absent
    case Present(ks) => Present(js + ks)
  }

  lemma PrependTwice(js: seq<nat>, k: nat, r: Option<seq<nat>>)
    ensures Prepend(js, Prepend([k], r)) == Prepend(js + [k], r)
  {
    if r.Present? {
      SeqAssoc(js, [k], r.value);
    }
  }

  /** csprngShuffle over an array: the swaps of the choices drawn, in place. When the randomness runs
      out some of them have been made. */
  method Shuffle<T(!new)>(csprng: Csprng, a: array<T>) returns (err: Err)
    requires a.Length < 0x8000_0000
    modifies csprng, a
    ensures multiset(a[..]) == multiset(old(a[..]))
    ensures err == None <==> ChoicesDrawn(Top(a.Length), old(csprng.draws)).Present?
    ensures err == None ==>
      a[..] == Swaps(old(a[..]), Top(a.Length), ChoicesDrawn(Top(a.Length), old(csprng.draws)).value)
  {
    hide SwapsTo, Choices, Swaps, Prepend, Drawn, ChoicesDrawn, Swap;
    ghost var s, js, drawn := a[..], [], ChoicesDrawn(Top(a.Length), csprng.draws);
    err := None;
    SwapsStart(s);
    PrependNothing(drawn);
    var i := a.Length - 1;
    while i > 0
      invariant -1 <= i <= a.Length - 1 && err == None
      invariant multiset(a[..]) == multiset(s) && SwapsTo(s, js, a[..], Top(i + 1))
      invariant drawn == Prepend(js, ChoicesDrawn(Top(i + 1), csprng.draws))
    {
      ChoicesDrawnStep(i, csprng.draws);
      var j;
      j, err := Uint32n(csprng, i + 1);
      if err != None {
        PrependNothing(Absent);
        return;
      }
      ghost var u := a[..];
      SwapElements(a, i, j);
      SwapsStep(s, js, u, i, j);
      PrependTwice(js, j, ChoicesDrawn(i - 1, csprng.draws));
      js := js + [j];
      i := i - 1;
    }
    SwapsEnd(s, js, a[..]);
    ChoicesDrawnNone(csprng.draws);
    PrependEmpty(js);
  }

  /** The `swap` of the receivers' shuffle. */
  method SwapElements<T>(a: array<T>, i: nat, j: nat)
    requires i < a.Length && j < a.Length
    modifies a
    ensures a[..] == Swap(old(a[..]), i, j)
  {
    a[i], a[j] := a[j], a[i];
  }

  lemma ChoicesDrawnStep(i: nat, draws: seq<uint32>)
    requires 0 < i < 0x8000_0000
    ensures ChoicesDrawn(i, draws) == match Drawn(i + 1, draws) {
      case Absent => Absent
      case Present(d) => Prepend([d.k], ChoicesDrawn(i - 1, d.rest))
    }
  {
  }

  lemma ChoicesDrawnNone(draws: seq<uint32>)
    ensures ChoicesDrawn(0, draws) == Present([])
  {
  }

  lemma PrependNothing(r: Option<seq<nat>>)
    ensures Prepend([], r) == r && forall js :: Prepend(js, Absent) == Absent
  {
    if r.Present? {
      EmptyFirst(r.value);
    }
  }

  lemma PrependEmpty(js: seq<nat>)
    ensures Prepend(js, Present([])) == Present(js)
  {
    assert js + [] == js;
  }

  /** The order that the draws put a list into. */
  function Shuffled<T>(s: seq<T>, draws: seq<uint32>): Option<seq<T>>
    requires |s| < 0x8000_0000
  {
    match ChoicesDrawn(Top(|s|), draws)
    case Absent => Absent
    case Present(js) => Present(Swaps(s, Top(|s|), js))
  }

  /** Some draw is accepted for every k. */
  lemma DrawFor(n: uint32, k: nat) returns (v: uint32)
    requires n > 0 && k < n
    ensures Accepts(n, v) && High(n, v) == k
  {
    hide CeilDiv, High, Accepts;
    LastDraw(n, k);
    DivMod(TWO_32, n, TWO_32 / n, TWO_32 % n);
    v := CeilDiv(k * TWO_32 + TWO_32 % n, n);
    DrawsForIff(n, k, v);
  }

  lemma {:induction false} DrawsMake(i: nat, js: seq<nat>) returns (draws: seq<uint32>)
    requires i < 0x8000_0000 && Choices(i, js)
    ensures ChoicesDrawn(i, draws) == Present(js)
  {
    hide High, Accepts;
    draws := [];
    if i > 0 {
      var rest := DrawsMake(i - 1, js[1..]);
      var v := DrawFor(i + 1, js[0]);
      draws := [v] + rest;
      assert draws[1..] == rest && [js[0]] + js[1..] == js;
    }
  }

  lemma {:induction false} FewDraws(i: nat, draws: seq<uint32>)
    requires i < 0x8000_0000 && |draws| < i
    ensures ChoicesDrawn(i, draws).Absent?
    decreases i
  {
    hide Accepts, High;
    if Drawn(i + 1, draws).Present? {
      FewDraws(i - 1, Drawn(i + 1, draws).value.rest);
    }
  }

  /** Every order comes up: for any permutation of a list of distinct elements there are draws that shuffle
      the list into it. */
  lemma EveryOrder<T(!new)>(s: seq<T>, t: seq<T>) returns (draws: seq<uint32>)
    requires Distinct(s) && |s| < 0x8000_0000 && multiset(t) == multiset(s)
    ensures Shuffled(s, draws) == Present(t)
  {
    hide ChoicesDrawn, Choices, Swaps;
    assert |multiset(t)| == |t| && |multiset(s)| == |s|;
    var js := ChoicesFor(s, t, Top(|s|));
    ChoicesReach(s, t, Top(|s|));
    draws := DrawsMake(Top(|s|), js);
  }

  /** And a shuffle takes a draw for each element but one. */
  lemma DrawsNeeded<T>(s: seq<T>, draws: seq<uint32>)
    requires |s| < 0x8000_0000 && Shuffled(s, draws).Present?
    ensures |draws| + 1 >= |s|
    ensures multiset(Shuffled(s, draws).value) == multiset(s)
  {
    hide ChoicesDrawn, Swaps;
    if |draws| + 1 < |s| {
      FewDraws(|s| - 1, draws);
    }
  }

  /** shuffleEncryptReceivers: a copy in the order that is drawn, if the randomness is enough. It has the
      same receivers, each as often. */
  method ShuffleReceivers<T(!new)>(csprng: Csprng, receivers: seq<T>) returns (shuffled: seq<T>, err: Err)
    requires |receivers| < 0x8000_0000
    modifies csprng
    ensures Shuffled(receivers, old(csprng.draws)) == if err == None then Present(shuffled) else Absent
    ensures err == None ==> multiset(shuffled) == multiset(receivers)
  {
    var a := new T[|receivers|](i requires 0 <= i < |receivers| => receivers[i]);
    assert a[..] == receivers;
    err := Shuffle(csprng, a);
    shuffled := a[..];
  }
}
