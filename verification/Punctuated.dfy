/** The segment splitter (punctuated_reader.go). It keeps pending bytes as slices of its own buffer
    or of a buffer its caller passed in, so its invariant says which arrays those slices alias. */
module Punctuated {
  import opened Bytes
  import opened IO

  /** A Go byte slice: nil or empty, or a non-empty part of an array. */
  datatype Slice = Nil | Slice(a: array<byte>, lo: nat, hi: nat) {
    ghost predicate Ok() {
      Slice? ==> lo < hi <= a.Length
    }

    ghost function Arrays(): set<object> {
      if Nil? then {} else {a}
    }

    function Len(): nat
      requires Ok()
    {
      if Nil? then 0 else hi - lo
    }

    function Get(): bytes
      requires Ok()
      reads Arrays()
    {
      if Nil? then [] else a[lo..hi]
    }

    /** The subslice [from:to]. */
    function Sub(from: nat, to: nat): (r: Slice)
      requires Ok() && from <= to <= Len()
      ensures r.Ok() && r.Len() == to - from && r.Arrays() <= Arrays()
    {
      if from == to then Nil else Slice(a, lo + from, lo + to)
    }
  }

  /** The slice a[lo:hi]. */
  function Part(a: array<byte>, lo: nat, hi: nat): (r: Slice)
    requires lo <= hi <= a.Length
    reads a
    ensures r.Ok() && r.Len() == hi - lo && r.Arrays() <= {a} && r.Get() == a[lo..hi]
  {
    if lo == hi then Nil else Slice(a, lo, hi)
  }

  lemma SlicePrefix(a: array<byte>, lo: nat, n: nat, k: nat)
    requires lo + n <= a.Length && k <= n
    ensures a[lo..lo + k] == a[lo..lo + n][..k]
  {
  }

  lemma SubGet(s: Slice, from: nat, to: nat)
    requires s.Ok() && from <= to <= s.Len()
    ensures s.Sub(from, to).Get() == s.Get()[from..to]
  {
    if from < to {
      PartOfPart(s.a, s.lo, s.hi, from, to);
    }
  }

  lemma PartOfPart(a: array<byte>, lo: nat, hi: nat, from: nat, to: nat)
    requires lo <= hi <= a.Length && from <= to <= hi - lo
    ensures a[lo..hi][from..to] == a[lo + from..lo + to]
  {
    var x := a[lo..hi];
    forall i | 0 <= i < to - from ensures x[from..to][i] == a[lo + from..lo + to][i] {
      assert x[from..to][i] == x[from + i] == a[lo + (from + i)];
    }
  }

  /** Go's `copy` into out[lo..hi], which is right for overlapping slices too. */
  method Copy(out: array<byte>, lo: nat, hi: nat, src: Slice) returns (n: nat)
    requires src.Ok() && lo <= hi <= out.Length
    modifies out
    ensures n == Min(hi - lo, src.Len())
    ensures out[lo..lo + n] == old(src.Get())[..n]
    ensures forall i :: 0 <= i < out.Length && !(lo <= i < lo + n) ==> out[i] == old(out[i])
  {
    n := Min(hi - lo, src.Len());
    if src.Slice? {
      forall i | 0 <= i < n {
        out[lo + i] := src.a[src.lo + i];
      }
    }
  }

  /** `copy` into out[lo..hi] that spoils neither the rest of `src` nor the later slice `keep`: `out`
      is another array, or it is the whole array that `src` and `keep` live in. */
  method CopyKeeping(out: array<byte>, lo: nat, hi: nat, src: Slice, keep: Slice) returns (n: nat)
    requires src.Ok() && keep.Ok() && lo <= hi <= out.Length
    requires src.Slice? && keep.Slice? ==> src.a == keep.a && src.hi < keep.lo
    requires src.Slice? && src.a == out ==> lo == 0 && hi == out.Length
    modifies out
    ensures n == Min(hi - lo, src.Len())
    ensures out[lo..lo + n] == old(src.Get())[..n]
    ensures forall i :: 0 <= i < out.Length && !(lo <= i < lo + n) ==> out[i] == old(out[i])
    ensures src.Sub(n, src.Len()).Get() == old(src.Get())[n..]
    ensures keep.Get() == old(keep.Get())
  {
    ghost var x, k := src.Get(), Min(hi - lo, src.Len());
    SubGet(src, k, src.Len());
    ghost var left, y := src.Sub(k, src.Len()).Get(), keep.Get();
    n := Copy(out, lo, hi, src);
    if src.Slice? {
      assert forall i :: src.lo + n <= i < src.hi ==> src.a[i] == old(src.a[i]);
      assert src.Sub(n, src.Len()).Get() == left;
    }
    if keep.Slice? {
      assert forall i :: keep.lo <= i < keep.hi ==> keep.a[i] == old(keep.a[i]);
      assert keep.Get() == y;
    }
  }

  class PunctuatedReader {
    const r: Source
    const punctuation: byte
    const buf: array<byte>
    var thisSegment: Slice
    var nextSegment: Slice
    var errThisSegment: bool

    /** The arrays whose contents are still to be delivered. */
    ghost function Aliases(): set<object>
      reads this
    {
      thisSegment.Arrays() + nextSegment.Arrays()
    }

    ghost predicate Valid()
      reads this, Aliases()
    {
      && r.Valid() && buf.Length == 4096
      && thisSegment.Ok() && nextSegment.Ok()
      && punctuation !in thisSegment.Get()
      && (errThisSegment ==> thisSegment.Slice?)
      && (thisSegment.Slice? && nextSegment.Slice? ==>
            && errThisSegment
            && nextSegment.a == thisSegment.a && thisSegment.hi < nextSegment.lo)
    }

    /** Everything still to be delivered, punctuation included. */
    ghost function Pending(): bytes
      reads this, r, Aliases()
      requires thisSegment.Ok() && nextSegment.Ok()
    {
      Flat(thisSegment.Get(), errThisSegment, nextSegment.Get(), r.rest, punctuation)
    }

    /** The pace of a source from which nothing has been read ahead, and nothing will be: its pieces hold
        no punctuation but at their ends. */
    ghost function Beat(): Option<Pace>
      reads this, r
    {
      if thisSegment.Nil? && nextSegment.Nil? then BeatOf(r.pace, r.rest, punctuation) else Absent
    }

    /** A read may go into the whole of the reader's own buffer, or into an array that holds nothing
        pending. */
    ghost predicate MayReadInto(out: array<byte>, lo: nat, hi: nat)
      reads this
    {
      && lo <= hi <= out.Length
      && (if out == buf then lo == 0 && hi == buf.Length else out !in Aliases())
    }

    constructor (r: Source, punctuation: byte)
      requires r.Valid()
      ensures Valid() && this.r == r && this.punctuation == punctuation
      ensures Pending() == r.rest && Aliases() == {} && fresh(buf)
      ensures Beat() == BeatOf(r.pace, r.rest, punctuation)
    {
      this.r, this.punctuation := r, punctuation;
      buf := new byte[4096];
      thisSegment, nextSegment, errThisSegment := Nil, Nil, false;
    }

    /** Copies the segment out; what does not fit waits in thisSegment, and so does the report of the
        punctuation that follows it. */
    method CopyOut(out: array<byte>, lo: nat, hi: nat, seg: Slice, found: bool) returns (n: nat, err: Err)
      requires r.Valid() && buf.Length == 4096 && seg.Ok() && nextSegment.Ok() && punctuation !in seg.Get()
      requires nextSegment.Slice? ==> found && (seg.Slice? ==> nextSegment.a == seg.a && seg.hi < nextSegment.lo)
      requires lo <= hi <= out.Length && (lo < hi ==> seg.Slice? || found)
      requires if out == buf then lo == 0 && hi == buf.Length else out !in seg.Arrays() + nextSegment.Arrays()
      modifies this`thisSegment, this`errThisSegment, out
      ensures Valid() && n <= hi - lo
      ensures Delivered(old(Flat(seg.Get(), found, nextSegment.Get(), r.rest, punctuation)), out[lo..lo + n],
                        err, Pending(), punctuation, r.end)
      ensures forall i :: 0 <= i < out.Length && !(lo <= i < lo + n) ==> out[i] == old(out[i])
      ensures err == None && lo < hi ==> n > 0
      ensures thisSegment.Arrays() <= seg.Arrays()
    {
      hide Delivered, Flat;
      ghost var t, x := seg.Get(), nextSegment.Get();
      n := CopyKeeping(out, lo, hi, seg, nextSegment);
      ThisDelivered(t, found, x, r.rest, n, punctuation, r.end);
      thisSegment := seg.Sub(n, seg.Len());
      errThisSegment := found && thisSegment.Slice?;
      assert Pending() == Flat(t[n..], errThisSegment, x, r.rest, punctuation);
      err := if found && thisSegment.Nil? then Punctuated else None;
    }

    /** The first case of Read: the rest of an earlier short copy. */
    method ReadThis(out: array<byte>, lo: nat, hi: nat) returns (n: nat, err: Err)
      requires Valid() && MayReadInto(out, lo, hi) && thisSegment.Slice?
      modifies this, out
      ensures Valid() && n <= hi - lo
      ensures Delivered(old(Pending()), out[lo..lo + n], err, Pending(), punctuation, r.end)
      ensures forall i :: 0 <= i < out.Length && !(lo <= i < lo + n) ==> out[i] == old(out[i])
      ensures err == None && lo < hi ==> n > 0
      ensures Aliases() <= old(Aliases())
    {
      n, err := CopyOut(out, lo, hi, thisSegment, errThisSegment);
    }

    /** Looks for punctuation in `src`: what follows it becomes the next segment. */
    method SplitAtPunctuation(src: Slice) returns (seg: Slice, found: bool)
      requires src.Ok() && nextSegment.Nil?
      modifies this`nextSegment
      ensures seg.Ok() && nextSegment.Ok() && seg.Arrays() <= src.Arrays() && nextSegment.Arrays() <= src.Arrays()
      ensures Split(src.Get(), seg.Get(), found, nextSegment.Get(), punctuation)
      ensures seg.Slice? && nextSegment.Slice? ==> nextSegment.a == seg.a && seg.hi < nextSegment.lo
    {
      hide Split, IndexOf;
      var i := IndexOf(src.Get(), punctuation);
      SplitAtIndex(src.Get(), punctuation);
      found := i < src.Len();
      SubGet(src, 0, i);
      seg := src.Sub(0, i);
      if found {
        SubGet(src, i + 1, src.Len());
        nextSegment := src.Sub(i + 1, src.Len());
      }
    }

    /** The second case of Read: what an earlier call left after its punctuation. */
    method ReadNext(out: array<byte>, lo: nat, hi: nat) returns (n: nat, err: Err)
      requires Valid() && MayReadInto(out, lo, hi) && thisSegment.Nil? && nextSegment.Slice?
      modifies this, out
      ensures Valid() && n <= hi - lo
      ensures Delivered(old(Pending()), out[lo..lo + n], err, Pending(), punctuation, r.end)
      ensures forall i :: 0 <= i < out.Length && !(lo <= i < lo + n) ==> out[i] == old(out[i])
      ensures err == None && lo < hi ==> n > 0
      ensures Aliases() <= old(Aliases())
    {
      hide Delivered, Flat;
      var src := nextSegment;
      ghost var x := src.Get();
      nextSegment := Nil;
      var seg, found := SplitAtPunctuation(src);
      SplitFlat(x, seg.Get(), found, nextSegment.Get(), r.rest, punctuation);
      n, err := CopyOut(out, lo, hi, seg, found);
    }

    /** The third case of Read: straight from the source into the caller's array, where whatever
        follows the punctuation stays. */
    method ReadSource(out: array<byte>, lo: nat, hi: nat) returns (n: nat, err: Err)
      requires Valid() && MayReadInto(out, lo, hi) && thisSegment.Nil? && nextSegment.Nil?
      modifies this, r, out
      ensures Valid() && n <= hi - lo
      ensures Delivered(old(Pending()), out[lo..lo + n], err, Pending(), punctuation, r.end)
      ensures forall i :: 0 <= i < out.Length && !(lo <= i < hi) ==> out[i] == old(out[i])
      ensures err == None && lo < hi ==> n > 0
      ensures Aliases() <= (if err == Punctuated then {out} else {})
      ensures old(Beat()).Present? ==>
        && Beat() == old(Beat())
        && OnBeat(r.pace.value, old(Pending()), hi - lo, out[lo..lo + n], err, punctuation)
    {
      hide Delivered, Flat, OnBeat, Calm, Step, NoneBefore, EndsPiece;
      ghost var rest, beat := r.rest, Beat();
      SourceEnded(rest, punctuation, r.end);
      n, err := r.Read(out, lo, hi);
      if beat.Present? {
        CalmAfter(beat.value, rest, n, punctuation);
        if rest != [] && lo < hi {
          CalmStep(beat.value, rest, hi - lo, punctuation);
        }
      }
      if err == None {
        ghost var m, x := n, out[lo..lo + n];
        n, err := HandOut(Part(out, lo, lo + n), rest);
        SlicePrefix(out, lo, m, n);
        if beat.Present? {
          HandedOut(beat.value, rest, hi - lo, x, n, err, punctuation);
        }
      } else if beat.Present? {
        NothingHandedOut(beat.value, hi - lo, out[lo..lo + n], err, punctuation);
      }
    }

    /** What to report of the bytes that the source just delivered to `src`. */
    method HandOut(src: Slice, ghost rest: bytes) returns (n: nat, err: Err)
      requires Valid() && thisSegment.Nil? && nextSegment.Nil? && src.Ok()
      requires rest == src.Get() + r.rest
      modifies this`nextSegment
      ensures Valid() && n <= src.Len() && (err == None ==> n == src.Len())
      ensures Delivered(rest, src.Get()[..n], err, Pending(), punctuation, r.end)
      ensures Aliases() <= (if err == Punctuated then src.Arrays() else {})
      ensures NoneBefore(src.Get(), punctuation) ==>
        thisSegment.Nil? && nextSegment.Nil? && EndsPiece(src.Get(), n, err, punctuation)
    {
      hide Delivered, Flat, Split, Source.Valid, NoneBefore, EndsPiece;
      ghost var x := src.Get();
      var seg, found := SplitAtPunctuation(src);
      ghost var t, y := seg.Get(), nextSegment.Get();
      SourceDelivered(x, r.rest, t, found, y, punctuation, r.end);
      assert Pending() == Flat([], false, y, r.rest, punctuation);
      TakeAll(x);
      n := if found then seg.Len() else src.Len();
      err := if found then Punctuated else None;
      SplitAtEnd(x, t, found, y, n, err, punctuation);
    }

    /** Read: any bytes up to the next punctuation, which is reported as Punctuated; or the end of
        the source once nothing is pending. */
    method Read(out: array<byte>, lo: nat, hi: nat) returns (n: nat, err: Err)
      requires Valid() && MayReadInto(out, lo, hi)
      modifies this, r, out
      ensures Valid() && n <= hi - lo
      ensures Delivered(old(Pending()), out[lo..lo + n], err, Pending(), punctuation, r.end)
      ensures forall i :: 0 <= i < out.Length && !(lo <= i < hi) ==> out[i] == old(out[i])
      ensures err == None && lo < hi ==> n > 0
      ensures Aliases() <= old(Aliases()) + if err == Punctuated then {out} else {}
      ensures old(Beat()).Present? ==>
        && Beat() == old(Beat())
        && OnBeat(r.pace.value, old(Pending()), hi - lo, out[lo..lo + n], err, punctuation)
    {
      hide Delivered, OnBeat, Calm, Flat, Source.Valid;
      if thisSegment.Slice? {
        n, err := ReadThis(out, lo, hi);
      } else if nextSegment.Slice? {
        n, err := ReadNext(out, lo, hi);
      } else {
        n, err := ReadSource(out, lo, hi);
      }
    }

    /** One turn of ReadUntilPunctuation: `res` grows by whatever the next read brings. */
    method Grow(res: bytes, ghost p: bytes) returns (grown: bytes, err: Err)
      requires Valid() && Prefix(p, res, punctuation) && Pending() == p[|res|..]
      modifies this, r, buf
      ensures Valid() && Aliases() <= old(Aliases()) + {buf}
      ensures Prefix(p, grown, punctuation) && |grown| <= |res| + buf.Length
      ensures match err
        case None => Pending() == p[|grown|..] && |grown| > |res|
        case Punctuated => |grown| < |p| && p[|grown|] == punctuation && Pending() == p[|grown| + 1..]
        case _ => err == r.end && grown == p == res
      ensures old(Beat()).Present? ==>
        Beat() == old(Beat()) && OnBeat(old(Beat()).value, p[|res|..], 4096, grown[|res|..], err, punctuation)
    {
      hide Flat, OnBeat, Calm, PunctuatedReader.Beat;
      BeatIsPace(this);
      var n;
      n, err := Read(buf, 0, buf.Length);
      ghost var got := buf[0..n];
      Extend(p, res, got, Pending(), err == Punctuated, punctuation);
      grown := res + buf[0..n];
      assert grown[|res|..] == got;
    }

    /** The next segment as a whole. It is found whenever it is shorter than `lim`; a longer one may
        still be, depending on how the reads fall, but only within one buffer of the limit. At a known
        pace it is known which. */
    method ReadUntilPunctuation(lim: nat) returns (res: bytes, err: Err)
      requires Valid()
      modifies this, r, buf
      ensures Valid() && Aliases() <= old(Aliases()) + {buf}
      ensures Segmented(old(Pending()), res, err, Pending(), punctuation, lim, r.end)
      ensures old(Beat()).Present? ==>
        Beat() == old(Beat()) && (err == None <==> FoundAt(old(Beat()).value, old(Pending()), 0, lim, punctuation))
    {
      hide Flat, Segmented, OnBeat, FoundAt, FoundWith, PunctuatedReader.Beat;
      ghost var p, beat := Pending(), Beat();
      res := [];
      StartPrefix(p, punctuation);
      if beat.Present? {
        FoundStart(beat.value, p, lim, punctuation);
      }
      while true
        invariant Valid() && Aliases() <= old(Aliases()) + {buf}
        invariant Prefix(p, res, punctuation) && Pending() == p[|res|..]
        invariant |res| < lim || res == []
        invariant beat.Present? ==> Beat() == beat && FoundWith(beat.value, p, |res|, lim, punctuation)
        decreases |p| - |res|
      {
        ghost var before := |res|;
        res, err := Grow(res, p);
        if beat.Present? {
          FoundStep(beat.value, p, before, lim, res, err, punctuation);
        }
        PrefixSegmented(p, res, before, Pending(), punctuation, lim, r.end);
        if err == Punctuated {
          return res, None;
        } else if err != None {
          return [], if err == EOF then UnexpectedEOF else err;
        }
        if |res| >= lim {
          return [], Overflow;
        }
      }
    }
  }

  // ---- segments ----

  predicate HasNext(t: bytes, punctuation: byte) {
    IndexOf(t, punctuation) < |t|
  }

  /** The text before the first punctuation, or all of it. */
  function First(t: bytes, punctuation: byte): (r: bytes)
    ensures punctuation !in r && |r| <= |t|
  {
    t[..IndexOf(t, punctuation)]
  }

  /** The text after the first punctuation. */
  function After(t: bytes, punctuation: byte): bytes {
    if HasNext(t, punctuation) then t[IndexOf(t, punctuation) + 1..] else []
  }

  /** The longest segment that is found under a limit: one read more than was allowed. */
  function MostFound(lim: nat): nat {
    if lim == 0 then 4096 else lim - 1 + 4096
  }

  /** What reading a whole segment from pending bytes `p` yields, and the bytes `q` that it leaves:
      a segment shorter than the limit is always found, one that is found is not much longer. */
  predicate Segmented(p: bytes, res: bytes, err: Err, q: bytes, punctuation: byte, lim: nat, end: Err) {
    match err
    case None =>
      && HasNext(p, punctuation) && res == First(p, punctuation) && q == After(p, punctuation)
      && |res| <= MostFound(lim)
    case Overflow => |First(p, punctuation)| >= lim
    case _ => !HasNext(p, punctuation) && err == if end == EOF then UnexpectedEOF else end
  }

  /** `x` up to its first punctuation, if any, and `x` after it. */
  predicate Split(x: bytes, seg: bytes, found: bool, next: bytes, punctuation: byte) {
    && punctuation !in seg
    && if found then x == seg + [punctuation] + next else x == seg && next == []
  }

  /** A pending stream from its four parts. */
  function Flat(t: bytes, e: bool, x: bytes, rest: bytes, punctuation: byte): bytes {
    t + (if e then [punctuation] else []) + x + rest
  }

  /** What one read from pending bytes `p` delivers as `got`, and the bytes `q` that it leaves. */
  predicate Delivered(p: bytes, got: bytes, err: Err, q: bytes, punctuation: byte, end: Err) {
    && punctuation !in got
    && (match err
        case None => p == got + q
        case Punctuated => p == got + [punctuation] + q
        case _ => err == end && p == got == q == [])
  }

  function BeatOf(pace: Option<Pace>, t: bytes, punctuation: byte): Option<Pace> {
    if pace.Present? && Calm(pace.value, t, punctuation) then pace else Absent
  }

  /** No piece of a paced text holds punctuation but at its end. */
  predicate Calm(pace: Pace, t: bytes, punctuation: byte) {
    t == [] || (NoneBefore(t[..Step(pace, |t|, |t|)], punctuation) && Calm(pace, t[1..], punctuation))
  }

  /** A piece that holds no punctuation but at its end. */
  predicate NoneBefore(x: bytes, punctuation: byte) {
    x != [] && punctuation !in x[..|x| - 1]
  }

  /** What is delivered of such a piece. */
  predicate EndsPiece(x: bytes, n: nat, err: Err, punctuation: byte) {
    && x != []
    && if x[|x| - 1] == punctuation then err == Punctuated && n == |x| - 1 else err == None && n == |x|
  }

  /** One read of a calm text: its next piece, cut to the size of the read. */
  predicate OnBeat(pace: Pace, t: bytes, size: nat, got: bytes, err: Err, punctuation: byte) {
    t != [] && size > 0 ==>
      var k := Step(pace, |t|, size);
      if t[k - 1] == punctuation then err == Punctuated && got == t[..k - 1] else err == None && got == t[..k]
  }

  /** Whether a segment is found at a pace, `len` bytes of it having been read: its last piece begins below
      the limit. */
  predicate FoundAt(pace: Pace, t: bytes, len: nat, lim: nat, punctuation: byte)
    decreases |t|
  {
    && t != []
    && var k := Step(pace, |t|, 4096);
       t[k - 1] == punctuation || (len + k < lim && FoundAt(pace, t[k..], len + k, lim, punctuation))
  }

  /** The first `n` bytes have been read without deciding it. */
  predicate FoundWith(pace: Pace, p: bytes, n: nat, lim: nat, punctuation: byte) {
    n <= |p| && FoundAt(pace, p, 0, lim, punctuation) == FoundAt(pace, p[n..], n, lim, punctuation)
  }

  lemma FoundStep(pace: Pace, p: bytes, before: nat, lim: nat, grown: bytes, err: Err, punctuation: byte)
    requires FoundWith(pace, p, before, lim, punctuation) && Prefix(p, grown, punctuation) && before <= |grown|
    requires OnBeat(pace, p[before..], 4096, grown[before..], err, punctuation)
    requires match err {
      case None => before < |grown|
      case Punctuated => |grown| < |p|
      case _ => before == |p|
    }
    ensures err == Punctuated ==> FoundAt(pace, p, 0, lim, punctuation)
    ensures err == None ==> if |grown| < lim then FoundWith(pace, p, |grown|, lim, punctuation) else !FoundAt(pace, p, 0, lim, punctuation)
    ensures err != None && err != Punctuated ==> !FoundAt(pace, p, 0, lim, punctuation)
  {
    assert p[before..][|grown| - before..] == p[|grown|..];
  }

  lemma FoundStart(pace: Pace, p: bytes, lim: nat, punctuation: byte)
    ensures FoundWith(pace, p, 0, lim, punctuation)
  {
    assert p[0..] == p;
  }

  lemma BeatIsPace(r: PunctuatedReader)
    ensures r.Beat().Present? ==> r.Beat() == r.r.pace
  {
  }

  lemma {:induction false} CalmAfter(pace: Pace, t: bytes, n: nat, punctuation: byte)
    requires Calm(pace, t, punctuation) && n <= |t|
    ensures Calm(pace, t[n..], punctuation)
    decreases n
  {
    if n == 0 {
      assert t[0..] == t;
    } else {
      CalmAfter(pace, t[1..], n - 1, punctuation);
      assert t[n..] == t[1..][n - 1..];
    }
  }

  lemma CalmStep(pace: Pace, t: bytes, size: nat, punctuation: byte)
    requires Calm(pace, t, punctuation) && t != [] && size > 0
    ensures 0 < Step(pace, |t|, size) <= |t| && NoneBefore(t[..Step(pace, |t|, size)], punctuation)
  {
    var k, m := Step(pace, |t|, size), Step(pace, |t|, |t|);
    assert t[..k][..k - 1] == t[..m][..m - 1][..k - 1];
  }

  lemma HandedOut(pace: Pace, t: bytes, size: nat, x: bytes, n: nat, err: Err, punctuation: byte)
    requires |x| <= |t| && x == t[..|x|] && n <= |x|
    requires t != [] && size > 0 ==> |x| == Step(pace, |t|, size) && EndsPiece(x, n, err, punctuation)
    ensures OnBeat(pace, t, size, x[..n], err, punctuation)
  {
  }

  lemma NothingHandedOut(pace: Pace, size: nat, got: bytes, err: Err, punctuation: byte)
    ensures OnBeat(pace, [], size, got, err, punctuation)
  {
  }

  lemma SplitAtEnd(x: bytes, t: bytes, found: bool, y: bytes, n: nat, err: Err, punctuation: byte)
    requires Split(x, t, found, y, punctuation)
    requires if found then n == |t| && err == Punctuated else n == |x| && err == None
    ensures NoneBefore(x, punctuation) ==> y == [] && EndsPiece(x, n, err, punctuation)
  {
    if found {
      assert x[|t|] == punctuation;
      if |t| < |x| - 1 {
        assert x[..|x| - 1][|t|] == punctuation;
      }
    }
  }

  lemma ThisDelivered(t: bytes, e: bool, x: bytes, rest: bytes, n: nat, punctuation: byte, end: Err)
    requires n <= |t| && punctuation !in t
    ensures n < |t| || !e ==>
      Delivered(Flat(t, e, x, rest, punctuation), t[..n], None, Flat(t[n..], e, x, rest, punctuation), punctuation, end)
    ensures n == |t| && e ==>
      Delivered(Flat(t, e, x, rest, punctuation), t[..n], Punctuated, Flat([], false, x, rest, punctuation), punctuation, end)
    ensures punctuation !in t[n..]
  {
    assert t == t[..n] + t[n..];
  }

  lemma SplitFlat(x: bytes, t: bytes, found: bool, y: bytes, rest: bytes, punctuation: byte)
    requires Split(x, t, found, y, punctuation)
    ensures Flat([], false, x, rest, punctuation) == Flat(t, found, y, rest, punctuation)
  {
  }

  lemma SplitAtIndex(x: bytes, punctuation: byte)
    ensures var i := IndexOf(x, punctuation);
      Split(x, x[0..i], i < |x|, if i < |x| then x[i + 1..|x|] else [], punctuation)
  {
    TakeAll(x);
  }

  lemma SourceEnded(rest: bytes, punctuation: byte, end: Err)
    requires end == EOF || end.Failed?
    ensures Flat([], false, [], rest, punctuation) == rest
    ensures rest == [] ==> Delivered([], [], end, [], punctuation, end)
    ensures rest[..0] == []
  {
  }

  lemma SourceDelivered(x: bytes, after: bytes, t: bytes, found: bool, y: bytes, punctuation: byte, end: Err)
    requires Split(x, t, found, y, punctuation)
    ensures !found ==> y == [] && t == x && Delivered(x + after, x, None, Flat([], false, y, after, punctuation), punctuation, end)
    ensures found ==> Delivered(x + after, t, Punctuated, Flat([], false, y, after, punctuation), punctuation, end)
    ensures |t| <= |x| && x[..|t|] == t
  {
    if found {
      assert x + after == t + [punctuation] + (y + after);
    }
  }

  /** `res` is a prefix of `p` without punctuation. */
  predicate Prefix(p: bytes, res: bytes, punctuation: byte) {
    |res| <= |p| && res == p[..|res|] && punctuation !in res
  }

  lemma Extend(p: bytes, res: bytes, got: bytes, q: bytes, found: bool, punctuation: byte)
    requires Prefix(p, res, punctuation) && punctuation !in got
    requires p[|res|..] == if found then got + [punctuation] + q else got + q
    ensures Prefix(p, res + got, punctuation)
    ensures found ==> |res + got| < |p| && p[|res + got|] == punctuation && p[|res + got| + 1..] == q
    ensures !found ==> p[|res + got|..] == q
    ensures p[|res|..] == [] ==> res == p
  {
    assert p == res + p[|res|..];
  }

  lemma StartPrefix(p: bytes, punctuation: byte)
    ensures Prefix(p, [], punctuation) && p[0..] == p
  {
  }

  lemma PrefixSegmented(p: bytes, res: bytes, before: nat, q: bytes, punctuation: byte, lim: nat, end: Err)
    requires Prefix(p, res, punctuation) && |res| <= before + 4096 && (before < lim || before == 0)
    requires end == EOF || end.Failed?
    ensures |res| <= |p|
    ensures |res| < |p| && p[|res|] == punctuation && q == p[|res| + 1..] ==>
      Segmented(p, res, None, q, punctuation, lim, end)
    ensures |res| >= lim ==> Segmented(p, [], Overflow, q, punctuation, lim, end)
    ensures res == p ==> Segmented(p, [], if end == EOF then UnexpectedEOF else end, q, punctuation, lim, end)
  {
    forall j | 0 <= j < |res| ensures p[j] != punctuation {
      assert p[j] == res[j];
    }
    var i := IndexOf(p, punctuation);
    if |res| < |p| && p[|res|] == punctuation {
      IndexOfUnique(p, punctuation, |res|);
    }
  }
}
