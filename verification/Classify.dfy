/** Recognising the beginning of an armored message (classify_and_decrypt.go,
    IsSaltpackArmoredPrefix). */
module Classify {
  import opened Bytes
  import opened Radix
  import opened BasexLengths
  import opened BasexEncoding
  import opened BasexCodec
  import opened Nonces
  import opened Frame
  import opened Armor62

  const DOT: byte := 46

  /** What a guess can be; `LogicError` is the source's panic. */
  datatype Guess = Armored(brand: bytes, typ: MessageType, version: Version) | Short | NotSaltpack | LogicError

  /** What the first bytes of the binary message say, which MessagePack decides. */
  datatype Inner = Inner(typ: MessageType, version: Version) | InnerShort | NotInner

  // ---- the regular expressions ----

  /** The length of the longest run of alphanumerics in front. */
  function AlnumRun(s: bytes): (k: nat)
    ensures k <= |s| && (k < |s| ==> !IsAlphanumeric(s[k])) && forall i :: 0 <= i < k ==> IsAlphanumeric(s[i])
  {
    if s == [] || !IsAlphanumeric(s[0]) then 0 else 1 + AlnumRun(s[1..])
  }

  /** The longest run of alphanumerics and spaces in front, the body of the header expression. */
  function BodyRun(s: bytes): (r: bytes)
    ensures r <= s && forall i :: 0 <= i < |r| ==> IsAlphanumeric(r[i]) || r[i] == SPACE
    ensures |r| < |s| ==> !IsAlphanumeric(s[|r|]) && s[|r|] != SPACE
  {
    if s == [] || !(IsAlphanumeric(s[0]) || s[0] == SPACE) then [] else [s[0]] + BodyRun(s[1..])
  }

  /** `^([a-zA-Z0-9]+ ?){0,n}$`. */
  predicate MatchWords(s: bytes, n: nat)
    decreases n
  {
    var k := AlnumRun(s);
    s == [] || (n > 0 && k > 0 && (k == |s| || (s[k] == SPACE && MatchWords(s[k + 1..], n - 1))))
  }

  datatype Match = Match(brand: bytes, typ: MessageType, body: bytes)

  /** `SALTPACK <type> ?\.([a-zA-Z0-9 ]*)`. */
  function MatchTail(t: bytes, brand: bytes): Option<Match> {
    var p := SALTPACK + [SPACE];
    if !(p <= t) then Absent
    else if GetStringForType(Encryption) <= t[|p|..] then MatchDot(t[|p|..], brand, Encryption)
    else if GetStringForType(AttachedSignature) <= t[|p|..] then MatchDot(t[|p|..], brand, AttachedSignature)
    else if GetStringForType(DetachedSignature) <= t[|p|..] then MatchDot(t[|p|..], brand, DetachedSignature)
    else Absent
  }

  /** What follows the type. */
  function MatchDot(u: bytes, brand: bytes, typ: MessageType): Option<Match>
    requires GetStringForType(typ) <= u
  {
    var v := u[|GetStringForType(typ)|..];
    var w := if [SPACE] <= v then v[1..] else v;
    if [DOT] <= w then Present(Match(brand, typ, BodyRun(w[1..]))) else Absent
  }

  /** `^BEGIN (?:([a-zA-Z0-9]+) )?` and the above: with a brand if possible, else without one. */
  function MatchHeader(s: bytes): Option<Match> {
    var p := BEGIN + [SPACE];
    if !(p <= s) then Absent
    else
      var rest := s[|p|..];
      var k := AlnumRun(rest);
      var branded := if 0 < k < |rest| && rest[k] == SPACE then MatchTail(rest[k + 1..], rest[..k]) else Absent;
      if branded.Present? then branded else MatchTail(rest, [])
  }

  // ---- the function ----

  /** A header's type and the type of the message in it: the armor of encrypted and of signcrypted
      messages says the same. */
  predicate Carries(header: MessageType, message: MessageType) {
    header == message || (header == Encryption && message == Signcryption)
  }

  /** The header up to its type, without a brand. */
  function HeaderPrefix(typ: MessageType): bytes {
    BEGIN + [SPACE] + SALTPACK + [SPACE] + GetStringForType(typ)
  }

  predicate BeginsHeader(s: bytes) {
    s <= HeaderPrefix(Encryption) || s <= HeaderPrefix(AttachedSignature) || s <= HeaderPrefix(DetachedSignature)
  }

  /** IsSaltpackArmoredPrefix; `inner` is IsSaltpackBinarySlice. */
  function IsSaltpackArmoredPrefix(pref: bytes, inner: bytes -> Inner): Guess {
    Classify(TrimSpace(Collapse(pref, false)), inner)
  }

  function Classify(s: bytes, inner: bytes -> Inner): Guess {
    match MatchHeader(s)
    case Present(m) => ClassifyBody(m, inner)
    case Absent => if MatchWords(s, 5) then ClassifyWords(s) else NotSaltpack
  }

  /** What to say of at most five words that are not a whole header. */
  function ClassifyWords(s: bytes): Guess {
    var strs := SplitWords(s);
    match |strs|
    case 1 => if strs[0] <= BEGIN then Short else NotSaltpack
    case 2 => if strs[0] == BEGIN then Short else NotSaltpack
    case 3 | 4 | 5 => if BeginsHeader(Join([strs[0]] + strs[2..])) || BeginsHeader(s) then Short else NotSaltpack
    case _ => LogicError
  }

  /** What to say of a header and the beginning of a body. An error is ignored once a whole block was
      decoded. */
  function ClassifyBody(m: Match, inner: bytes -> Inner): Guess {
    var d := DecodeText(Base62(), m.body);
    if |d.data| < 32 then
      if d.err == None || d.err == InvalidLength then Short else NotSaltpack
    else
      match inner(d.data)
      case InnerShort => Short
      case NotInner => NotSaltpack
      case Inner(typ, version) =>
        if (if typ == Signcryption then Encryption else typ) != m.typ then NotSaltpack else Armored(m.brand, typ, version)
  }

  // ---- the panic ----

  lemma {:induction false} TrimRightEnd(s: bytes)
    ensures TrimRight(s) != [] ==> !IsSpace(TrimRight(s)[|TrimRight(s)| - 1])
    decreases |s|
  {
    if s != [] && IsSpace(s[|s| - 1]) {
      TrimRightEnd(s[..|s| - 1]);
    }
  }

  lemma {:induction false} MatchWordsCount(s: bytes, n: nat)
    requires MatchWords(s, n) && n > 0 && (s != [] ==> s[|s| - 1] != SPACE)
    ensures 1 <= |SplitWords(s)| <= n
    decreases n
  {
    hide SplitWords;
    var k := AlnumRun(s);
    SplitRun(s, k);
    if k < |s| {
      var t := s[k + 1..];
      assert t != [] && t[|t| - 1] == s[|s| - 1];
      MatchWordsCount(t, n - 1);
    }
  }

  lemma SplitRun(s: bytes, k: nat)
    requires k == AlnumRun(s) && (k < |s| ==> s[k] == SPACE)
    ensures SplitWords(s) == if k == |s| then [s] else [s[..k]] + SplitWords(s[k + 1..])
  {
    hide SplitWords, IsAlphanumeric, AlnumRun;
    RunHasNoSpace(s);
    if k < |s| {
      SplitFirst(s[..k], s[k + 1..]);
      assert s[k..] == [SPACE] + s[k + 1..];
      assert s == s[..k] + s[k..];
      SeqAssoc(s[..k], [SPACE], s[k + 1..]);
    } else {
      TakeAll(s);
      SplitNone(s);
    }
  }

  lemma SplitNone(s: bytes)
    requires SPACE !in s
    ensures SplitWords(s) == [s]
  {
    IndexOfUnique(s, SPACE, |s|);
  }

  lemma RunHasNoSpace(s: bytes)
    ensures SPACE !in s[..AlnumRun(s)]
  {
    forall i | 0 <= i < AlnumRun(s) ensures s[..AlnumRun(s)][i] != SPACE {
      assert IsAlphanumeric(s[i]);
    }
  }

  /** The "logic error" panic cannot be reached. */
  lemma NeverPanics(pref: bytes, inner: bytes -> Inner)
    ensures IsSaltpackArmoredPrefix(pref, inner) != LogicError
  {
    hide MatchHeader, TrimRight, TrimLeft, Collapse, DecodeText, MatchWords, SplitWords, Join, BeginsHeader;
    var s := TrimSpace(Collapse(pref, false));
    TrimRightEnd(TrimLeft(Collapse(pref, false)));
    if MatchWords(s, 5) {
      MatchWordsCount(s, 5);
    }
  }

  // ---- cutting a header ----

  /** `ws` is what is left of `words` when the text is cut: some of them, the last one perhaps in part. */
  ghost predicate IsCut(ws: seq<bytes>, words: seq<bytes>) {
    && |ws| <= |words|
    && (forall i :: 0 <= i < |ws| - 1 ==> ws[i] == words[i])
    && (ws != [] ==> ws[|ws| - 1] != [] && ws[|ws| - 1] <= words[|ws| - 1])
  }

  lemma {:induction false} CutReflow(s: bytes, words: seq<bytes>, cut: nat) returns (ws: seq<bytes>)
    requires IsReflow(s, words) && AllWords(words) && cut <= |s|
    ensures IsReflow(s[..cut], ws) && IsCut(ws, words) && AllWords(ws)
    decreases |words|, |s|
  {
    if cut == 0 {
      ws := [];
    } else if IsGap(s[0]) {
      ws := CutReflow(s[1..], words, cut - 1);
      assert s[..cut][1..] == s[1..][..cut - 1];
    } else {
      var w := words[0];
      assert IsWord(w) && s[..|w|] == w;
      if cut <= |w| {
        ws := [w[..cut]];
        assert s[..cut] == w[..cut] && s[..cut][cut..] == [];
      } else {
        var more := CutReflow(s[|w|..], words[1..], cut - |w|);
        ws := [w] + more;
        CutOne(s, words, cut, more);
      }
    }
  }

  lemma CutOne(s: bytes, words: seq<bytes>, cut: nat, more: seq<bytes>)
    requires IsReflow(s, words) && AllWords(words) && words != [] && |words[0]| < cut <= |s| && !IsGap(s[0])
    requires IsReflow(s[|words[0]|..][..cut - |words[0]|], more) && IsCut(more, words[1..]) && AllWords(more)
    ensures IsReflow(s[..cut], [words[0]] + more) && IsCut([words[0]] + more, words) && AllWords([words[0]] + more)
  {
    var w, ws := words[0], [words[0]] + more;
    assert IsWord(w);
    assert s[..cut][..|w|] == s[..|w|] == w && s[..cut][|w|..] == s[|w|..][..cut - |w|] && ws[1..] == more;
    assert s[..cut][|w|] == s[|w|];
    forall i | 0 <= i < |ws| - 1 ensures ws[i] == words[i] {
      if i > 0 {
        assert more[i - 1] == words[1..][i - 1];
      }
    }
    if more != [] {
      assert ws[|ws| - 1] == more[|more| - 1] && words[|ws| - 1] == words[1..][|more| - 1];
    }
  }

  lemma TrimOfReflow(s: bytes, words: seq<bytes>)
    requires AllWords(words) && IsReflow(s, words)
    ensures TrimSpace(Collapse(s, false)) == Join(words)
  {
    if words == [] {
      var trail := CollapseGaps(s, false);
      assert TrimLeft([SPACE]) == TrimLeft([]) == [];
    } else {
      var lead, trail := CollapseReflow(s, words, false);
      SplitJoin(words);
      TrimEnds(lead, Join(words), trail);
    }
  }

  lemma {:induction false} JoinPrefix(ws: seq<bytes>, words: seq<bytes>)
    requires IsCut(ws, words)
    ensures Join(ws) <= Join(words)
    decreases |ws|
  {
    if |ws| > 1 {
      var u, v := ws[1..], words[1..];
      assert forall i :: 0 <= i < |u| ==> u[i] == ws[i + 1];
      assert forall i :: 0 <= i < |v| ==> v[i] == words[i + 1];
      JoinPrefix(u, v);
      assert ws[0] == words[0];
    } else if |ws| == 1 {
      assert ws[0] <= words[0];
    }
  }

  predicate AllAlnum(w: bytes) {
    w != [] && forall i :: 0 <= i < |w| ==> IsAlphanumeric(w[i])
  }

  lemma {:induction false} JoinMatchesWords(ws: seq<bytes>, n: nat)
    requires |ws| <= n && forall i :: 0 <= i < |ws| ==> AllAlnum(ws[i])
    ensures MatchWords(Join(ws), n) && DOT !in Join(ws)
    decreases |ws|
  {
    hide MatchWords, AllAlnum;
    if |ws| > 1 {
      JoinMatchesWords(ws[1..], n - 1);
      WordThenWords(ws[0], Join(ws[1..]), n);
      SeqAssoc(ws[0], [SPACE], Join(ws[1..]));
    } else if |ws| == 1 {
      OneWord(ws[0], n);
    } else {
      NoWords();
    }
  }

  lemma WordThenWords(w: bytes, t: bytes, n: nat)
    requires AllAlnum(w) && n > 0 && MatchWords(t, n - 1) && DOT !in t
    ensures MatchWords(w + ([SPACE] + t), n) && DOT !in w + ([SPACE] + t)
  {
    var s := w + ([SPACE] + t);
    assert s[|w| + 1..] == t && s[|w|] == SPACE && forall i :: 0 <= i < |w| ==> s[i] == w[i];
    RunIs(s, |w|);
  }

  lemma OneWord(w: bytes, n: nat)
    requires AllAlnum(w) && n > 0
    ensures MatchWords(w, n) && DOT !in w
  {
    RunIs(w, |w|);
  }

  lemma RunIs(s: bytes, k: nat)
    requires k <= |s| && (k < |s| ==> !IsAlphanumeric(s[k])) && forall i :: 0 <= i < k ==> IsAlphanumeric(s[i])
    ensures AlnumRun(s) == k
  {
    var r := AlnumRun(s);
    assert r < |s| ==> !IsAlphanumeric(s[r]);
  }

  lemma NoDotNoMatch(u: bytes, brand: bytes, typ: MessageType)
    requires DOT !in u && GetStringForType(typ) <= u
    ensures MatchDot(u, brand, typ).Absent?
  {
    hide GetStringForType;
    var v := u[|GetStringForType(typ)|..];
    var w := if [SPACE] <= v then v[1..] else v;
    assert w != [] ==> w[0] == u[|u| - |w|] && w[0] in u;
  }

  lemma NoDotNoTail(t: bytes, brand: bytes)
    requires DOT !in t
    ensures MatchTail(t, brand).Absent?
  {
    hide GetStringForType, MatchDot;
    if SALTPACK + [SPACE] <= t {
      var u := t[|SALTPACK| + 1..];
      assert forall i :: 0 <= i < |u| ==> u[i] in t;
      if GetStringForType(Encryption) <= u {
        NoDotNoMatch(u, brand, Encryption);
      }
      if GetStringForType(AttachedSignature) <= u {
        NoDotNoMatch(u, brand, AttachedSignature);
      }
      if GetStringForType(DetachedSignature) <= u {
        NoDotNoMatch(u, brand, DetachedSignature);
      }
    }
  }

  lemma NoDotNoHeader(s: bytes)
    requires DOT !in s
    ensures MatchHeader(s).Absent?
  {
    hide MatchTail;
    if BEGIN + [SPACE] <= s {
      var rest := s[|BEGIN| + 1..];
      var k := AlnumRun(rest);
      NoDotNoTail(rest, []);
      if k < |rest| {
        NoDotNoTail(rest[k + 1..], rest[..k]);
      }
    }
  }

  lemma FrameWordsAlnum(typ: MessageType, brand: bytes)
    requires brand == [] || AllAlnum(brand)
    ensures forall w :: w in FrameWords(BEGIN, typ, brand) ==> AllAlnum(w)
  {
    assert AllAlnum(BEGIN) && AllAlnum(SALTPACK) && AllAlnum(MESSAGE) && AllAlnum(SIGNATURE);
    assert AllAlnum(ENCRYPTED) && AllAlnum(SIGNED) && AllAlnum(DETACHED) && (brand != [] ==> AllAlnum(brand));
    hide AllAlnum;
  }

  lemma CutAlnum(ws: seq<bytes>, words: seq<bytes>, i: nat)
    requires IsCut(ws, words) && (forall w :: w in words ==> AllAlnum(w)) && i < |ws|
    ensures AllAlnum(ws[i])
  {
    assert words[i] in words && ws[i] <= words[i];
  }

  lemma PlainHeader(typ: MessageType)
    requires typ != Signcryption
    ensures HeaderPrefix(typ) == Join(FrameWords(BEGIN, typ, []))
  {
    MakeFrameJoins(BEGIN, typ, []);
    var sffx := GetStringForType(typ);
    TypeStringNonEmpty(typ);
    assert [BEGIN] + [] + [SALTPACK] + [sffx] == [BEGIN, SALTPACK, sffx];
    assert [BEGIN, SALTPACK, sffx][1..] == [SALTPACK, sffx] && [SALTPACK, sffx][1..] == [sffx];
    assert Join([SALTPACK, sffx]) == SALTPACK + [SPACE] + sffx;
  }

  /** Dropping a brand from a cut header leaves a cut of the header without it. */
  lemma CutWithoutBrand(ws: seq<bytes>, typ: MessageType, brand: bytes)
    requires IsCut(ws, FrameWords(BEGIN, typ, brand)) && brand != [] && |ws| >= 3
    ensures IsCut([ws[0]] + ws[2..], FrameWords(BEGIN, typ, []))
  {
    var words, plain, u := FrameWords(BEGIN, typ, brand), FrameWords(BEGIN, typ, []), [ws[0]] + ws[2..];
    assert words[0] == plain[0] == BEGIN && forall i :: 1 <= i < |plain| ==> plain[i] == words[i + 1];
    assert forall i :: 1 <= i < |u| ==> u[i] == ws[i + 1];
  }

  /** A cut header is always too short to tell. */
  lemma CutHeaderIsShort(ws: seq<bytes>, typ: MessageType, brand: bytes, inner: bytes -> Inner)
    requires (brand == [] || AllAlnum(brand)) && typ != Signcryption && IsCut(ws, FrameWords(BEGIN, typ, brand))
    ensures Classify(Join(ws), inner) == Short
  {
    hide MatchWords, MatchHeader, Join, SplitWords, IsWord, HeaderPrefix, AllAlnum;
    var s, words := Join(ws), FrameWords(BEGIN, typ, brand);
    FrameWordsAlnum(typ, brand);
    forall i | 0 <= i < |ws| ensures AllAlnum(ws[i]) {
      CutAlnum(ws, words, i);
    }
    AlnumWords(ws);
    JoinMatchesWords(ws, 5);
    NoDotNoHeader(s);
    if ws == [] {
      NoWords();
    } else {
      SplitJoin(ws);
      if |ws| >= 3 {
        PlainHeader(typ);
        if brand == [] {
          JoinPrefix(ws, words);
        } else {
          CutWithoutBrand(ws, typ, brand);
          JoinPrefix([ws[0]] + ws[2..], FrameWords(BEGIN, typ, []));
        }
        BeginsHeaderFor(typ);
      }
    }
  }

  lemma NoWords()
    ensures Join([]) == [] && SplitWords([]) == [[]] && forall n: nat :: MatchWords([], n)
  {
  }

  lemma BeginsHeaderFor(typ: MessageType)
    requires typ != Signcryption
    ensures forall s :: s <= HeaderPrefix(typ) ==> BeginsHeader(s)
  {
    hide HeaderPrefix;
  }

  /** However a header is reflowed and wherever it is cut, the answer is that more is needed. */
  lemma HeaderPrefixIsShort(h: bytes, typ: MessageType, brand: bytes, cut: nat, inner: bytes -> Inner)
    requires GoodBrand(brand) && typ != Signcryption && IsReflow(h, FrameWords(BEGIN, typ, brand)) && cut <= |h|
    ensures IsSaltpackArmoredPrefix(h[..cut], inner) == Short
  {
    hide Classify, IsReflow;
    FrameWordsAreWords(BEGIN, typ, brand);
    assert brand == [] || AllAlnum(brand);
    var ws := CutReflow(h, FrameWords(BEGIN, typ, brand), cut);
    TrimOfReflow(h[..cut], ws);
    CutHeaderIsShort(ws, typ, brand, inner);
  }

  // ---- at most five words ----

  /** The words of what the second expression matches. */
  lemma {:induction false} MatchedWords(s: bytes, n: nat) returns (ws: seq<bytes>)
    requires MatchWords(s, n) && (s != [] ==> s[|s| - 1] != SPACE)
    ensures s == Join(ws) && |ws| <= n && forall i :: 0 <= i < |ws| ==> AllAlnum(ws[i])
    decreases n
  {
    ws := [];
    if s != [] {
      var k := AlnumRun(s);
      var w := s[..k];
      assert AllAlnum(w);
      if k == |s| {
        ws := [w];
      } else {
        var t := s[k + 1..];
        assert t != [] && t[|t| - 1] == s[|s| - 1];
        var more := MatchedWords(t, n - 1);
        ws := [w] + more;
        JoinFirst(w, more);
        assert s == w + [SPACE] + t;
      }
    }
  }

  lemma {:induction false} WordsMatch(ws: seq<bytes>, n: nat)
    requires n > 0 && forall i :: 0 <= i < |ws| ==> AllAlnum(ws[i])
    ensures MatchWords(Join(ws), n) <==> |ws| <= n
    ensures ws != [] ==> SplitWords(Join(ws)) == ws
  {
    hide MatchWords, SplitWords, Join;
    if |ws| <= n {
      JoinMatchesWords(ws, n);
    }
    if ws != [] {
      AlnumWords(ws);
      SplitJoin(ws);
      if MatchWords(Join(ws), n) {
        MatchWordsCount(Join(ws), n);
      }
    }
  }

  lemma AlnumWords(ws: seq<bytes>)
    requires forall i :: 0 <= i < |ws| ==> AllAlnum(ws[i])
    ensures AllWords(ws)
  {
  }

  /** Where joined words begin as other joined words do, they are a cut of them. */
  lemma {:induction false} PrefixCuts(ws: seq<bytes>, words: seq<bytes>)
    requires ws != [] && words != [] && Join(ws) <= Join(words)
    requires forall i :: 0 <= i < |ws| ==> ws[i] != [] && SPACE !in ws[i]
    requires forall i :: 0 <= i < |words| ==> SPACE !in words[i]
    ensures IsCut(ws, words)
    decreases |ws|
  {
    var w, v := ws[0], words[0];
    assert |ws| > 1 ==> ws == [w] + ws[1..];
    assert |words| > 1 ==> words == [v] + words[1..];
    assert |words| == 1 ==> Join(words) == v;
    if |ws| == 1 {
      if |words| > 1 {
        JoinFirst(v, words[1..]);
        WithinFirst(w, v, Join(words[1..]));
      }
    } else {
      JoinFirst(w, ws[1..]);
      HasSpace(w, Join(ws[1..]), Join(words));
      assert |words| > 1;
      JoinFirst(v, words[1..]);
      SameFirst(w, Join(ws[1..]), v, Join(words[1..]));
      PrefixCuts(ws[1..], words[1..]);
      CutAfter(w, ws, words);
    }
  }

  lemma HasSpace(w: bytes, x: bytes, t: bytes)
    requires w + [SPACE] + x <= t
    ensures SPACE in t
  {
    assert (w + [SPACE] + x)[|w|] == t[|w|];
  }

  lemma WithinFirst(w: bytes, v: bytes, y: bytes)
    requires SPACE !in w && w <= v + [SPACE] + y
    ensures w <= v
  {
    var t := v + [SPACE] + y;
    assert t[|v|] == SPACE;
    assert forall k :: 0 <= k < |w| ==> t[k] == w[k] && w[k] != SPACE;
    assert |w| <= |v| && t[..|w|] == v[..|w|];
  }

  lemma SameFirst(w: bytes, x: bytes, v: bytes, y: bytes)
    requires SPACE !in w && SPACE !in v && w + [SPACE] + x <= v + [SPACE] + y
    ensures w == v && x <= y
  {
    var s, t := w + [SPACE] + x, v + [SPACE] + y;
    assert forall k :: 0 <= k < |s| ==> s[k] == t[k];
    assert forall k :: 0 <= k < |w| ==> s[k] == w[k];
    assert forall k :: 0 <= k < |v| ==> t[k] == v[k];
    assert s[|w|] == SPACE && t[|v|] == SPACE;
    IndexOfUnique(t, SPACE, |w|);
    IndexOfUnique(t, SPACE, |v|);
    assert s[..|w|] == w && t[..|v|] == v && s[..|w|] == t[..|w|];
    assert s[|w| + 1..] == x && t[|w| + 1..] == y;
    assert s == t[..|s|] && s[|w| + 1..] == t[..|s|][|w| + 1..];
  }

  lemma CutAfter(w: bytes, ws: seq<bytes>, words: seq<bytes>)
    requires |ws| > 1 && |words| > 1 && ws[0] == words[0] && IsCut(ws[1..], words[1..])
    ensures IsCut(ws, words)
  {
    forall i | 0 <= i < |ws| - 1 ensures ws[i] == words[i] {
      if i > 0 {
        assert ws[1..][i - 1] == words[1..][i - 1];
      }
    }
    assert ws[1..][|ws| - 2] == ws[|ws| - 1] && words[1..][|ws| - 2] == words[|ws| - 1];
  }

  /** The words of a header, cut: with a brand of any length, or without one. */
  ghost predicate CutHeader(ws: seq<bytes>) {
    exists typ, brand :: CutHeaderOf(ws, typ, brand)
  }

  ghost predicate CutHeaderOf(ws: seq<bytes>, typ: MessageType, brand: bytes) {
    && typ != Signcryption && (brand == [] || AllAlnum(brand))
    && IsCut(ws, [BEGIN] + (if brand == [] then [] else [brand]) + [SALTPACK]
                 + (match typ
                    case Encryption => [ENCRYPTED, MESSAGE]
                    case AttachedSignature => [SIGNED, MESSAGE]
                    case _ => [DETACHED, SIGNATURE]))
  }

  /** A text that begins a header without a brand is a cut of one. */
  lemma BeginsMeansCut(ws: seq<bytes>) returns (typ: MessageType)
    requires ws != [] && BeginsHeader(Join(ws)) && forall i :: 0 <= i < |ws| ==> AllAlnum(ws[i])
    ensures typ != Signcryption && IsCut(ws, FrameWords(BEGIN, typ, []))
  {
    hide HeaderPrefix, Join, IsAlphanumeric;
    var s := Join(ws);
    typ := if s <= HeaderPrefix(Encryption) then Encryption
           else if s <= HeaderPrefix(AttachedSignature) then AttachedSignature else DetachedSignature;
    PlainHeader(typ);
    NoSpaces(ws);
    FrameWordsAlnum(typ, []);
    NoSpaces(FrameWords(BEGIN, typ, []));
    PrefixCuts(ws, FrameWords(BEGIN, typ, []));
  }

  lemma NoSpaces(ws: seq<bytes>)
    requires forall w :: w in ws ==> AllAlnum(w)
    ensures forall i :: 0 <= i < |ws| ==> ws[i] != [] && SPACE !in ws[i]
  {
    forall i | 0 <= i < |ws| ensures ws[i] != [] && SPACE !in ws[i] {
      assert ws[i] in ws;
    }
  }

  /** And the second word may be a brand. */
  lemma CutWithBrand(ws: seq<bytes>, typ: MessageType)
    requires |ws| >= 3 && ws[1] != [] && IsCut([ws[0]] + ws[2..], FrameWords(BEGIN, typ, []))
    ensures IsCut(ws, FrameWords(BEGIN, typ, ws[1]))
  {
    var u, plain, words := [ws[0]] + ws[2..], FrameWords(BEGIN, typ, []), FrameWords(BEGIN, typ, ws[1]);
    assert u[0] == plain[0];
    forall i | 0 <= i < |ws| - 1 ensures ws[i] == words[i] {
      if i >= 2 {
        assert u[i - 1] == ws[i] && plain[i - 1] == words[i];
      }
    }
    assert u[|u| - 1] == ws[|ws| - 1] && plain[|u| - 1] == words[|ws| - 1];
  }

  lemma CutHeaderMeans(ws: seq<bytes>, typ: MessageType, brand: bytes)
    ensures CutHeaderOf(ws, typ, brand)
       <==> typ != Signcryption && (brand == [] || AllAlnum(brand)) && IsCut(ws, FrameWords(BEGIN, typ, brand))
  {
    hide IsCut, AllAlnum;
  }

  /** Short words are never taken for a header that they do not begin. */
  lemma ShortMeansCut(ws: seq<bytes>)
    requires ws != [] && |ws| <= 5 && ClassifyWords(Join(ws)) == Short && SplitWords(Join(ws)) == ws
    requires forall i :: 0 <= i < |ws| ==> AllAlnum(ws[i])
    ensures CutHeader(ws)
  {
    hide SplitWords, Join, BeginsHeader, HeaderPrefix, AllAlnum, IsCut, CutHeaderOf;
    NotEmptyWord(ws[|ws| - 1]);
    if |ws| <= 2 {
      var brand := if |ws| == 1 then [] else ws[1];
      OneOrTwo(ws, brand);
      CutHeaderMeans(ws, Encryption, brand);
    } else if BeginsHeader(Join(ws)) {
      var typ := BeginsMeansCut(ws);
      CutHeaderMeans(ws, typ, []);
    } else {
      BrandedMeansCut(ws);
    }
  }

  lemma BrandedMeansCut(ws: seq<bytes>)
    requires |ws| >= 3 && BeginsHeader(Join([ws[0]] + ws[2..]))
    requires forall i :: 0 <= i < |ws| ==> AllAlnum(ws[i])
    ensures CutHeader(ws)
  {
    hide Join, BeginsHeader, AllAlnum, IsCut, CutHeaderOf;
    var u := [ws[0]] + ws[2..];
    forall i | 0 <= i < |u| ensures AllAlnum(u[i]) {
      assert u[i] == if i == 0 then ws[0] else ws[i + 1];
    }
    var typ := BeginsMeansCut(u);
    NotEmptyWord(ws[1]);
    CutWithBrand(ws, typ);
    CutHeaderMeans(ws, typ, ws[1]);
  }

  lemma NotEmptyWord(w: bytes)
    requires AllAlnum(w)
    ensures w != []
  {
  }

  lemma OneOrTwo(ws: seq<bytes>, brand: bytes)
    requires |ws| == 1 || |ws| == 2
    requires ws[|ws| - 1] != []
    requires if |ws| == 1 then ws[0] <= BEGIN && brand == [] else ws[0] == BEGIN && brand == ws[1]
    ensures IsCut(ws, FrameWords(BEGIN, Encryption, brand))
  {
  }

  /** Up to five alphanumeric words, or any number: the answer is that more is needed exactly if they are
      the words of a header, cut somewhere. */
  lemma WordsAnswer(ws: seq<bytes>, inner: bytes -> Inner)
    requires forall i :: 0 <= i < |ws| ==> AllAlnum(ws[i])
    ensures Classify(Join(ws), inner) == if CutHeader(ws) then Short else NotSaltpack
  {
    hide MatchWords, MatchHeader, Join, SplitWords, ClassifyWords, AllAlnum, CutHeader, CutHeaderOf;
    var s := Join(ws);
    NoDot(ws);
    NoDotNoHeader(s);
    WordsMatch(ws, 5);
    if CutHeader(ws) {
      CutIsShort(ws, inner);
    } else if |ws| <= 5 {
      if ws == [] {
        NothingIsCut();
      } else if ClassifyWords(s) == Short {
        ShortMeansCut(ws);
      } else {
        OnlyTwoAnswers(s);
        AlnumWords(ws);
      }
    }
  }

  lemma OnlyTwoAnswers(s: bytes)
    requires 1 <= |SplitWords(s)| <= 5
    ensures ClassifyWords(s) in {Short, NotSaltpack}
  {
    hide SplitWords, BeginsHeader;
  }

  lemma NothingIsCut()
    ensures CutHeader([])
  {
    assert CutHeaderOf([], Encryption, []);
  }

  lemma {:induction false} NoDot(ws: seq<bytes>)
    requires forall i :: 0 <= i < |ws| ==> AllAlnum(ws[i])
    ensures DOT !in Join(ws)
  {
    JoinMatchesWords(ws, |ws|);
  }

  lemma CutIsShort(ws: seq<bytes>, inner: bytes -> Inner)
    requires CutHeader(ws) && forall i :: 0 <= i < |ws| ==> AllAlnum(ws[i])
    ensures Classify(Join(ws), inner) == Short
  {
    hide CutHeaderOf, AllAlnum;
    var typ, brand :| CutHeaderOf(ws, typ, brand);
    CutHeaderMeans(ws, typ, brand);
    CutHeaderIsShort(ws, typ, brand, inner);
  }

  /** The same for the words of a text, however it was reflowed. */
  lemma WordsDecide(pref: bytes, ws: seq<bytes>, inner: bytes -> Inner)
    requires IsReflow(pref, ws) && forall i :: 0 <= i < |ws| ==> AllAlnum(ws[i])
    ensures IsSaltpackArmoredPrefix(pref, inner) == if CutHeader(ws) then Short else NotSaltpack
  {
    hide Classify, IsReflow, AllAlnum, CutHeader, IsCut;
    AlnumWords(ws);
    TrimOfReflow(pref, ws);
    WordsAnswer(ws, inner);
  }

  // ---- cutting a body ----

  lemma {:induction false} CollapseAppend(a: bytes, b: bytes, inGap: bool)
    requires b != [] && !IsGap(b[0])
    ensures Collapse(a + b, inGap) == Collapse(a, inGap) + Collapse(b, false)
    decreases |a|
  {
    hide IsGap;
    if a == [] {
      assert a + b == b && b[0] == (a + b)[0];
      EmptyFirst(Collapse(b, false));
    } else {
      var g := IsGap(a[0]);
      var x := if g then (if inGap then [] else [SPACE]) else [a[0]];
      assert (a + b)[1..] == a[1..] + b && (a + b)[0] == a[0];
      CollapseAppend(a[1..], b, g);
      assert Collapse(a, inGap) == x + Collapse(a[1..], g);
      SeqAssoc(x, Collapse(a[1..], g), Collapse(b, false));
    }
  }

  lemma {:induction false} TrimRightAppend(x: bytes, c: bytes)
    requires x != [] && !IsSpace(x[|x| - 1])
    ensures TrimRight(x + c) == x + TrimRight(c)
    decreases |c|
  {
    if c == [] {
      assert x + c == x;
    } else if IsSpace(c[|c| - 1]) {
      assert (x + c)[..|x + c| - 1] == x + c[..|c| - 1];
      TrimRightAppend(x, c[..|c| - 1]);
    }
  }

  lemma TrimLeftPad(lead: bool, s: bytes)
    requires s != [] && !IsSpace(s[0])
    ensures TrimLeft(Pad(lead) + s) == s
  {
    if lead {
      assert (Pad(lead) + s)[1..] == s;
    } else {
      assert Pad(lead) + s == s;
    }
  }

  /** Bytes that can be in a body: alphanumerics, and gaps that are not read. */
  predicate InBody(r: bytes) {
    forall i :: 0 <= i < |r| ==> IsAlphanumeric(r[i]) || IsGap(r[i])
  }

  /** What becomes of the beginning of a body: only blanks between its characters, and the same
      characters. */
  function Squeezed(r: bytes): bytes {
    TrimRight(Collapse(r, false))
  }

  lemma {:induction false} CollapseBody(r: bytes, inGap: bool)
    requires InBody(r)
    ensures forall i :: 0 <= i < |Collapse(r, inGap)| ==>
      IsAlphanumeric(Collapse(r, inGap)[i]) || Collapse(r, inGap)[i] == SPACE
    ensures Strip(Base62(), Collapse(r, inGap)) == Strip(Base62(), r)
  {
    if r != [] {
      CollapseBody(r[1..], IsGap(r[0]));
      Base62Letters(r[0]);
      Base62Letters(SPACE);
      var c := Collapse(r[1..], IsGap(r[0]));
      assert ([SPACE] + c)[1..] == c && ([r[0]] + c)[1..] == c && [] + c == c;
    }
  }

  /** The letters of base 62 are the alphanumerics. */
  lemma Base62Letters(b: byte)
    ensures b in Base62().alphabet <==> IsAlphanumeric(b)
  {
    if IsAlphanumeric(b) {
      Base62Alphanumeric(b);
    }
  }

  lemma {:induction false} TrimBody(c: bytes)
    requires forall i :: 0 <= i < |c| ==> IsAlphanumeric(c[i]) || c[i] == SPACE
    ensures TrimRight(c) <= c && Strip(Base62(), TrimRight(c)) == Strip(Base62(), c)
    decreases |c|
  {
    if c != [] && IsSpace(c[|c| - 1]) {
      var d := c[..|c| - 1];
      TrimBody(d);
      Base62Letters(SPACE);
      StripSnoc(Base62(), d, SPACE);
      assert c == d + [SPACE];
    }
  }

  lemma {:induction false} BodyRunAll(c: bytes)
    requires forall i :: 0 <= i < |c| ==> IsAlphanumeric(c[i]) || c[i] == SPACE
    ensures BodyRun(c) == c
  {
    if c != [] {
      BodyRunAll(c[1..]);
    }
  }

  lemma SqueezedBody(r: bytes)
    requires InBody(r)
    ensures BodyRun(Squeezed(r)) == Squeezed(r) && Strip(Base62(), Squeezed(r)) == Strip(Base62(), r)
    ensures FirstBad(Base62(), Squeezed(r)) == |Squeezed(r)|
  {
    hide Strip, FirstBad, Base62;
    var c, d := Collapse(r, false), Squeezed(r);
    CollapseBody(r, false);
    TrimBody(c);
    forall i | 0 <= i < |d| ensures IsAlphanumeric(d[i]) || d[i] == SPACE {
      assert d[i] == c[i];
    }
    BodyRunAll(d);
    forall i | 0 <= i < |d| ensures IsValidByte(Base62(), d[i]) {
      Base62Letters(d[i]);
      SpaceValid();
    }
    FirstBadUnique(Base62(), d, |d|);
  }

  lemma SpaceValid()
    ensures IsValidByte(Base62(), SPACE)
  {
  }

  lemma TypePrefixes(typ: MessageType, x: bytes)
    requires typ != Signcryption
    ensures var u := GetStringForType(typ) + x;
      forall t :: t != Signcryption ==> (GetStringForType(t) <= u <==> t == typ)
  {
    var u := GetStringForType(typ) + x;
    assert |GetStringForType(typ)| > 0 && u[0] == GetStringForType(typ)[0];
  }

  lemma DotMatches(typ: MessageType, brand: bytes, trail: bool, c: bytes)
    ensures MatchDot(GetStringForType(typ) + (Pad(trail) + ([DOT] + c)), brand, typ) == Present(Match(brand, typ, BodyRun(c)))
  {
    hide GetStringForType;
    var v := Pad(trail) + ([DOT] + c);
    assert (GetStringForType(typ) + v)[|GetStringForType(typ)|..] == v;
    assert trail ==> v[1..] == [DOT] + c;
    assert !trail ==> v == [DOT] + c;
    assert ([DOT] + c)[1..] == c && ([DOT] + c)[0] == DOT;
  }

  lemma TailMatches(typ: MessageType, brand: bytes, trail: bool, c: bytes)
    requires typ != Signcryption
    ensures MatchTail(SALTPACK + [SPACE] + (GetStringForType(typ) + (Pad(trail) + ([DOT] + c))), brand)
         == Present(Match(brand, typ, BodyRun(c)))
  {
    hide GetStringForType, MatchDot, BodyRun;
    var v := Pad(trail) + ([DOT] + c);
    var u := GetStringForType(typ) + v;
    assert (SALTPACK + [SPACE] + u)[|SALTPACK| + 1..] == u;
    TypePrefixes(typ, v);
    DotMatches(typ, brand, trail, c);
  }

  /** The whole header is recognised, with its brand and type and whatever follows the dot. */
  lemma HeaderMatches(typ: MessageType, brand: bytes, trail: bool, c: bytes)
    requires typ != Signcryption && (brand == [] || AllAlnum(brand))
    ensures MatchHeader(Join(FrameWords(BEGIN, typ, brand)) + (Pad(trail) + ([DOT] + c)))
         == Present(Match(brand, typ, BodyRun(c)))
  {
    hide MatchTail, MatchHeader, GetStringForType, Join, FrameWords, BodyRun;
    var x := Pad(trail) + ([DOT] + c);
    var tail := SALTPACK + [SPACE] + (GetStringForType(typ) + x);
    HeaderTextIs(typ, brand, x);
    TailMatches(typ, brand, trail, c);
    if brand == [] {
      NotFormatName(typ, x);
      PlainMatches(GetStringForType(typ) + x);
    } else {
      BrandMatches(brand, tail);
    }
  }

  lemma PlainMatches(u: bytes)
    requires MatchTail(u, SALTPACK).Absent?
    ensures var tail := SALTPACK + [SPACE] + u; MatchHeader(BEGIN + [SPACE] + tail) == MatchTail(tail, [])
  {
    hide MatchTail;
    var tail, p := SALTPACK + [SPACE] + u, BEGIN + [SPACE];
    assert (p + tail)[|p|..] == tail && tail[..|SALTPACK|] == SALTPACK && tail[|SALTPACK| + 1..] == u;
    assert forall i :: 0 <= i < |SALTPACK| ==> tail[i] == SALTPACK[i];
    RunIs(tail, |SALTPACK|);
  }

  lemma BrandMatches(brand: bytes, tail: bytes)
    requires AllAlnum(brand) && MatchTail(tail, brand).Present?
    ensures MatchHeader(BEGIN + [SPACE] + (brand + ([SPACE] + tail))) == MatchTail(tail, brand)
  {
    hide MatchTail;
    var rest, p := brand + ([SPACE] + tail), BEGIN + [SPACE];
    assert (p + rest)[|p|..] == rest && rest[..|brand|] == brand && rest[|brand| + 1..] == tail;
    assert forall i :: 0 <= i < |brand| ==> rest[i] == brand[i];
    RunIs(rest, |brand|);
  }

  /** A text that begins with a whole header: its words, its dot, and what follows. */
  predicate HeaderText(s: bytes, m: Match, trail: bool, c: bytes) {
    && m.typ != Signcryption && (m.brand == [] || AllAlnum(m.brand)) && m.body == BodyRun(c)
    && s == Join(FrameWords(BEGIN, m.typ, m.brand)) + (Pad(trail) + ([DOT] + c))
  }

  lemma MatchedDot(u: bytes, brand: bytes, typ: MessageType) returns (trail: bool, c: bytes)
    requires GetStringForType(typ) <= u && MatchDot(u, brand, typ).Present?
    ensures u == GetStringForType(typ) + (Pad(trail) + ([DOT] + c))
    ensures MatchDot(u, brand, typ) == Present(Match(brand, typ, BodyRun(c)))
  {
    hide GetStringForType, BodyRun;
    var v := u[|GetStringForType(typ)|..];
    trail := [SPACE] <= v;
    var w := if trail then v[1..] else v;
    c := w[1..];
    assert w == [DOT] + c && v == Pad(trail) + w && u == GetStringForType(typ) + v;
  }

  lemma MatchedTail(t: bytes, brand: bytes) returns (trail: bool, c: bytes)
    requires MatchTail(t, brand).Present?
    ensures var m := MatchTail(t, brand).value;
      && m.typ != Signcryption && m.brand == brand && m.body == BodyRun(c)
      && t == SALTPACK + [SPACE] + (GetStringForType(m.typ) + (Pad(trail) + ([DOT] + c)))
  {
    hide GetStringForType, MatchDot, BodyRun;
    var u := t[|SALTPACK| + 1..];
    assert t == SALTPACK + [SPACE] + u;
    if GetStringForType(Encryption) <= u {
      trail, c := MatchedDot(u, brand, Encryption);
    } else if GetStringForType(AttachedSignature) <= u {
      trail, c := MatchedDot(u, brand, AttachedSignature);
    } else {
      trail, c := MatchedDot(u, brand, DetachedSignature);
    }
  }

  /** The first expression matches whole headers only, and finds their brand, type and body. */
  lemma MatchedHeader(s: bytes) returns (trail: bool, c: bytes)
    requires MatchHeader(s).Present?
    ensures HeaderText(s, MatchHeader(s).value, trail, c)
  {
    hide MatchHeader, GetStringForType, MatchTail, BodyRun, AllAlnum, HeaderText, AlnumRun;
    var rest, brand, tail := HeaderParts(s);
    trail, c := MatchedTail(tail, brand);
    TailText(brand, tail, MatchTail(tail, brand).value, trail, c);
  }

  /** Which of its two forms a header has. */
  lemma HeaderParts(s: bytes) returns (rest: bytes, brand: bytes, tail: bytes)
    requires MatchHeader(s).Present?
    ensures s == BEGIN + [SPACE] + rest && rest == if brand == [] then tail else brand + ([SPACE] + tail)
    ensures (brand == [] || AllAlnum(brand)) && MatchTail(tail, brand) == MatchHeader(s)
  {
    hide MatchTail, AllAlnum, AlnumRun;
    rest := s[|BEGIN| + 1..];
    brand, tail := [], rest;
    var k := AlnumRun(rest);
    if 0 < k < |rest| && rest[k] == SPACE && MatchTail(rest[k + 1..], rest[..k]).Present? {
      brand, tail := rest[..k], rest[k + 1..];
      RunIsAlnum(rest);
    }
  }

  lemma TailText(brand: bytes, tail: bytes, m: Match, trail: bool, c: bytes)
    requires m.typ != Signcryption && m.brand == brand && m.body == BodyRun(c) && (brand == [] || AllAlnum(brand))
    requires tail == SALTPACK + [SPACE] + (GetStringForType(m.typ) + (Pad(trail) + ([DOT] + c)))
    ensures HeaderText(BEGIN + [SPACE] + (if brand == [] then tail else brand + ([SPACE] + tail)), m, trail, c)
  {
    hide GetStringForType, BodyRun, Join, FrameWords, AllAlnum;
    HeaderTextIs(m.typ, m.brand, Pad(trail) + ([DOT] + c));
  }

  lemma RunIsAlnum(s: bytes)
    requires AlnumRun(s) > 0
    ensures AllAlnum(s[..AlnumRun(s)]) && s[..AlnumRun(s)] != []
  {
  }

  /** What is not taken for something else is a whole header, or the words of one, cut. */
  lemma NothingElse(s: bytes, inner: bytes -> Inner)
    requires Classify(s, inner) != NotSaltpack && (s != [] ==> s[|s| - 1] != SPACE)
    ensures (exists m, trail, c :: HeaderText(s, m, trail, c)) || (exists ws :: CutWords(s, ws))
  {
    hide MatchHeader, MatchWords, HeaderText, ClassifyBody, ClassifyWords, Join, CutHeader, AllAlnum;
    if MatchHeader(s).Present? {
      var trail, c := MatchedHeader(s);
    } else {
      var ws := MatchedWords(s, 5);
      WordsAnswer(ws, inner);
      assert CutWords(s, ws);
    }
  }

  ghost predicate CutWords(s: bytes, ws: seq<bytes>) {
    s == Join(ws) && CutHeader(ws) && forall i :: 0 <= i < |ws| ==> AllAlnum(ws[i])
  }

  /** Without a blank at the end, the answer is that of the body if the text begins with a whole header,
      Short if it is the words of one, cut, and NotSaltpack for every other text. */
  lemma ClassifyIff(s: bytes, inner: bytes -> Inner)
    requires s != [] ==> s[|s| - 1] != SPACE
    ensures forall m, trail, c :: HeaderText(s, m, trail, c) ==> Classify(s, inner) == ClassifyBody(m, inner)
    ensures forall ws :: CutWords(s, ws) ==> Classify(s, inner) == Short
    ensures (forall m, trail, c :: !HeaderText(s, m, trail, c)) && (forall ws :: !CutWords(s, ws)) ==>
      Classify(s, inner) == NotSaltpack
  {
    hide MatchHeader, ClassifyBody, Join, CutHeader, AllAlnum, FrameWords, Classify, BodyRun;
    forall m, trail, c | HeaderText(s, m, trail, c) ensures Classify(s, inner) == ClassifyBody(m, inner) {
      HeaderMatches(m.typ, m.brand, trail, c);
      ClassifyMatched(s, inner);
    }
    forall ws | CutWords(s, ws) ensures Classify(s, inner) == Short {
      WordsAnswer(ws, inner);
    }
    if Classify(s, inner) != NotSaltpack {
      NothingElse(s, inner);
    }
  }

  lemma ClassifyMatched(s: bytes, inner: bytes -> Inner)
    ensures MatchHeader(s).Present? ==> Classify(s, inner) == ClassifyBody(MatchHeader(s).value, inner)
  {
  }

  lemma NotFormatName(typ: MessageType, x: bytes)
    requires typ != Signcryption
    ensures MatchTail(GetStringForType(typ) + x, SALTPACK).Absent?
  {
    assert (GetStringForType(typ) + x)[1] != SALTPACK[1];
  }

  lemma HeaderTextIs(typ: MessageType, brand: bytes, x: bytes)
    requires typ != Signcryption
    ensures var tail := SALTPACK + [SPACE] + (GetStringForType(typ) + x);
      Join(FrameWords(BEGIN, typ, brand)) + x
        == BEGIN + [SPACE] + (if brand == [] then tail else brand + ([SPACE] + tail))
  {
    hide Join, GetStringForType;
    MakeFrameJoins(BEGIN, typ, brand);
    TypeStringNonEmpty(typ);
    var sffx := GetStringForType(typ);
    JoinThree(SALTPACK, sffx);
    if brand == [] {
      JoinFirst(BEGIN, [SALTPACK, sffx]);
      assert [BEGIN] + [] + [SALTPACK] + [sffx] == [BEGIN] + [SALTPACK, sffx];
    } else {
      JoinFirst(brand, [SALTPACK, sffx]);
      JoinFirst(BEGIN, [brand] + [SALTPACK, sffx]);
      assert [BEGIN] + [brand] + [SALTPACK] + [sffx] == [BEGIN] + ([brand] + [SALTPACK, sffx]);
    }
  }

  lemma JoinFirst(w: bytes, words: seq<bytes>)
    requires words != []
    ensures Join([w] + words) == w + [SPACE] + Join(words)
  {
    assert ([w] + words)[1..] == words;
  }

  lemma JoinThree(a: bytes, b: bytes)
    ensures Join([a, b]) == a + [SPACE] + b
  {
    assert [a, b][1..] == [b];
  }

  /** A header, its dot and the beginning of a body, as they are after trimming. */
  lemma TrimmedText(h: bytes, words: seq<bytes>, r: bytes) returns (trail: bool)
    requires words != [] && AllWords(words) && IsReflow(h, words)
    ensures TrimSpace(Collapse(h + ([DOT] + r), false)) == Join(words) + (Pad(trail) + ([DOT] + Squeezed(r)))
  {
    hide Join, IsReflow, AllWords, Pad, Collapse, TrimSpace;
    var lead;
    lead, trail := CollapseReflow(h, words, false);
    SplitJoin(words);
    CollapseAppend(h, [DOT] + r, false);
    CollapseDot(r);
    TrimText(lead, Join(words), trail, Collapse(r, false));
  }

  lemma CollapseDot(r: bytes)
    ensures Collapse([DOT] + r, false) == [DOT] + Collapse(r, false)
  {
    assert ([DOT] + r)[1..] == r;
  }

  lemma TrimText(lead: bool, j: bytes, trail: bool, c: bytes)
    requires j != [] && !IsSpace(j[0])
    ensures TrimSpace(Pad(lead) + j + Pad(trail) + ([DOT] + c)) == j + (Pad(trail) + ([DOT] + TrimRight(c)))
  {
    hide Pad, TrimRight, TrimLeft, IsSpace;
    var x := j + Pad(trail) + [DOT];
    assert Pad(lead) + j + Pad(trail) + ([DOT] + c) == Pad(lead) + (x + c);
    assert (x + c)[0] == j[0] && x[|x| - 1] == DOT;
    DotIsNoSpace();
    TrimLeftPad(lead, x + c);
    TrimRightAppend(x, c);
    assert x + TrimRight(c) == j + (Pad(trail) + ([DOT] + TrimRight(c)));
  }

  lemma DotIsNoSpace()
    ensures !IsSpace(DOT)
  {
  }

  /** How much of a block was cut decides how much is decoded. */
  lemma ShortBlock(s: bytes)
    requires |s| < 43
    ensures |DecodeLetters(Base62(), s).data| < 32
    ensures DecodeLetters(Base62(), s).err == None || DecodeLetters(Base62(), s).err == InvalidLength
  {
    hide Base62, DecodeBlock, Pow, IsValidEncodingLength;
    Base62BlockLen();
    Base62Sizes();
    if s != [] {
      DecodedLenShort(Base62(), |s|);
      BlockBytesMonotone(62, |s|, 42);
      PowersOf62And256();
      if BlockBytes(62, 42) >= 32 {
        PowMonotone(256, 32, BlockBytes(62, 42));
      }
    }
  }

  lemma Base62Sizes()
    ensures Base(Base62()) == 62 && Base62().base256BlockLen == 32
  {
  }

  lemma WholeBlock(s: bytes)
    requires |s| >= 43
    ensures |DecodeLetters(Base62(), s).data| >= 32
  {
    hide Base62, DecodeBlock;
    Base62BlockLen();
    Base62Sizes();
  }

  /** What a body says once its header matched, whatever of it was read: with fewer than 43 characters more
      is needed, with 43 or more the decoded bytes decide. */
  lemma BodyAnswer(m: Match, inner: bytes -> Inner)
    requires m.typ != Signcryption && forall i :: 0 <= i < |m.body| ==> IsAlphanumeric(m.body[i]) || m.body[i] == SPACE
    ensures var s := Strip(Base62(), m.body);
      var g, d := ClassifyBody(m, inner), DecodeLetters(Base62(), s).data;
      && (|s| < 43 ==> g == Short)
      && (|s| >= 43 ==>
            && |d| >= 32 && (g == Short <==> inner(d) == InnerShort)
            && (g.Armored? <==> inner(d).Inner? && Carries(m.typ, inner(d).typ))
            && (g.Armored? ==> g == Armored(m.brand, inner(d).typ, inner(d).version))
            && (g == NotSaltpack <==> inner(d) == NotInner || (inner(d).Inner? && !Carries(m.typ, inner(d).typ))))
  {
    hide DecodeLetters, Strip, FirstBad, Base62;
    var s := Strip(Base62(), m.body);
    forall i | 0 <= i < |m.body| ensures IsValidByte(Base62(), m.body[i]) {
      Base62Letters(m.body[i]);
      SpaceValid();
    }
    FirstBadUnique(Base62(), m.body, |m.body|);
    if |s| < 43 {
      ShortBlock(s);
    } else {
      WholeBlock(s);
    }
  }

  /** A header followed by the beginning of a body: with fewer than 43 characters of it more is needed,
      however it was reflowed; with 43 or more the decoded bytes decide: they may be too short, or no
      message, or a message of another type than the header's, or one of its type. */
  lemma BodyPrefixIsShort(h: bytes, typ: MessageType, brand: bytes, r: bytes, inner: bytes -> Inner)
    requires GoodBrand(brand) && typ != Signcryption && IsReflow(h, FrameWords(BEGIN, typ, brand)) && InBody(r)
    ensures var g, d := IsSaltpackArmoredPrefix(h + ([DOT] + r), inner), DecodeLetters(Base62(), Strip(Base62(), r)).data;
      && (|Strip(Base62(), r)| < 43 ==> g == Short)
      && (|Strip(Base62(), r)| >= 43 ==>
            && |d| >= 32 && (g == Short <==> inner(d) == InnerShort)
            && (g.Armored? <==> inner(d).Inner? && Carries(typ, inner(d).typ))
            && (g.Armored? ==> g == Armored(brand, inner(d).typ, inner(d).version))
            && (g == NotSaltpack <==> inner(d) == NotInner || (inner(d).Inner? && !Carries(typ, inner(d).typ))))
  {
    hide IsReflow, MatchHeader, Join, FrameWords, DecodeLetters, Strip, FirstBad, Base62, Squeezed, BodyRun;
    FrameWordsAreWords(BEGIN, typ, brand);
    FrameWordsSome(typ, brand);
    var trail := TrimmedText(h, FrameWords(BEGIN, typ, brand), r);
    SqueezedBody(r);
    HeaderMatches(typ, brand, trail, Squeezed(r));
    BodyAnswer(Match(brand, typ, Squeezed(r)), inner);
  }

  lemma FrameWordsSome(typ: MessageType, brand: bytes)
    ensures FrameWords(BEGIN, typ, brand) != []
  {
  }

  lemma ValidInBody(r: bytes)
    requires forall i :: 0 <= i < |r| ==> IsValidByte(Base62(), r[i])
    ensures InBody(r)
  {
    forall i | 0 <= i < |r| ensures IsAlphanumeric(r[i]) || IsGap(r[i]) {
      Base62Letters(r[i]);
      SkippedIsGap(r[i]);
    }
  }

  lemma SkippedIsGap(b: byte)
    ensures b in Base62().skip <==> IsGap(b)
  {
  }

  lemma TextCut(a: Pieces, cut: nat)
    requires cut <= |a.header| + 1 + |a.body|
    ensures cut <= |a.Text(DOT)|
    ensures a.Text(DOT)[..cut] ==
      if cut <= |a.header| then a.header[..cut] else a.header + ([DOT] + a.body[..cut - |a.header| - 1])
  {
  }

  /** Prefix classification: cut anywhere before the 43rd character of its body, any reflow of an armored
      message is taken for the beginning of one, never for something else. */
  lemma ArmoredPrefixIsShort(a: Pieces, typ: MessageType, brand: bytes, plaintext: bytes, cut: nat, inner: bytes -> Inner)
    requires GoodBrand(brand) && typ != Signcryption && a.AreArmor(Armor62Params(), typ, brand, plaintext)
    requires cut <= |a.header| + 1 + |a.body|
    requires cut > |a.header| ==> |Strip(Base62(), a.body[..cut - |a.header| - 1])| < 43
    ensures IsSaltpackArmoredPrefix(a.Text(DOT)[..cut], inner) == Short
  {
    hide IsReflow, IsSaltpackArmoredPrefix, Strip, Base62, Pieces.Text;
    assert a.header in [a.header, a.body, a.footer, a.trailer] && a.body in [a.header, a.body, a.footer, a.trailer];
    TextCut(a, cut);
    if cut <= |a.header| {
      HeaderPrefixIsShort(a.header, typ, brand, cut, inner);
    } else {
      var r := a.body[..cut - |a.header| - 1];
      ValidInBody(r);
      BodyPrefixIsShort(a.header, typ, brand, r, inner);
    }
  }
}
