/** The words around an armored message (frame.go): making a header or a footer, and parsing one
    whatever whitespace and quoting marks it was reflowed with. */
module Frame {
  import opened Bytes

  datatype MessageType = Encryption | AttachedSignature | DetachedSignature | Signcryption

  // ASCII: BEGIN, END, SALTPACK, and the words of the message types.
  const BEGIN: bytes := [66, 69, 71, 73, 78]
  const END: bytes := [69, 78, 68]
  const SALTPACK: bytes := [83, 65, 76, 84, 80, 65, 67, 75]
  const ENCRYPTED: bytes := [69, 78, 67, 82, 89, 80, 84, 69, 68]
  const SIGNED: bytes := [83, 73, 71, 78, 69, 68]
  const MESSAGE: bytes := [77, 69, 83, 83, 65, 71, 69]
  const DETACHED: bytes := [68, 69, 84, 65, 67, 72, 69, 68]
  const SIGNATURE: bytes := [83, 73, 71, 78, 65, 84, 85, 82, 69]

  const MAX_FRAME_LENGTH := 512
  const MAX_BRAND_LENGTH := 128

  /** The class [>\n\r\t ] of the regular expressions. */
  predicate IsGap(b: byte) {
    b == 62 || b == 10 || b == 13 || b == 9 || b == SPACE
  }

  /** What strings.TrimSpace trims, among ASCII characters. */
  predicate IsSpace(b: byte) {
    9 <= b <= 13 || b == SPACE
  }

  predicate IsAlphanumeric(b: byte) {
    48 <= b <= 57 || 65 <= b <= 90 || 97 <= b <= 122
  }

  /** A non-empty word with no byte that separates or trims. */
  predicate IsWord(w: bytes) {
    w != [] && forall i :: 0 <= i < |w| ==> !IsGap(w[i]) && !IsSpace(w[i])
  }

  // ---- strings ----

  function Join(words: seq<bytes>): bytes {
    if words == [] then []
    else if |words| == 1 then words[0]
    else words[0] + [SPACE] + Join(words[1..])
  }

  /** strings.Split at single spaces. */
  function SplitWords(s: bytes): (r: seq<bytes>)
    ensures r != []
  {
    var i := IndexOf(s, SPACE);
    if i == |s| then [s] else [s[..i]] + SplitWords(s[i + 1..])
  }

  function TrimLeft(s: bytes): (r: bytes)
    ensures |r| <= |s|
  {
    if s != [] && IsSpace(s[0]) then TrimLeft(s[1..]) else s
  }

  function TrimRight(s: bytes): (r: bytes)
    ensures |r| <= |s|
  {
    if s != [] && IsSpace(s[|s| - 1]) then TrimRight(s[..|s| - 1]) else s
  }

  function TrimSpace(s: bytes): (r: bytes)
    ensures |r| <= |s|
  {
    TrimRight(TrimLeft(s))
  }

  /** Every run of gap bytes becomes one space; `inGap` says that a run has begun. */
  function Collapse(s: bytes, inGap: bool): bytes {
    if s == [] then []
    else if IsGap(s[0]) then (if inGap then [] else [SPACE]) + Collapse(s[1..], true)
    else [s[0]] + Collapse(s[1..], false)
  }

  /** The words of a text, as parseFrame and IsSaltpackArmoredPrefix see them. */
  function Words(s: bytes): seq<bytes> {
    SplitWords(TrimSpace(Collapse(s, false)))
  }

  // ---- frames ----

  function TypeWords(typ: MessageType): seq<bytes> {
    match typ
    case Encryption => [ENCRYPTED, MESSAGE]
    case AttachedSignature => [SIGNED, MESSAGE]
    case DetachedSignature => [DETACHED, SIGNATURE]
    case Signcryption => []
  }

  function GetStringForType(typ: MessageType): bytes {
    Join(TypeWords(typ))
  }

  function FrameWords(which: bytes, typ: MessageType, brand: bytes): seq<bytes> {
    [which] + (if brand == [] then [] else [brand]) + [SALTPACK] + TypeWords(typ)
  }

  function MakeFrame(which: bytes, typ: MessageType, brand: bytes): bytes {
    var sffx := GetStringForType(typ);
    if sffx == [] then sffx
    else Join([which] + (if brand == [] then [] else [brand]) + [SALTPACK] + [sffx])
  }

  /** The brand, or Absent for a bad frame. */
  function ParseFrame(m: bytes, typ: MessageType, which: bytes): Option<bytes> {
    if |m| > MAX_FRAME_LENGTH then Absent else ParseWords(Words(m), typ, which)
  }

  /** The words are consumed from both ends: the marker in front, the type and the format name at
      the back; what is left is the brand. */
  function ParseWords(v: seq<bytes>, typ: MessageType, which: bytes): Option<bytes> {
    var sffx := GetStringForType(typ);
    if sffx == [] || (|v| != 4 && |v| != 5) then Absent
    else if v[0] != which then Absent
    else
      var v1 := v[1..];
      if Join(v1[|v1| - 2..]) != sffx then Absent
      else
        var v2 := v1[..|v1| - 2];
        if v2[|v2| - 1] != SALTPACK then Absent
        else
          var v3 := v2[..|v2| - 1];
          if v3 == [] then Present([])
          else if |v3[0]| > MAX_BRAND_LENGTH then Absent
          else Present(v3[0])
  }

  /** CheckArmor62: header and footer both parse, with the same brand. */
  function CheckArmor62(hdr: bytes, ftr: bytes, typ: MessageType): Option<bytes> {
    var brand := ParseFrame(hdr, typ, BEGIN);
    if brand.Absent? || ParseFrame(ftr, typ, END) != brand then Absent else brand
  }

  // ---- words under reflow ----

  /** `s` is `words` with a non-empty run of gap bytes between neighbours, and any run of gap bytes
      before and after. */
  ghost predicate IsReflow(s: bytes, words: seq<bytes>)
    decreases |words|, |s|
  {
    if s != [] && IsGap(s[0]) then IsReflow(s[1..], words)
    else if words == [] then s == []
    else
      && |words[0]| <= |s| && s[..|words[0]|] == words[0]
      && (|words| > 1 ==> |words[0]| < |s|)
      && (|words[0]| < |s| ==> IsGap(s[|words[0]|]))
      && IsReflow(s[|words[0]|..], words[1..])
  }

  ghost predicate AllWords(words: seq<bytes>) {
    forall i :: 0 <= i < |words| ==> IsWord(words[i])
  }

  lemma {:induction false} SplitJoin(words: seq<bytes>)
    requires words != [] && AllWords(words)
    ensures SplitWords(Join(words)) == words
    ensures Join(words) != [] && !IsSpace(Join(words)[0]) && !IsSpace(Join(words)[|Join(words)| - 1])
  {
    var w := words[0];
    assert IsWord(w);
    if |words| == 1 {
      IndexOfUnique(w, SPACE, |w|);
    } else {
      var rest := words[1..];
      SplitJoin(rest);
      SplitFirst(w, Join(rest));
      assert words == [w] + rest;
    }
  }

  lemma SplitFirst(w: bytes, s: bytes)
    requires SPACE !in w
    ensures SplitWords(w + [SPACE] + s) == [w] + SplitWords(s)
  {
    var t := w + [SPACE] + s;
    assert t[..|w|] == w && t[|w| + 1..] == s;
    IndexOfUnique(t, SPACE, |w|);
  }

  lemma {:induction false} CollapseWord(w: bytes, rest: bytes, inGap: bool)
    requires IsWord(w)
    ensures Collapse(w + rest, inGap) == w + Collapse(rest, false)
    decreases |w|
  {
    assert (w + rest)[1..] == w[1..] + rest;
    if |w| == 1 {
      assert w[1..] + rest == rest;
    } else {
      CollapseWord(w[1..], rest, false);
      assert w == [w[0]] + w[1..];
    }
  }

  function Pad(b: bool): bytes {
    if b then [SPACE] else []
  }

  /** Collapsing a reflow joins its words by single spaces, but for one at either end. */
  lemma {:induction false} CollapseReflow(s: bytes, words: seq<bytes>, inGap: bool)
    returns (lead: bool, trail: bool)
    requires words != [] && AllWords(words) && IsReflow(s, words)
    ensures Collapse(s, inGap) == Pad(lead) + Join(words) + Pad(trail) && (inGap ==> !lead)
    decreases |words|, |s|
  {
    if s != [] && IsGap(s[0]) {
      lead, trail := CollapseReflow(s[1..], words, true);
      lead := !inGap;
      PadJoin(Join(words), Pad(trail));
      SeqAssoc(Pad(lead), Join(words), Pad(trail));
    } else {
      var w := words[0];
      assert IsWord(w);
      var rest := s[|w|..];
      assert s == w + rest;
      CollapseWord(w, rest, inGap);
      lead := false;
      if |words| == 1 {
        trail := CollapseGaps(rest, false);
        PadJoin(w, Pad(trail));
      } else {
        lead, trail := CollapseReflow(rest[1..], words[1..], true);
        PadJoin(Join(words[1..]), Pad(trail));
        assert Collapse(rest, false) == [SPACE] + (Join(words[1..]) + Pad(trail));
        Assemble(w, Join(words[1..]), Pad(trail));
      }
    }
  }

  lemma PadJoin(j: bytes, t: bytes)
    ensures Pad(false) + j + t == j + t
  {
  }

  lemma Assemble(w: bytes, j: bytes, t: bytes)
    ensures w + ([SPACE] + (j + t)) == Pad(false) + (w + [SPACE] + j) + t
  {
  }

  lemma {:induction false} CollapseGaps(s: bytes, inGap: bool) returns (trail: bool)
    requires IsReflow(s, [])
    ensures Collapse(s, inGap) == Pad(trail) && (inGap ==> !trail)
    decreases |s|
  {
    trail := false;
    if s != [] {
      trail := CollapseGaps(s[1..], true);
      trail := !inGap;
    }
  }

  lemma TrimEnds(lead: bool, s: bytes, trail: bool)
    requires s != [] && !IsSpace(s[0]) && !IsSpace(s[|s| - 1])
    ensures TrimSpace(Pad(lead) + s + Pad(trail)) == s
  {
    var t := s + Pad(trail);
    assert Pad(lead) + s + Pad(trail) == Pad(lead) + t;
    assert TrimLeft(Pad(lead) + t) == t by {
      assert t[0] == s[0];
      assert lead ==> (Pad(lead) + t)[1..] == t;
      assert !lead ==> Pad(lead) + t == t;
    }
    assert TrimRight(s) == s;
    if trail {
      assert t[..|t| - 1] == s && t[|t| - 1] == SPACE;
      assert TrimRight(t) == TrimRight(s);
    } else {
      assert t == s;
    }
  }

  /** What strings.TrimSpace takes away: all blanks at both ends, and nothing else. */
  lemma TrimSpaceIs(s: bytes) returns (lead: bytes, trail: bytes)
    ensures s == lead + TrimSpace(s) + trail && forall b :: b in lead + trail ==> b in {9, 10, 11, 12, 13, 32}
    ensures var t := TrimSpace(s);
      t != [] ==> t[0] !in {9, 10, 11, 12, 13, 32} && t[|t| - 1] !in {9, 10, 11, 12, 13, 32}
  {
    hide TrimLeft, TrimRight;
    lead := TrimmedLeft(s);
    trail := TrimmedRight(TrimLeft(s));
    assert s == lead + (TrimSpace(s) + trail);
    assert TrimSpace(s) != [] ==> TrimSpace(s)[0] == TrimLeft(s)[0];
  }

  lemma {:induction false} TrimmedLeft(s: bytes) returns (lead: bytes)
    ensures s == lead + TrimLeft(s) && forall b :: b in lead ==> b in {9, 10, 11, 12, 13, 32}
    ensures TrimLeft(s) != [] ==> TrimLeft(s)[0] !in {9, 10, 11, 12, 13, 32}
  {
    lead := [];
    if s != [] && IsSpace(s[0]) {
      lead := TrimmedLeft(s[1..]);
      lead := [s[0]] + lead;
    }
  }

  lemma {:induction false} TrimmedRight(s: bytes) returns (trail: bytes)
    ensures s == TrimRight(s) + trail && forall b :: b in trail ==> b in {9, 10, 11, 12, 13, 32}
    ensures TrimRight(s) != [] ==> TrimRight(s)[|TrimRight(s)| - 1] !in {9, 10, 11, 12, 13, 32}
    decreases |s|
  {
    trail := [];
    if s != [] && IsSpace(s[|s| - 1]) {
      trail := TrimmedRight(s[..|s| - 1]);
      trail := trail + [s[|s| - 1]];
    }
  }

  /** However a text is reflowed, its words are seen unchanged. */
  lemma WordsOfReflow(s: bytes, words: seq<bytes>)
    requires words != [] && AllWords(words) && IsReflow(s, words)
    ensures Words(s) == words
  {
    var lead, trail := CollapseReflow(s, words, false);
    SplitJoin(words);
    TrimEnds(lead, Join(words), trail);
  }

  // ---- parsing ----

  lemma {:induction false} SplitHasNoSpaces(s: bytes)
    ensures forall i :: 0 <= i < |SplitWords(s)| ==> SPACE !in SplitWords(s)[i]
    ensures Join(SplitWords(s)) == s
    decreases |s|
  {
    var i := IndexOf(s, SPACE);
    if i == |s| {
      assert s[..i] == s;
    } else {
      SplitHasNoSpaces(s[i + 1..]);
      assert s == s[..i] + [SPACE] + s[i + 1..];
    }
  }

  lemma JoinTwo(a: bytes, b: bytes, x: bytes, y: bytes)
    requires SPACE !in a && SPACE !in x
    ensures Join([a, b]) == Join([x, y]) <==> a == x && b == y
  {
    var s, t := a + [SPACE] + b, x + [SPACE] + y;
    assert Join([a, b]) == s && Join([x, y]) == t by {
      assert [a, b][1..] == [b] && [x, y][1..] == [y];
    }
    assert s[..|a|] == a && s[|a| + 1..] == b && t[..|x|] == x && t[|x| + 1..] == y;
    IndexOfUnique(s, SPACE, |a|);
    IndexOfUnique(t, SPACE, |x|);
  }

  lemma LiteralsAreWords()
    ensures IsWord(BEGIN) && IsWord(END) && IsWord(SALTPACK) && IsWord(ENCRYPTED) && IsWord(MESSAGE)
    ensures IsWord(SIGNED) && IsWord(DETACHED) && IsWord(SIGNATURE)
  {
  }

  ghost predicate NoDoubleSpace(s: bytes) {
    forall i :: 0 <= i < |s| - 1 ==> !(s[i] == SPACE && s[i + 1] == SPACE)
  }

  lemma {:induction false} CollapseNoDouble(s: bytes, inGap: bool)
    ensures NoDoubleSpace(Collapse(s, inGap))
    ensures inGap && Collapse(s, inGap) != [] ==> Collapse(s, inGap)[0] != SPACE
  {
    if s != [] {
      CollapseNoDouble(s[1..], IsGap(s[0]));
    }
  }

  lemma {:induction false} TrimNoDouble(s: bytes)
    requires NoDoubleSpace(s)
    ensures NoDoubleSpace(TrimLeft(s)) && NoDoubleSpace(TrimRight(s))
    decreases |s|
  {
    if s != [] {
      TrimNoDouble(s[1..]);
      TrimNoDouble(s[..|s| - 1]);
    }
  }

  /** Without double spaces only the first and the last word can be empty. */
  lemma {:induction false} MiddleWords(s: bytes)
    requires NoDoubleSpace(s)
    ensures forall j :: 0 <= j < |SplitWords(s)| - 1 && (j > 0 || (s != [] && s[0] != SPACE))
              ==> SplitWords(s)[j] != []
    decreases |s|
  {
    var i := IndexOf(s, SPACE);
    if i < |s| {
      var rest := s[i + 1..];
      MiddleWords(rest);
      assert rest != [] ==> s[i + 1] == rest[0];
    }
  }

  lemma ParseWordsIff(v: seq<bytes>, typ: MessageType, which: bytes, brand: bytes)
    requires forall i :: 0 <= i < |v| ==> SPACE !in v[i]
    requires |v| == 5 ==> v[1] != []
    ensures ParseWords(v, typ, which) == Present(brand)
       <==> typ != Signcryption && |brand| <= MAX_BRAND_LENGTH && v == FrameWords(which, typ, brand)
  {
    LiteralsAreWords();
    TypeStringNonEmpty(typ);
    hide IsWord, Join;
    if typ != Signcryption && (|v| == 4 || |v| == 5) {
      var t, n := TypeWords(typ), |v|;
      JoinTwo(v[n - 2], v[n - 1], t[0], t[1]);
      assert v[1..][n - 3..] == [v[n - 2], v[n - 1]] && t == [t[0], t[1]];
      if n == 4 {
        assert v[..2] == [v[0], v[1]] && v == v[..2] + [v[2], v[3]];
        assert FrameWords(which, typ, []) == [which, SALTPACK] + t;
      } else {
        assert v[..3] == [v[0], v[1], v[2]] && v == v[..3] + [v[3], v[4]];
        assert FrameWords(which, typ, v[1]) == [which, v[1], SALTPACK] + t;
      }
    }
  }

  lemma TypeStringNonEmpty(typ: MessageType)
    ensures GetStringForType(typ) == [] <==> typ == Signcryption
  {
  }

  /** Parsing inverts making: a text parses to a brand exactly when it is within the length limits
      and its words are those of the frame with that brand. */
  lemma ParseFrameIff(m: bytes, typ: MessageType, which: bytes, brand: bytes)
    ensures ParseFrame(m, typ, which) == Present(brand)
       <==> typ != Signcryption && |m| <= MAX_FRAME_LENGTH && |brand| <= MAX_BRAND_LENGTH
            && Words(m) == FrameWords(which, typ, brand)
  {
    CollapseNoDouble(m, false);
    TrimNoDouble(Collapse(m, false));
    TrimNoDouble(TrimLeft(Collapse(m, false)));
    MiddleWords(TrimSpace(Collapse(m, false)));
    SplitHasNoSpaces(TrimSpace(Collapse(m, false)));
    ParseWordsIff(Words(m), typ, which, brand);
  }

  // ---- making and parsing ----

  /** A brand that an armored message can carry: empty, or 1 to 128 alphanumerics. */
  ghost predicate GoodBrand(brand: bytes) {
    |brand| <= MAX_BRAND_LENGTH && forall i :: 0 <= i < |brand| ==> IsAlphanumeric(brand[i])
  }

  lemma FrameWordsAreWords(which: bytes, typ: MessageType, brand: bytes)
    requires which in [BEGIN, END] && GoodBrand(brand)
    ensures AllWords(FrameWords(which, typ, brand))
  {
    LiteralsAreWords();
    hide IsWord;
    if brand != [] {
      BrandIsWord(brand);
    }
  }

  lemma BrandIsWord(brand: bytes)
    requires GoodBrand(brand) && brand != []
    ensures IsWord(brand)
  {
  }

  lemma {:induction false} JoinIsReflow(words: seq<bytes>)
    requires words != [] && AllWords(words)
    ensures IsReflow(Join(words), words)
  {
    var w, s := words[0], Join(words);
    assert IsWord(w);
    if |words| > 1 {
      JoinIsReflow(words[1..]);
      assert s[..|w|] == w && s[|w|..] == [SPACE] + Join(words[1..]);
      assert s[|w|..][1..] == Join(words[1..]);
    } else {
      assert s[|w|..] == [];
    }
  }

  lemma {:induction false} JoinFlatten(words: seq<bytes>, a: bytes, b: bytes)
    ensures Join(words + [Join([a, b])]) == Join(words + [a, b])
  {
    if words == [] {
      assert words + [Join([a, b])] == [Join([a, b])] && words + [a, b] == [a, b];
    } else {
      JoinFlatten(words[1..], a, b);
      assert (words + [Join([a, b])])[1..] == words[1..] + [Join([a, b])];
      assert (words + [a, b])[1..] == words[1..] + [a, b];
    }
  }

  lemma MakeFrameJoins(which: bytes, typ: MessageType, brand: bytes)
    requires typ != Signcryption
    ensures MakeFrame(which, typ, brand) == Join(FrameWords(which, typ, brand))
  {
    TypeStringNonEmpty(typ);
    var front := [which] + (if brand == [] then [] else [brand]) + [SALTPACK];
    var t := TypeWords(typ);
    assert t == [t[0], t[1]];
    JoinFlatten(front, t[0], t[1]);
  }

  lemma FrameLength(which: bytes, typ: MessageType, brand: bytes)
    requires which in [BEGIN, END] && GoodBrand(brand) && typ != Signcryption
    ensures |MakeFrame(which, typ, brand)| <= 165
  {
    MakeFrameJoins(which, typ, brand);
    var t := TypeWords(typ);
    var tail := [SALTPACK, t[0], t[1]];
    assert Join(tail) == SALTPACK + [SPACE] + (t[0] + [SPACE] + t[1]) by {
      assert tail[1..] == [t[0], t[1]] && [t[0], t[1]][1..] == [t[1]];
    }
    assert FrameWords(which, typ, brand) == [which] + (if brand == [] then tail else [brand] + tail);
    assert ([which] + tail)[1..] == tail && ([brand] + tail)[1..] == tail;
    assert ([which] + ([brand] + tail))[1..] == [brand] + tail;
  }

  /** The frame round trip: a made frame, reflowed in any way that keeps it within the length limit,
      parses to the brand it was made with. */
  lemma FrameRoundTrip(which: bytes, typ: MessageType, brand: bytes, m: bytes)
    requires which in [BEGIN, END] && GoodBrand(brand) && typ != Signcryption
    requires IsReflow(m, FrameWords(which, typ, brand)) && |m| <= MAX_FRAME_LENGTH
    ensures ParseFrame(m, typ, which) == Present(brand)
  {
    FrameWordsAreWords(which, typ, brand);
    WordsOfReflow(m, FrameWords(which, typ, brand));
    ParseFrameIff(m, typ, which, brand);
  }

  lemma MadeFrameIsReflow(which: bytes, typ: MessageType, brand: bytes)
    requires which in [BEGIN, END] && GoodBrand(brand) && typ != Signcryption
    ensures IsReflow(MakeFrame(which, typ, brand), FrameWords(which, typ, brand))
    ensures |MakeFrame(which, typ, brand)| <= MAX_FRAME_LENGTH
  {
    FrameWordsAreWords(which, typ, brand);
    JoinIsReflow(FrameWords(which, typ, brand));
    MakeFrameJoins(which, typ, brand);
    FrameLength(which, typ, brand);
  }
}
