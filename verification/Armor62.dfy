/** The armor round trip (armor62.go): what was sealed under a frame opens again to the same bytes and
    brand, also after being reflowed. */
module Armor62 {
  import opened Bytes
  import opened Radix
  import opened BasexLengths
  import opened BasexEncoding
  import opened BasexCodec
  import opened Punctuated
  import opened Frame
  import opened Framed
  import opened ArmorOpen
  import Armor

  /** The frame checks that the Dearmor62 functions make for messages of one type. */
  function Checked(params: ArmorParams, typ: MessageType): Rules {
    Rules(params, Present(h => ParseFrame(h, typ, BEGIN)), Present((h, f) => CheckArmor62(h, f, typ)))
  }

  /** The four pieces of an armored text that may have been reflowed: a frame's words within the
      length limit, the characters of the encoded body, and nothing but skipped bytes after it. */
  datatype Pieces = Pieces(header: bytes, body: bytes, footer: bytes, trailer: bytes) {

    function Text(punctuation: byte): bytes {
      header + [punctuation] + (body + [punctuation] + (footer + [punctuation] + trailer))
    }

    ghost predicate AreArmor(params: ArmorParams, typ: MessageType, brand: bytes, plaintext: bytes) {
      && IsFrame(header, typ, BEGIN, brand) && IsFrame(footer, typ, END, brand)
      && Strip(params.encoding, body) == EncodeText(params.encoding, plaintext)
      && (forall s :: s in [header, body, footer, trailer] ==>
            Checked(params, typ).AllValid(s) && params.punctuation !in s)
    }
  }

  ghost predicate IsFrame(s: bytes, typ: MessageType, which: bytes, brand: bytes) {
    |s| < FRAME_LIM && |TrimSpace(s)| <= MAX_FRAME_LENGTH && IsReflow(s, FrameWords(which, typ, brand))
  }

  // ---- the segments ----

  lemma SegmentsOf(a: bytes, p: byte, b: bytes)
    requires p !in a
    ensures var t := a + [p] + b; HasNext(t, p) && First(t, p) == a && After(t, p) == b
  {
    var t := a + [p] + b;
    assert t[..|a|] == a && t[|a| + 1..] == b;
    IndexOfUnique(t, p, |a|);
  }

  // ---- trimming a reflow ----

  lemma {:induction false} TrimLeftReflow(s: bytes, words: seq<bytes>)
    requires words != [] && AllWords(words) && IsReflow(s, words)
    ensures IsReflow(TrimLeft(s), words)
  {
    if s != [] && IsSpace(s[0]) {
      assert IsWord(words[0]);
      if |words[0]| <= |s| {
        assert s[..|words[0]|][0] == s[0];
      }
      TrimLeftReflow(s[1..], words);
    }
  }

  lemma {:induction false} DropLast(s: bytes, words: seq<bytes>)
    requires AllWords(words) && IsReflow(s, words) && s != [] && IsSpace(s[|s| - 1])
    ensures IsReflow(s[..|s| - 1], words)
    decreases |words|, |s|
  {
    var t := s[..|s| - 1];
    if IsGap(s[0]) {
      if |s| > 1 {
        assert s[1..][..|s| - 2] == t[1..];
        DropLast(s[1..], words);
      }
    } else {
      var w := words[0];
      assert IsWord(w);
      var r := s[|w|..];
      assert s == w + r;
      assert w[|w| - 1] == s[|w| - 1];
      assert |w| < |s| && r[|r| - 1] == s[|s| - 1];
      DropLast(r, words[1..]);
      assert t[|w|..] == r[..|r| - 1] && t[..|w|] == w;
      if r[..|r| - 1] == [] {
        ShortReflow(words[1..]);
      }
    }
  }

  lemma ShortReflow(words: seq<bytes>)
    requires AllWords(words) && IsReflow([], words)
    ensures words == []
  {
    assert words != [] ==> IsWord(words[0]);
  }

  lemma {:induction false} TrimRightReflow(s: bytes, words: seq<bytes>)
    requires AllWords(words) && IsReflow(s, words)
    ensures IsReflow(TrimRight(s), words)
    decreases |s|
  {
    if s != [] && IsSpace(s[|s| - 1]) {
      DropLast(s, words);
      TrimRightReflow(s[..|s| - 1], words);
    }
  }

  /** A reflowed frame, as GetHeader and GetFooter trim it, parses to the brand. */
  lemma FrameParses(s: bytes, typ: MessageType, which: bytes, brand: bytes)
    requires which in [BEGIN, END] && GoodBrand(brand) && typ != Signcryption && IsFrame(s, typ, which, brand)
    ensures ParseFrame(TrimSpace(s), typ, which) == Present(brand)
  {
    hide ParseFrame, IsReflow;
    var words := FrameWords(which, typ, brand);
    FrameWordsAreWords(which, typ, brand);
    TrimLeftReflow(s, words);
    TrimRightReflow(TrimLeft(s), words);
    FrameRoundTrip(which, typ, brand, TrimSpace(s));
  }

  // ---- opening ----

  /** The segments of a text made of pieces. */
  lemma PieceSegments(a: Pieces, p: byte)
    requires p !in a.header && p !in a.body && p !in a.footer
    ensures var t := a.Text(p);
      && HeaderOf(t, p) == a.header && BodyOf(t, p) == a.body && FooterOf(t, p) == a.footer && TrailerOf(t, p) == a.trailer
      && HasNext(t, p) && HasNext(After(t, p), p) && HasNext(After(After(t, p), p), p)
  {
    hide First, After, HasNext;
    SegmentsOf(a.footer, p, a.trailer);
    SegmentsOf(a.body, p, a.footer + [p] + a.trailer);
    SegmentsOf(a.header, p, a.body + [p] + (a.footer + [p] + a.trailer));
  }

  /** Any reflow of an armored message opens to its plaintext and brand, for every split of the
      source. */
  lemma ReflowOpens(params: ArmorParams, typ: MessageType, brand: bytes, plaintext: bytes, a: Pieces)
    requires GoodBrand(brand) && typ != Signcryption && a.AreArmor(params, typ, brand, plaintext)
    ensures OpensTo(Checked(params, typ), a.Text(params.punctuation),
                    Opened(plaintext, brand, TrimSpace(a.header), TrimSpace(a.footer)), true)
  {
    hide IsReflow, ParseFrame, Strip, DecodeText, EncodeText, IndexOf, TrimLeft, TrimRight, First, After, HasNext;
    var enc, p := params.encoding, params.punctuation;
    var pieces := [a.header, a.body, a.footer, a.trailer];
    assert a.header in pieces && a.body in pieces && a.footer in pieces && a.trailer in pieces;
    FrameParses(a.header, typ, BEGIN, brand);
    FrameParses(a.footer, typ, END, brand);
    PieceSegments(a, p);
    FirstBadUnique(enc, a.body, |a.body|);
    TextRoundTrip(enc, plaintext, a.body);
  }

  /** What opens opens to one thing only. */
  lemma OpensOnce(rules: Rules, text: bytes, x: Opened, y: Opened)
    requires Says(rules, text, x) && Says(rules, text, y)
    ensures x == y
  {
    hide BodyOf, HeaderOf, FooterOf, DecodeText;
  }

  // ---- what opened armor says ----

  /** A text frames a brand: it is within the length limit, and its words are the marker, the brand if
      there is one, and the words of the message's type. */
  predicate Frames(s: bytes, typ: MessageType, which: bytes, brand: bytes) {
    && typ != Signcryption && |s| <= MAX_FRAME_LENGTH && |brand| <= MAX_BRAND_LENGTH
    && Words(s) == [which] + (if brand == [] then [] else [brand]) + [SALTPACK]
                   + (match typ
                      case Encryption => [ENCRYPTED, MESSAGE]
                      case AttachedSignature => [SIGNED, MESSAGE]
                      case _ => [DETACHED, SIGNATURE])
  }

  /** Header and footer, trimmed, frame one brand. */
  predicate FramedAlike(typ: MessageType, o: Opened) {
    Frames(o.header, typ, BEGIN, o.brand) && Frames(o.footer, typ, END, o.brand)
  }

  lemma FramesParse(s: bytes, typ: MessageType, which: bytes, brand: bytes)
    ensures Frames(s, typ, which, brand) <==> ParseFrame(s, typ, which) == Present(brand)
  {
    hide Words, ParseFrame;
    ParseFrameIff(s, typ, which, brand);
  }

  /** What the checks accept: two frames of one brand. */
  lemma ChecksMean(params: ArmorParams, typ: MessageType, header: bytes, footer: bytes, brand: bytes)
    ensures var rules := Checked(params, typ);
      rules.HeaderBrand(header) == Present(brand) && rules.FrameAccepted(header, footer)
      <==> rules.AllValid(header) && rules.AllValid(footer)
           && Frames(TrimSpace(header), typ, BEGIN, brand) && Frames(TrimSpace(footer), typ, END, brand)
  {
    hide ParseFrame, TrimSpace, Rules.AllValid, Frames;
    FramesParse(TrimSpace(header), typ, BEGIN, brand);
    FramesParse(TrimSpace(footer), typ, END, brand);
  }

  /** The texts that checked armor must open, and to what: within the limits, nothing wrong in either frame
      or behind the footer, a body that decodes, and two frames of one brand. */
  ghost predicate IsChecked(params: ArmorParams, typ: MessageType, text: bytes, o: Opened) {
    var p, rules := params.punctuation, Checked(params, typ);
    var header, footer := HeaderOf(text, p), FooterOf(text, p);
    && HasNext(text, p) && HasNext(After(text, p), p) && HasNext(After(After(text, p), p), p)
    && |header| < FRAME_LIM && |footer| < FRAME_LIM && rules.AllValid(header) && rules.AllValid(footer)
    && o.header == TrimSpace(header) && o.footer == TrimSpace(footer) && FramedAlike(typ, o)
    && DecodeText(params.encoding, BodyOf(text, p)) == Decoded(o.body, None)
    && rules.TrailerOk(TrailerOf(text, p), EOF)
  }

  /** What any split opens has a header and a footer of one brand, its own. */
  lemma OpenedFrames(params: ArmorParams, typ: MessageType, text: bytes, o: Opened, strict: bool)
    requires OpensTo(Checked(params, typ), text, o, strict)
    ensures FramedAlike(typ, o)
  {
    hide DecodeText, First, After, HasNext, Frames, Rules.HeaderBrand, Rules.FrameAccepted, Rules.AllValid, TrimSpace;
    hide Rules.TrailerOk, Rules.OneFault, Slippery;
    var p := params.punctuation;
    ChecksMean(params, typ, HeaderOf(text, p), FooterOf(text, p), o.brand);
  }

  /** What every split opens are exactly these texts. */
  lemma MustOpenIff(params: ArmorParams, typ: MessageType, text: bytes, o: Opened)
    ensures OpensTo(Checked(params, typ), text, o, true) <==> IsChecked(params, typ, text, o)
  {
    hide DecodeText, First, After, HasNext, Frames, Rules.HeaderBrand, Rules.FrameAccepted, Rules.AllValid, TrimSpace;
    hide Rules.TrailerOk;
    var p := params.punctuation;
    ChecksMean(params, typ, HeaderOf(text, p), FooterOf(text, p), o.brand);
  }

  /** Opening armor with the checks for messages of one type, for every split of the source: what opens is
      framed alike on both sides, and what is well framed opens. */
  method OpenChecked(text: bytes, typ: MessageType, params: ArmorParams) returns (o: Option<Opened>)
    ensures o.Present? ==> FramedAlike(typ, o.value)
    ensures forall x :: IsChecked(params, typ, text, x) ==> o == Present(x)
  {
    hide OpensTo, IsChecked, FramedAlike;
    var rules := Checked(params, typ);
    o := Open(text, rules);
    if o.Present? {
      OpenedFrames(params, typ, text, o.value, false);
    }
    forall x | IsChecked(params, typ, text, x) ensures o == Present(x) {
      MustOpenIff(params, typ, text, x);
      OpensSays(rules, text, x, true);
      if o.Present? {
        OpensSays(rules, text, o.value, false);
        OpensOnce(rules, text, x, o.value);
      }
    }
  }

  lemma OpensSays(rules: Rules, text: bytes, x: Opened, strict: bool)
    requires OpensTo(rules, text, x, strict)
    ensures Says(rules, text, x)
  {
    hide Says;
  }

  // ---- sealing ----

  /** Alphanumerics are letters, blanks and newlines are skipped, and the punctuation is rejected. */
  ghost predicate CarriesFrames(params: Armor.Params) {
    && Armor.Separates(params)
    && forall b: byte :: IsAlphanumeric(b) ==> b in params.encoding.alphabet
  }

  function Sealed(params: Armor.Params, typ: MessageType, brand: bytes, plaintext: bytes): bytes {
    Armor.ArmoredText(params, MakeFrame(BEGIN, typ, brand), MakeFrame(END, typ, brand),
                      EncodeText(params.encoding, plaintext))
  }

  predicate InFrame(s: bytes) {
    forall i :: 0 <= i < |s| ==> s[i] == SPACE || IsAlphanumeric(s[i])
  }

  lemma {:induction false} JoinInFrame(words: seq<bytes>)
    requires forall i :: 0 <= i < |words| ==> InFrame(words[i])
    ensures InFrame(Join(words))
  {
    if |words| > 1 {
      JoinInFrame(words[1..]);
    }
  }

  lemma MadeFrame(which: bytes, typ: MessageType, brand: bytes)
    requires which in [BEGIN, END] && GoodBrand(brand) && typ != Signcryption
    ensures var f := MakeFrame(which, typ, brand);
      && InFrame(f) && TrimSpace(f) == f && TrimSpace([SPACE] + f) == f
      && IsFrame(f, typ, which, brand) && IsFrame([SPACE] + f, typ, which, brand)
  {
    hide IsReflow, AllWords, Join, MakeFrame, FrameWords, InFrame, TrimSpace, IsFrame;
    var f, words := MakeFrame(which, typ, brand), FrameWords(which, typ, brand);
    MadeFrameIsReflow(which, typ, brand);
    FrameLength(which, typ, brand);
    FrameWordsAreWords(which, typ, brand);
    MakeFrameJoins(which, typ, brand);
    FrameWordsNotEmpty(which, typ, brand);
    SplitJoin(words);
    TrimEnds(false, f, false);
    TrimEnds(true, f, false);
    PadNothing(f);
    WordsInFrame(which, typ, brand);
    JoinInFrame(words);
    FrameEitherWay(f, typ, which, brand);
  }

  lemma FrameWordsNotEmpty(which: bytes, typ: MessageType, brand: bytes)
    ensures FrameWords(which, typ, brand) != []
  {
  }

  lemma WordsInFrame(which: bytes, typ: MessageType, brand: bytes)
    requires which in [BEGIN, END] && GoodBrand(brand)
    ensures forall w :: w in FrameWords(which, typ, brand) ==> InFrame(w)
  {
    assert InFrame(BEGIN) && InFrame(END) && InFrame(SALTPACK) && InFrame(MESSAGE) && InFrame(SIGNATURE);
    assert InFrame(ENCRYPTED) && InFrame(SIGNED) && InFrame(DETACHED) && InFrame(brand);
    hide InFrame;
  }

  lemma PadNothing(f: bytes)
    ensures Pad(false) + f + Pad(false) == f && Pad(true) + f + Pad(false) == [SPACE] + f
  {
  }

  lemma FrameEitherWay(f: bytes, typ: MessageType, which: bytes, brand: bytes)
    requires IsReflow(f, FrameWords(which, typ, brand)) && TrimSpace(f) == TrimSpace([SPACE] + f) == f
    requires |f| <= MAX_FRAME_LENGTH
    ensures IsFrame(f, typ, which, brand) && IsFrame([SPACE] + f, typ, which, brand)
  {
    assert ([SPACE] + f)[1..] == f;
  }

  /** Sealed text is armor: its pieces are its frames, its spaced body and a newline. */
  lemma SealedIsArmor(params: Armor.Params, typ: MessageType, brand: bytes, plaintext: bytes) returns (a: Pieces)
    requires CarriesFrames(params) && GoodBrand(brand) && typ != Signcryption
    ensures a.AreArmor(params, typ, brand, plaintext)
    ensures a.Text(params.punctuation) == Sealed(params, typ, brand, plaintext)
    ensures TrimSpace(a.header) == MakeFrame(BEGIN, typ, brand) && TrimSpace(a.footer) == MakeFrame(END, typ, brand)
    ensures a.header == MakeFrame(BEGIN, typ, brand) && a.footer == [SPACE] + MakeFrame(END, typ, brand)
    ensures a.body == [SPACE] + Armor.Body(params, EncodeText(params.encoding, plaintext), 0) && a.trailer == [Armor.NEWLINE]
  {
    hide MakeFrame, TrimSpace, IsFrame, EncodeText, Strip, Armor.Body;
    var enc, p := params.encoding, params.punctuation;
    var h, f, s := MakeFrame(BEGIN, typ, brand), MakeFrame(END, typ, brand), EncodeText(enc, plaintext);
    var b := Armor.Body(params, s, 0);
    a := Pieces(h, [SPACE] + b, [SPACE] + f, [Armor.NEWLINE]);
    MadeFrame(BEGIN, typ, brand);
    MadeFrame(END, typ, brand);
    EncodeTextShape(enc, plaintext);
    Armor.BodyStrips(params, s, 0);
    StripConcat(enc, [SPACE], b);
    StripLetters(enc, [SPACE]);
    EmptyFirst(s);
    InFrameValid(params, h, typ);
    InFrameValid(params, [SPACE] + f, typ);
    BytesValid(params, [SPACE] + b, typ);
    BytesValid(params, [Armor.NEWLINE], typ);
    Reassociate(h, p, b, f, Armor.NEWLINE);
  }

  lemma InFrameValid(params: Armor.Params, s: bytes, typ: MessageType)
    requires CarriesFrames(params) && InFrame(s)
    ensures Checked(params, typ).AllValid(s) && params.punctuation !in s
  {
  }

  lemma BytesValid(params: Armor.Params, s: bytes, typ: MessageType)
    requires Armor.Separates(params) && forall c :: c in s ==> IsValidByte(params.encoding, c)
    ensures Checked(params, typ).AllValid(s) && params.punctuation !in s
  {
  }

  lemma Reassociate(h: bytes, p: byte, b: bytes, f: bytes, nl: byte)
    ensures h + [p] + ([SPACE] + b + [p] + ([SPACE] + f + [p] + [nl]))
         == h + [p, SPACE] + b + [p, SPACE] + f + [p, nl]
  {
  }

  /** The armor round trip: sealing, however the plaintext is cut into Writes, and opening, however
      the source splits the text, returns the plaintext, the brand and both frames. */
  method SealThenOpen(pieces: seq<bytes>, typ: MessageType, brand: bytes, params: Armor.Params)
    returns (text: bytes, o: Option<Opened>)
    requires CarriesFrames(params) && GoodBrand(brand) && typ != Signcryption
    ensures text == Sealed(params, typ, brand, Concat(pieces))
    ensures o == Present(Opened(Concat(pieces), brand, MakeFrame(BEGIN, typ, brand), MakeFrame(END, typ, brand)))
  {
    hide OpensTo, MakeFrame, EncodeText, Concat, Armor.ArmoredText;
    text := Armor.SealStream(pieces, MakeFrame(BEGIN, typ, brand), MakeFrame(END, typ, brand), params);
    ghost var a := SealedIsArmor(params, typ, brand, Concat(pieces));
    o := OpenReflowed(text, typ, brand, params, Concat(pieces), a);
  }

  /** Opening any reflow of armor. */
  method OpenReflowed(text: bytes, typ: MessageType, brand: bytes, params: ArmorParams,
                      ghost plaintext: bytes, ghost a: Pieces) returns (o: Option<Opened>)
    requires GoodBrand(brand) && typ != Signcryption
    requires a.AreArmor(params, typ, brand, plaintext) && text == a.Text(params.punctuation)
    ensures o == Present(Opened(plaintext, brand, TrimSpace(a.header), TrimSpace(a.footer)))
  {
    hide Says, Rules.HeaderOk, TrimSpace, Pieces.AreArmor, Pieces.Text;
    var rules := Checked(params, typ);
    ghost var x := Opened(plaintext, brand, TrimSpace(a.header), TrimSpace(a.footer));
    ReflowOpens(params, typ, brand, plaintext, a);
    o := Open(text, rules);
    if o.Present? {
      OpensOnce(rules, text, x, o.value);
    }
  }

  // ---- base 62 ----

  /** Digits, then upper-case, then lower-case letters. */
  function Base62Letter(i: nat): byte
    requires i < 62
  {
    if i < 10 then 48 + i else if i < 36 then 65 + (i - 10) else 97 + (i - 36)
  }

  lemma Base62Params()
    ensures Params(seq(62, i requires 0 <= i < 62 => Base62Letter(i)), 32, {9, 10, 13, 32, 62}).Valid()
  {
  }

  /** Base62StdEncoding. */
  function Base62(): Encoding {
    Base62Params();
    Params(seq(62, i requires 0 <= i < 62 => Base62Letter(i)), 32, {9, 10, 13, 32, 62})
  }

  /** Armor62Params. */
  function Armor62Params(): Armor.Params {
    ArmorParams(15, 200, 46, Base62())
  }

  lemma PowersOf62And256()
    ensures Pow(62, 42) < Pow(256, 32) <= Pow(62, 43)
  {
    hide Pow;
    FirstPower(62);
    FirstPower(256);
    PowSum(62, 1, 1);
    PowSum(62, 2, 2);
    PowSum(62, 4, 1);
    PowSum(62, 5, 5);
    PowSum(62, 10, 10);
    PowSum(62, 20, 1);
    PowSum(62, 21, 21);
    PowSum(62, 42, 1);
    PowSum(256, 1, 1);
    PowSum(256, 2, 2);
    PowSum(256, 4, 4);
    PowSum(256, 8, 8);
    PowSum(256, 16, 16);
  }

  lemma FirstPower(b: nat)
    ensures Pow(b, 1) == b
  {
  }

  /** 32 bytes make 43 characters. */
  lemma Base62BlockLen()
    ensures BaseXBlockLen(Base62()) == 43
  {
    hide Pow, BlockChars;
    PowersOf62And256();
    BlockCharsUnique(62, 32, 43);
  }

  lemma Base62Alphanumeric(b: byte)
    requires IsAlphanumeric(b)
    ensures b in Base62().alphabet
  {
    var i := if b < 58 then b - 48 else if b < 91 then b - 55 else b - 61;
    assert Base62().alphabet[i] == b;
  }

  /** The parameters in use meet the round trip's conditions. */
  lemma Armor62CarriesFrames()
    ensures CarriesFrames(Armor62Params())
  {
    forall b: byte | IsAlphanumeric(b) ensures b in Base62().alphabet {
      Base62Alphanumeric(b);
    }
  }
}
