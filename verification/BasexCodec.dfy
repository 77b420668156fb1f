/** What the one-shot BaseX encoding and decoding compute, and their round trips. */
module BasexCodec {
  import opened Bytes
  import opened Radix
  import opened BasexLengths
  import opened BasexEncoding

  predicate InBase(d: seq<nat>, base: nat) {
    forall i :: 0 <= i < |d| ==> d[i] < base
  }

  /** Digits to letters of the alphabet. */
  function Letters(enc: Encoding, d: seq<nat>): (r: bytes)
    requires InBase(d, Base(enc))
    ensures |r| == |d|
  {
    seq(|d|, i requires 0 <= i < |d| => enc.alphabet[d[i]])
  }

  /** Letters to digits; a byte outside the alphabet gets the digit `Base(enc)`. */
  function ToDigits(enc: Encoding, s: bytes): (r: seq<nat>)
    ensures |r| == |s|
  {
    seq(|s|, i requires 0 <= i < |s| => IndexOf(enc.alphabet, s[i]))
  }

  // ---- encoding ----

  function EncodeBlock(enc: Encoding, src: bytes): (r: bytes)
    ensures |r| == BlockChars(Base(enc), |src|)
  {
    Letters(enc, Digits(Value(src, 256), Base(enc), BlockChars(Base(enc), |src|)))
  }

  function EncodeText(enc: Encoding, src: bytes): bytes {
    if |src| <= enc.base256BlockLen then EncodeBlock(enc, src)
    else EncodeBlock(enc, src[..enc.base256BlockLen]) + EncodeText(enc, src[enc.base256BlockLen..])
  }

  // ---- decoding ----

  datatype Decoded = Decoded(data: bytes, err: Err)

  /** A block's number as a fixed count of bytes: zero-padded on the left, or cut to its leading
      bytes when it does not fit. */
  function DecodeBlock(enc: Encoding, s: bytes): (r: bytes)
    ensures |r| == DecodedLen(enc, |s|)
  {
    var raw := Minimal(Value(ToDigits(enc, s), Base(enc)));
    var len := DecodedLen(enc, |s|);
    if |raw| <= len then seq(len - |raw|, _ => 0) + raw else raw[..len]
  }

  /** Decoding a text that has only letters in it. */
  function DecodeLetters(enc: Encoding, s: bytes): Decoded
    decreases |s|
  {
    BlockLenPositive(enc);
    var obl := BaseXBlockLen(enc);
    if s == [] then Decoded([], None)
    else if |s| < obl then
      if IsValidEncodingLength(enc, |s|) then Decoded(DecodeBlock(enc, s), None) else Decoded([], InvalidLength)
    else
      var rest := DecodeLetters(enc, s[obl..]);
      Decoded(DecodeBlock(enc, s[..obl]) + rest.data, rest.err)
  }

  /** The position of the first byte that is neither a letter nor skipped, or |s|. */
  function FirstBad(enc: Encoding, s: bytes): (k: nat)
    ensures k <= |s|
    ensures forall i :: 0 <= i < k ==> IsValidByte(enc, s[i])
    ensures k < |s| ==> !IsValidByte(enc, s[k])
  {
    if s == [] || !IsValidByte(enc, s[0]) then 0 else 1 + FirstBad(enc, s[1..])
  }

  /** The letters of `s`, in order. */
  function Strip(enc: Encoding, s: bytes): (r: bytes)
    ensures |r| <= |s|
    ensures forall b :: b in r ==> b in enc.alphabet
  {
    if s == [] then []
    else if s[0] in enc.alphabet then [s[0]] + Strip(enc, s[1..])
    else Strip(enc, s[1..])
  }

  /** The prefix of `s` made of whole blocks. */
  function WholePart(enc: Encoding, s: bytes): bytes {
    BlockLenPositive(enc);
    s[..RoundDown(|s|, BaseXBlockLen(enc))]
  }

  /** Decoding any text: skip bytes are ignored, and the first bad byte stops the decoding after
      the last block completed before it. */
  function DecodeText(enc: Encoding, s: bytes): Decoded {
    var k := FirstBad(enc, s);
    if k < |s|
    then Decoded(DecodeLetters(enc, WholePart(enc, Strip(enc, s[..k]))).data, Corrupt(k))
    else DecodeLetters(enc, Strip(enc, s))
  }

  /** The results of decoding two texts one after the other. */
  function Then(a: Decoded, b: Decoded): Decoded {
    Decoded(a.data + b.data, b.err)
  }

  // ---- letters and digits ----

  lemma LetterIndex(enc: Encoding, i: nat)
    requires i < Base(enc)
    ensures IndexOf(enc.alphabet, enc.alphabet[i]) == i
  {
    IndexOfUnique(enc.alphabet, enc.alphabet[i], i);
  }

  lemma DigitsOfLetters(enc: Encoding, d: seq<nat>)
    requires InBase(d, Base(enc))
    ensures ToDigits(enc, Letters(enc, d)) == d
    ensures forall b :: b in Letters(enc, d) ==> b in enc.alphabet
  {
    forall i | 0 <= i < |d| ensures ToDigits(enc, Letters(enc, d))[i] == d[i] {
      LetterIndex(enc, d[i]);
    }
  }

  lemma LettersOfDigits(enc: Encoding, s: bytes)
    requires forall b :: b in s ==> b in enc.alphabet
    ensures InBase(ToDigits(enc, s), Base(enc))
    ensures Letters(enc, ToDigits(enc, s)) == s
  {
    forall i | 0 <= i < |s|
      ensures IndexOf(enc.alphabet, s[i]) < Base(enc) && enc.alphabet[IndexOf(enc.alphabet, s[i])] == s[i]
    {
      assert s[i] in s;
      var k := IndexOf(enc.alphabet, s[i]);
      assert enc.alphabet[..|enc.alphabet|] == enc.alphabet;
    }
  }

  lemma {:induction false} EncodeTextShape(enc: Encoding, src: bytes)
    ensures |EncodeText(enc, src)| == EncodedLen(enc, |src|)
    ensures forall b :: b in EncodeText(enc, src) ==> b in enc.alphabet
    decreases |src|
  {
    var ibl := enc.base256BlockLen;
    EncodedLenStep(enc, |src|);
    var blk := if |src| <= ibl then src else src[..ibl];
    DigitsOfLetters(enc, Digits(Value(blk, 256), Base(enc), BlockChars(Base(enc), |blk|)));
    if |src| > ibl {
      EncodeTextShape(enc, src[ibl..]);
    }
  }

  // ---- block round trips ----

  /** `DecodeBlock` inverts `EncodeBlock` on every block of at most base256BlockLen bytes. */
  lemma BlockRoundTrip(enc: Encoding, src: bytes)
    requires |src| <= enc.base256BlockLen
    ensures DecodeBlock(enc, EncodeBlock(enc, src)) == src
    ensures IsValidEncodingLength(enc, |EncodeBlock(enc, src)|)
  {
    var v, c := Value(src, 256), BlockChars(Base(enc), |src|);
    ValueBound(src, 256);
    DigitsOfLetters(enc, Digits(v, Base(enc), c));
    ValueOfDigits(v, Base(enc), c);
    EncodedLenStep(enc, |src|);
    DecodedLenOfEncodedLen(enc, |src|);
    MinimalPads(v, |src|);
    DigitsOfValue(src, 256);
    BlockCharsWithin(enc, |src|);
    ValidLengthIff(enc, c);
  }

  lemma BlockCharsWithin(enc: Encoding, n: nat)
    requires n <= enc.base256BlockLen
    ensures BlockChars(Base(enc), n) <= BaseXBlockLen(enc)
    ensures n < enc.base256BlockLen ==> BlockChars(Base(enc), n) < BaseXBlockLen(enc)
  {
    if n < enc.base256BlockLen {
      BlockCharsMonotone(Base(enc), n, enc.base256BlockLen);
    }
  }

  /** A block of letters of valid length re-encodes to itself exactly when its number fits in the
      bytes it decodes to. */
  lemma BlockCanonical(enc: Encoding, s: bytes)
    requires forall b :: b in s ==> b in enc.alphabet
    requires |s| <= BaseXBlockLen(enc) && IsValidEncodingLength(enc, |s|)
    ensures EncodeBlock(enc, DecodeBlock(enc, s)) == s
       <==> Value(ToDigits(enc, s), Base(enc)) < Pow(256, DecodedLen(enc, |s|))
  {
    var d, base, n := ToDigits(enc, s), Base(enc), DecodedLen(enc, |s|);
    var v := Value(d, base);
    DecodedLenStep(enc, |s|);
    ValidLengthIff(enc, |s|);
    LettersOfDigits(enc, s);
    DigitsOfValue(d, base);
    MinimalPads(v, n);
    var out := DecodeBlock(enc, s);
    if v < Pow(256, n) {
      ValueOfDigits(v, 256, n);
    }
    ValueBound(out, 256);
    ValueOfDigits(Value(out, 256), base, |s|);
    DigitsOfLetters(enc, Digits(Value(out, 256), base, |s|));
  }

  /** `d` are the places in the alphabet of the letters `s`. */
  predicate Spells(enc: Encoding, d: seq<nat>, s: bytes) {
    |d| == |s| && forall i :: 0 <= i < |d| ==> d[i] < Base(enc) && s[i] == enc.alphabet[d[i]]
  }

  /** An encoded block spells the number of its bytes, most significant digit first; and it is the only text
      of its length that does. */
  lemma BlockNumber(enc: Encoding, src: bytes, d: seq<nat>, s: bytes)
    requires |src| <= enc.base256BlockLen && Spells(enc, d, s)
    requires |s| == BlockChars(Base(enc), |src|)
    ensures Value(d, Base(enc)) == Value(src, 256) <==> s == EncodeBlock(enc, src)
  {
    var v, base := Value(src, 256), Base(enc);
    ValueBound(src, 256);
    ValueOfDigits(v, base, |s|);
    DigitsOfLetters(enc, Digits(v, base, |s|));
    DigitsOfValue(d, base);
    assert s == Letters(enc, d);
    DigitsOfLetters(enc, d);
  }

  /** A decoded block spells the number of its letters, if that fits. */
  lemma DecodedNumber(enc: Encoding, s: bytes, d: seq<nat>)
    requires Spells(enc, d, s) && Value(d, Base(enc)) < Pow(256, DecodedLen(enc, |s|))
    ensures Value(DecodeBlock(enc, s), 256) == Value(d, Base(enc))
  {
    var v, n := Value(d, Base(enc)), DecodedLen(enc, |s|);
    assert s == Letters(enc, d);
    DigitsOfLetters(enc, d);
    MinimalPads(v, n);
    ValueOfDigits(v, 256, n);
  }

  // ---- whole texts ----

  /** One whole block at the front decodes on its own. */
  lemma DecodeLettersStep(enc: Encoding, a: bytes, b: bytes)
    requires |a| == BaseXBlockLen(enc)
    ensures DecodeLetters(enc, a + b).data == DecodeBlock(enc, a) + DecodeLetters(enc, b).data
    ensures DecodeLetters(enc, a + b).err == DecodeLetters(enc, b).err
  {
    BlockLenPositive(enc);
    assert (a + b)[..|a|] == a && (a + b)[|a|..] == b;
  }

  /** Any number of whole blocks at the front decodes on its own. */
  lemma {:induction false} DecodeLettersSplit(enc: Encoding, a: bytes, b: bytes)
    requires BaseXBlockLen(enc) > 0 && |a| % BaseXBlockLen(enc) == 0
    ensures DecodeLetters(enc, a).err == None
    ensures DecodeLetters(enc, a + b) == Then(DecodeLetters(enc, a), DecodeLetters(enc, b))
    decreases |a|
  {
    if a == [] {
      assert a + b == b;
    } else {
      MultipleStep(|a|, BaseXBlockLen(enc));
      var head, tail := a[..BaseXBlockLen(enc)], a[BaseXBlockLen(enc)..];
      DecodeLettersSplit(enc, tail, b);
      SplitStep(enc, head, tail, b);
      assert a == head + tail;
    }
  }

  lemma SplitStep(enc: Encoding, head: bytes, tail: bytes, b: bytes)
    requires |head| == BaseXBlockLen(enc)
    requires DecodeLetters(enc, tail + b) == Then(DecodeLetters(enc, tail), DecodeLetters(enc, b))
    ensures DecodeLetters(enc, head + tail).err == DecodeLetters(enc, tail).err
    ensures DecodeLetters(enc, head + tail + b) == Then(DecodeLetters(enc, head + tail), DecodeLetters(enc, b))
  {
    hide DecodeLetters;
    DecodeLettersStep(enc, head, tail);
    DecodeLettersStep(enc, head, tail + b);
    assert head + tail + b == head + (tail + b);
  }

  lemma DecodeLettersShort(enc: Encoding, s: bytes)
    requires |s| <= BaseXBlockLen(enc) && IsValidEncodingLength(enc, |s|)
    ensures DecodeLetters(enc, s) == Decoded(DecodeBlock(enc, s), None)
  {
    BlockLenPositive(enc);
    DecodedLenStep(enc, |s|);
    if |s| == BaseXBlockLen(enc) {
      DecodeLettersStep(enc, s, []);
      assert s + [] == s;
    }
  }

  /** Decode inverts Encode for inputs of every length. */
  lemma {:induction false} LettersRoundTrip(enc: Encoding, src: bytes)
    ensures DecodeLetters(enc, EncodeText(enc, src)) == Decoded(src, None)
    decreases |src|
  {
    hide DecodeLetters, DecodeBlock, EncodeBlock;
    var ibl := enc.base256BlockLen;
    if |src| <= ibl {
      BlockRoundTrip(enc, src);
      BlockCharsWithin(enc, |src|);
      DecodeLettersShort(enc, EncodeText(enc, src));
    } else {
      var head, tail := src[..ibl], src[ibl..];
      LettersRoundTrip(enc, tail);
      BlockRoundTrip(enc, head);
      DecodeLettersStep(enc, EncodeBlock(enc, head), EncodeText(enc, tail));
      assert src == head + tail;
    }
  }

  /** The BaseX round trip: whatever skip bytes are inserted into an encoding, and wherever,
      decoding the result gives back the input. */
  lemma TextRoundTrip(enc: Encoding, src: bytes, text: bytes)
    requires FirstBad(enc, text) == |text|
    requires Strip(enc, text) == EncodeText(enc, src)
    ensures DecodeText(enc, text) == Decoded(src, None)
  {
    LettersRoundTrip(enc, src);
  }

  /** Exactly which lengths are accepted, and how many bytes an accepted text decodes to. */
  lemma {:induction false} LettersOutcome(enc: Encoding, s: bytes)
    ensures BaseXBlockLen(enc) > 0
    ensures DecodeLetters(enc, s).err
         == if IsValidEncodingLength(enc, |s| % BaseXBlockLen(enc)) then None else InvalidLength
    ensures DecodeLetters(enc, s).err == None ==> |DecodeLetters(enc, s).data| == DecodedLen(enc, |s|)
    decreases |s|
  {
    BlockLenPositive(enc);
    DecodedLenStep(enc, |s|);
    var obl := BaseXBlockLen(enc);
    if |s| < obl {
      WholeBlocksNone(|s|, obl, 1);
    } else {
      WholeBlocksStep(|s|, obl, 1);
      LettersOutcome(enc, s[obl..]);
      DecodedLenStep(enc, obl);
      DecodedLenStep(enc, 0);
    }
  }

  /** Every block of the text carries a number that fits in the bytes it decodes to. */
  predicate AllFit(enc: Encoding, s: bytes)
    decreases |s|
  {
    BlockLenPositive(enc);
    var obl := BaseXBlockLen(enc);
    var blk := if |s| <= obl then s else s[..obl];
    && Value(ToDigits(enc, blk), Base(enc)) < Pow(256, DecodedLen(enc, |blk|))
    && (|s| > obl ==> AllFit(enc, s[obl..]))
  }

  /** Canonicity: an accepted text re-encodes to its own letters exactly when all its blocks fit.
      The decoder does not reject the others. */
  lemma {:induction false} TextCanonical(enc: Encoding, s: bytes)
    requires forall b :: b in s ==> b in enc.alphabet
    requires DecodeLetters(enc, s).err == None
    ensures EncodeText(enc, DecodeLetters(enc, s).data) == s <==> AllFit(enc, s)
    decreases |s|
  {
    BlockLenPositive(enc);
    var obl := BaseXBlockLen(enc);
    if |s| <= obl {
      LettersOutcome(enc, s);
      CanonicalShort(enc, s);
    } else {
      var head, tail := s[..obl], s[obl..];
      assert s == head + tail;
      hide DecodeLetters, DecodeBlock, EncodeBlock, EncodeText;
      DecodeLettersStep(enc, head, tail);
      TextCanonical(enc, tail);
      BlockCanonical(enc, head);
      CanonicalStep(enc, head, tail);
    }
  }

  /** Decimal digits, in blocks of one byte. */
  function Decimal(): Encoding {
    Params([48, 49, 50, 51, 52, 53, 54, 55, 56, 57], 1, {})
  }

  lemma DecimalBlocks()
    ensures Base(Decimal()) == 10 && BaseXBlockLen(Decimal()) == 3 && DecodedLen(Decimal(), 3) == 1
    ensures DecodedLen(Decimal(), 0) == 0
  {
    hide DecodedLen;
    BlockCharsUnique(10, 1, 3);
    DecodedLenStep(Decimal(), 3);
    DecodedLenStep(Decimal(), 0);
    BlockBytesUnique(10, 3, 1);
    BlockBytesUnique(10, 0, 0);
  }

  lemma NinesBlock()
    ensures DecodeBlock(Decimal(), [57, 57, 57]) == [3]
    ensures !AllFit(Decimal(), [57, 57, 57])
  {
    hide BaseXBlockLen, DecodedLen, Value, Minimal, IndexOf;
    DecimalBlocks();
    Value999();
    IndexOfUnique(Decimal().alphabet, 57, 9);
    assert ToDigits(Decimal(), [57, 57, 57]) == [9, 9, 9];
    OneByte();
  }

  lemma OneByte()
    ensures Pow(256, 1) == 256
  {
  }

  /** One such text: "999" is accepted although no byte is that large. It decodes to the leading byte of
      999, whose own encoding is another text. */
  lemma OverflowAccepted()
    ensures DecodeLetters(Decimal(), [57, 57, 57]) == Decoded([3], None)
    ensures EncodeText(Decimal(), [3]) != [57, 57, 57]
  {
    hide BaseXBlockLen, DecodeBlock, AllFit, EncodeText, Decimal;
    var s: bytes := [57, 57, 57];
    DecimalBlocks();
    NinesBlock();
    assert s[..3] == s && s[3..] == [];
    assert DecodeLetters(Decimal(), s) == Decoded([3] + [], None);
    NinesAreLetters();
    TextCanonical(Decimal(), s);
  }

  lemma NinesAreLetters()
    ensures 57 in Decimal().alphabet
  {
    assert Decimal().alphabet[9] == 57;
  }

  lemma Value999()
    ensures Value([9, 9, 9], 10) == 999 && Minimal(999) == [3, 231]
  {
    ValueSnoc([9, 9], 9, 10);
    ValueSnoc([9], 9, 10);
    ValueSnoc([], 9, 10);
    assert [] + [9] == [9] && [9] + [9] == [9, 9] && [9, 9] + [9] == [9, 9, 9];
    assert Minimal(3) == Minimal(0) + [3] == [3];
  }

  lemma CanonicalShort(enc: Encoding, s: bytes)
    requires forall b :: b in s ==> b in enc.alphabet
    requires |s| <= BaseXBlockLen(enc) && DecodeLetters(enc, s).err == None
    ensures EncodeText(enc, DecodeLetters(enc, s).data) == s <==> AllFit(enc, s)
  {
    BlockLenPositive(enc);
    DecodedLenStep(enc, |s|);
    BlockBytesMonotone(Base(enc), |s|, BaseXBlockLen(enc));
    DecodeLettersShort(enc, s);
    BlockCanonical(enc, s);
  }

  lemma CanonicalStep(enc: Encoding, head: bytes, tail: bytes)
    requires |head| == BaseXBlockLen(enc) && tail != []
    requires DecodeLetters(enc, tail).err == None
    ensures EncodeText(enc, DecodeBlock(enc, head) + DecodeLetters(enc, tail).data) == head + tail
       <==> EncodeBlock(enc, DecodeBlock(enc, head)) == head && EncodeText(enc, DecodeLetters(enc, tail).data) == tail
  {
    var a, b := DecodeBlock(enc, head), DecodeLetters(enc, tail).data;
    DecodedLenStep(enc, |head|);
    BlockLenPositive(enc);
    assert |a| == enc.base256BlockLen;
    AcceptedNonEmpty(enc, tail);
    assert (a + b)[..|a|] == a && (a + b)[|a|..] == b;
    var x, y := EncodeBlock(enc, a), EncodeText(enc, b);
    assert |x| == |head|;
    assert x + y == head + tail <==> x == head && y == tail by {
      if x + y == head + tail {
        assert (x + y)[..|x|] == x && (x + y)[|x|..] == y;
        assert (head + tail)[..|head|] == head && (head + tail)[|head|..] == tail;
      }
    }
  }

  lemma AcceptedNonEmpty(enc: Encoding, s: bytes)
    requires s != [] && DecodeLetters(enc, s).err == None
    ensures DecodeLetters(enc, s).data != []
  {
    BlockLenPositive(enc);
    DecodedLenStep(enc, |s|);
    var obl := BaseXBlockLen(enc);
    if |s| < obl {
      ValidLengthIff(enc, |s|);
    } else {
      DecodedLenStep(enc, obl);
    }
  }

  // ---- stripping ----

  lemma {:induction false} StripConcat(enc: Encoding, a: bytes, b: bytes)
    ensures Strip(enc, a + b) == Strip(enc, a) + Strip(enc, b)
  {
    if a == [] {
      assert a + b == b;
    } else {
      assert (a + b)[1..] == a[1..] + b;
      StripConcat(enc, a[1..], b);
      SeqAssoc([a[0]], Strip(enc, a[1..]), Strip(enc, b));
    }
  }

  lemma StripSnoc(enc: Encoding, a: bytes, b: byte)
    ensures Strip(enc, a + [b]) == if b in enc.alphabet then Strip(enc, a) + [b] else Strip(enc, a)
  {
    StripConcat(enc, a, [b]);
  }

  lemma {:induction false} StripLetters(enc: Encoding, s: bytes)
    ensures (forall b :: b in s ==> b in enc.alphabet) <==> Strip(enc, s) == s
    ensures (forall b :: b in s ==> b !in enc.alphabet) <==> Strip(enc, s) == []
  {
    if s != [] {
      StripLetters(enc, s[1..]);
      assert s == [s[0]] + s[1..];
      if Strip(enc, s) == s {
        assert Strip(enc, s)[0] == s[0];
      }
    }
  }

  lemma {:induction false} FirstBadConcat(enc: Encoding, a: bytes, b: bytes)
    ensures FirstBad(enc, a) < |a| ==> FirstBad(enc, a + b) == FirstBad(enc, a)
    ensures FirstBad(enc, a) == |a| ==> FirstBad(enc, a + b) == |a| + FirstBad(enc, b)
  {
    if a == [] {
      assert a + b == b;
    } else {
      assert (a + b)[1..] == a[1..] + b;
      FirstBadConcat(enc, a[1..], b);
    }
  }

  lemma FirstBadUnique(enc: Encoding, s: bytes, k: nat)
    requires k <= |s| && (forall i :: 0 <= i < k ==> IsValidByte(enc, s[i]))
    requires k < |s| ==> !IsValidByte(enc, s[k])
    ensures FirstBad(enc, s) == k
  {
  }
}
