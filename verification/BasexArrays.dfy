/** The array loops of encoding/basex/encoding.go, proved against the functions of BasexCodec.
    A Go slice that is written is an array with a start offset; one that is only read is its contents. */
module BasexArrays {
  import opened Bytes
  import opened Radix
  import opened BasexLengths
  import opened BasexEncoding
  import opened BasexCodec

  /** Only dst[lo..hi] differs from `before`. */
  ghost predicate OnlyWithin(dst: array<byte>, before: bytes, lo: nat, hi: nat)
    reads dst
    requires lo <= hi <= dst.Length == |before|
  {
    forall i :: 0 <= i < dst.Length && !(lo <= i < hi) ==> dst[i] == before[i]
  }

  /** The remaining number still has a place for each of its digits, so the division loop never
      runs below index 0. */
  lemma RoomForDigits(enc: Encoding, src: bytes)
    ensures Value(src, 256) < Pow(Base(enc), BlockChars(Base(enc), |src|))
  {
    ValueBound(src, 256);
  }

  /** The last of the remaining digits, and the digits left once it is taken. */
  lemma LastDigit(enc: Encoding, d: seq<nat>, num: nat, p: nat)
    requires p < |d| && InBase(d, Base(enc)) && d[..p + 1] == Digits(num, Base(enc), p + 1)
    ensures Letters(enc, d)[p] == enc.alphabet[QuoRem(num, Base(enc)).1]
    ensures d[..p] == Digits(QuoRem(num, Base(enc)).0, Base(enc), p)
    ensures num == 0 ==> QuoRem(num, Base(enc)) == (0, 0)
  {
    assert d[..p + 1][p] == d[p];
    assert d[..p] == d[..p + 1][..p];
  }

  /** Quotient and remainder of a big.Int division. */
  function QuoRem(num: nat, base: nat): (r: (nat, nat))
    requires base > 0
    ensures r.1 < base
  {
    (num / base, num % base)
  }

  lemma Shrinks(num: nat, base: nat, p: int)
    requires base >= 2 && p >= -1 && 0 < num < Pow(base, p + 1)
    ensures p >= 0 && QuoRem(num, base).0 < num && QuoRem(num, base).0 < Pow(base, p)
  {
    if p >= 0 {
      DivBound(num, base, p + 1);
      hide Pow;
      var (q, r) := QuoRem(num, base);
      DivMod(num, base, q, r);
      MulMonotone(2, base, q);
    }
  }

  /** The division loop of encodeBlock: writes the digits of `num` from the right and returns the
      index of the last place not written. */
  method DivideOut(enc: Encoding, dst: array<byte>, lo: nat, v: nat, encodedLen: nat, ghost d: seq<nat>) returns (p: int)
    requires |d| == encodedLen && v < Pow(Base(enc), |d|) && d == Digits(v, Base(enc), |d|)
    requires lo + |d| <= dst.Length
    modifies dst
    ensures -1 <= p < |d| && d[..p + 1] == Digits(0, Base(enc), p + 1)
    ensures forall i :: p < i < |d| ==> dst[lo + i] == Letters(enc, d)[i]
    ensures OnlyWithin(dst, old(dst[..]), lo, lo + |d|)
  {
    hide Pow, Digits, Letters, QuoRem;
    var num: nat := v;
    p := encodedLen - 1;
    while num != 0
      invariant -1 <= p < |d|
      invariant num < Pow(Base(enc), p + 1)
      invariant d[..p + 1] == Digits(num, Base(enc), p + 1)
      invariant forall i :: p < i < |d| ==> dst[lo + i] == Letters(enc, d)[i]
      invariant OnlyWithin(dst, old(dst[..]), lo, lo + |d|)
      decreases num
    {
      Shrinks(num, Base(enc), p);
      LastDigit(enc, d, num, p);
      var (quo, rem) := QuoRem(num, Base(enc));
      dst[lo + p] := enc.alphabet[rem];
      num := quo;
      p := p - 1;
    }
  }

  /** The padding loop of encodeBlock: letters for zero in the remaining places. */
  method PadZeros(enc: Encoding, dst: array<byte>, lo: nat, p: int, encodedLen: nat, ghost d: seq<nat>)
    requires |d| == encodedLen && InBase(d, Base(enc)) && lo + |d| <= dst.Length
    requires -1 <= p < encodedLen && d[..p + 1] == Digits(0, Base(enc), p + 1)
    requires forall i :: p < i < |d| ==> dst[lo + i] == Letters(enc, d)[i]
    modifies dst
    ensures dst[lo..lo + encodedLen] == Letters(enc, d)
    ensures OnlyWithin(dst, old(dst[..]), lo, lo + |d|)
  {
    hide Digits, Letters, QuoRem;
    var q := p;
    while q >= 0
      invariant -1 <= q < encodedLen
      invariant d[..q + 1] == Digits(0, Base(enc), q + 1)
      invariant forall i :: q < i < encodedLen ==> dst[lo + i] == Letters(enc, d)[i]
      invariant OnlyWithin(dst, old(dst[..]), lo, lo + encodedLen)
    {
      LastDigit(enc, d, 0, q);
      dst[lo + q] := enc.alphabet[0];
      q := q - 1;
    }
  }

  method EncodeBlockInto(enc: Encoding, dst: array<byte>, lo: nat, src: bytes)
    requires |src| <= enc.base256BlockLen
    requires lo + BlockChars(Base(enc), |src|) <= dst.Length
    modifies dst
    ensures dst[lo..lo + BlockChars(Base(enc), |src|)] == EncodeBlock(enc, src)
    ensures OnlyWithin(dst, old(dst[..]), lo, lo + BlockChars(Base(enc), |src|))
  {
    EncodedLenStep(enc, |src|);
    RoomForDigits(enc, src);
    hide BlockChars, EncodedLen, Pow, Letters, Digits, Value;
    var encodedLen := EncodedLen(enc, |src|);
    var num := Value(src, 256);
    ghost var d := Digits(num, Base(enc), encodedLen);
    var p := DivideOut(enc, dst, lo, num, encodedLen, d);
    PadZeros(enc, dst, lo, p, encodedLen, d);
  }

  /** The one-shot Encode: block after block, with source and destination limits clipped. */
  method Encode(enc: Encoding, dst: array<byte>, src: bytes)
    requires EncodedLen(enc, |src|) <= dst.Length
    modifies dst
    ensures dst[..EncodedLen(enc, |src|)] == EncodeText(enc, src)
    ensures OnlyWithin(dst, old(dst[..]), 0, EncodedLen(enc, |src|))
  {
    hide EncodedLen, EncodeText, EncodeBlock;
    EncodeNothing(enc);
    var sp, dp: nat := 0, 0;
    ghost var done: bytes := [];
    while sp < |src|
      invariant sp <= |src| && dp <= EncodedLen(enc, |src|)
      invariant dp + EncodedLen(enc, |src| - sp) == EncodedLen(enc, |src|)
      invariant dst[..dp] == done && done + EncodeText(enc, src[sp..]) == EncodeText(enc, src)
      invariant OnlyWithin(dst, old(dst[..]), 0, EncodedLen(enc, |src|))
    {
      var sLim := Min(sp + enc.base256BlockLen, |src|);
      ghost var blk := EncodeBlock(enc, src[sp..sLim]);
      EncodeStep(enc, src[sp..], src[sp..sLim], src[sLim..]);
      LengthStep(enc, |src| - sp);
      EncodeBlockInto(enc, dst, dp, src[sp..sLim]);
      SeqAssoc(done, blk, EncodeText(enc, src[sLim..]));
      done := done + blk;
      dp := dp + BlockChars(Base(enc), sLim - sp);
      sp := sLim;
    }
    assert src[sp..] == [];
  }

  lemma EncodeNothing(enc: Encoding)
    ensures EncodedLen(enc, 0) == 0 && EncodeText(enc, []) == []
  {
    BlockLenPositive(enc);
    EncodedLenStep(enc, 0);
  }

  /** Encoding peels the first block, full or short, off a non-empty input. */
  lemma EncodeStep(enc: Encoding, src: bytes, blk: bytes, rest: bytes)
    requires src != [] && src == blk + rest && |blk| == Min(enc.base256BlockLen, |src|)
    ensures EncodeText(enc, src) == EncodeBlock(enc, blk) + EncodeText(enc, rest)
  {
    hide EncodeBlock, EncodedLen, BlockChars, EncodeText;
    if |src| <= enc.base256BlockLen {
      EncodeNothing(enc);
      assert src == blk && rest == [];
      EncodeShort(enc, src);
    } else {
      assert src[..enc.base256BlockLen] == blk && src[enc.base256BlockLen..] == rest;
      EncodeLong(enc, src);
    }
  }

  lemma LengthStep(enc: Encoding, n: nat)
    ensures var k := Min(enc.base256BlockLen, n);
      EncodedLen(enc, n) == BlockChars(Base(enc), k) + EncodedLen(enc, n - k)
  {
    EncodedLenStep(enc, n);
    EncodeNothing(enc);
    hide EncodedLen;
  }

  lemma EncodeShort(enc: Encoding, src: bytes)
    requires |src| <= enc.base256BlockLen
    ensures EncodeText(enc, src) == EncodeBlock(enc, src)
  {
  }

  lemma EncodeLong(enc: Encoding, src: bytes)
    requires |src| > enc.base256BlockLen
    ensures EncodeText(enc, src)
         == EncodeBlock(enc, src[..enc.base256BlockLen]) + EncodeText(enc, src[enc.base256BlockLen..])
  {
    hide EncodeBlock;
  }

  // ---- decoding ----

  /** What the scan of one block ends with: the letters read and how many bytes they took. */
  ghost predicate Scanned(enc: Encoding, src: bytes, si: nat, letters: bytes) {
    && si <= |src| && FirstBad(enc, src) >= si
    && letters == Strip(enc, src[..si])
    && |letters| <= BaseXBlockLen(enc)
    && (|letters| == BaseXBlockLen(enc) || si == |src|)
    && (src != [] ==> si > 0)
  }

  /** decodeBlock's scan: accumulates the number of the next block of letters, skipping skip bytes,
      and stops at a full block, at a bad byte or at the end. */
  method ScanBlock(enc: Encoding, src: bytes) returns (res: nat, numGoodChars: nat, si: nat, bad: bool)
    ensures si <= |src| && numGoodChars == |Strip(enc, src[..si])|
    ensures res == Value(ToDigits(enc, Strip(enc, src[..si])), Base(enc))
    ensures bad ==> si == FirstBad(enc, src) < |src| && numGoodChars < BaseXBlockLen(enc)
    ensures !bad ==> Scanned(enc, src, si, Strip(enc, src[..si]))
  {
    BlockLenPositive(enc);
    hide BaseXBlockLen, Value, ToDigits, Strip;
    EmptyScan(enc);
    res, numGoodChars, si, bad := 0, 0, 0, false;
    assert src[..0] == [];
    while si < |src|
      invariant si <= |src| && FirstBad(enc, src) >= si
      invariant numGoodChars == |Strip(enc, src[..si])| < BaseXBlockLen(enc)
      invariant res == Value(ToDigits(enc, Strip(enc, src[..si])), Base(enc))
      invariant !bad
    {
      var b := src[si];
      ScanStep(enc, src, si);
      if b !in enc.alphabet {
        if b !in enc.skip {
          bad := true;
          return;
        }
        si := si + 1;
      } else {
        si := si + 1;
        numGoodChars := numGoodChars + 1;
        res := res * Base(enc) + IndexOf(enc.alphabet, b);
        if numGoodChars == BaseXBlockLen(enc) {
          break;
        }
      }
    }
  }

  lemma EmptyScan(enc: Encoding)
    ensures Strip(enc, []) == [] && Value(ToDigits(enc, []), Base(enc)) == 0
  {
  }

  lemma ScanStep(enc: Encoding, src: bytes, si: nat)
    requires si < |src| && FirstBad(enc, src) >= si
    ensures var before, after := Strip(enc, src[..si]), Strip(enc, src[..si + 1]);
      if src[si] in enc.alphabet then
        && after == before + [src[si]]
        && Value(ToDigits(enc, after), Base(enc))
        == Value(ToDigits(enc, before), Base(enc)) * Base(enc) + IndexOf(enc.alphabet, src[si])
      else after == before
    ensures FirstBad(enc, src) > si <==> IsValidByte(enc, src[si])
  {
    var before := Strip(enc, src[..si]);
    assert src[..si + 1] == src[..si] + [src[si]];
    StripSnoc(enc, src[..si], src[si]);
    if src[si] in enc.alphabet {
      assert ToDigits(enc, before + [src[si]]) == ToDigits(enc, before) + [IndexOf(enc.alphabet, src[si])];
      ValueSnoc(ToDigits(enc, before), IndexOf(enc.alphabet, src[si]), Base(enc));
    }
    if !IsValidByte(enc, src[si]) {
      FirstBadUnique(enc, src, si);
    }
  }

  /** Writes a number as exactly `paddedLen` bytes: zeroes on the left, or only its leading bytes. */
  method WritePadded(dst: array<byte>, lo: nat, raw: bytes, paddedLen: nat)
    requires lo + paddedLen <= dst.Length
    modifies dst
    ensures dst[lo..lo + paddedLen]
         == if |raw| <= paddedLen then seq(paddedLen - |raw|, _ => 0) + raw else raw[..paddedLen]
    ensures OnlyWithin(dst, old(dst[..]), lo, lo + paddedLen)
  {
    var p := if |raw| < paddedLen then paddedLen - |raw| else 0;
    forall i | 0 <= i < p {
      dst[lo + i] := 0;
    }
    forall i | p <= i < paddedLen {
      dst[lo + i] := raw[i - p];
    }
  }

  /** A block of valid length was read from src[..si]. */
  ghost predicate BlockRead(enc: Encoding, src: bytes, si: nat, letters: bytes) {
    Scanned(enc, src, si, letters) && IsValidEncodingLength(enc, |letters|)
  }

  /** Why no block can be read: a bad byte before the block is full, or a short block of a length
      that is not minimal. */
  ghost predicate BlockRefused(enc: Encoding, src: bytes, baseOffset: nat, err: Err) {
    var k := FirstBad(enc, src);
    && |Strip(enc, src[..k])| < BaseXBlockLen(enc)
    && if k < |src| then err == Corrupt(baseOffset + k)
       else err == InvalidLength && !IsValidEncodingLength(enc, |Strip(enc, src)|)
  }

  /** decodeBlock: one block from the front of `src`. */
  method DecodeBlockInto(enc: Encoding, dst: array<byte>, lo: nat, src: bytes, baseOffset: nat)
    returns (paddedLen: nat, si: nat, err: Err)
    requires lo + DecodedLen(enc, Min(|src|, BaseXBlockLen(enc))) <= dst.Length
    modifies dst
    ensures si <= |src|
    ensures err == None ==>
      && BlockRead(enc, src, si, Strip(enc, src[..si]))
      && paddedLen == |DecodeBlock(enc, Strip(enc, src[..si]))| && lo + paddedLen <= dst.Length
      && dst[lo..lo + paddedLen] == DecodeBlock(enc, Strip(enc, src[..si]))
      && OnlyWithin(dst, old(dst[..]), lo, lo + paddedLen)
    ensures err != None ==> paddedLen == 0 && dst[..] == old(dst[..]) && BlockRefused(enc, src, baseOffset, err)
  {
    hide BaseXBlockLen, Value, ToDigits, Strip, DecodedLen, IsValidEncodingLength, Minimal;
    var res, numGoodChars, scanned, bad := ScanBlock(enc, src);
    if bad {
      return 0, 0, Corrupt(scanned + baseOffset);
    }
    if !IsValidEncodingLength(enc, numGoodChars) {
      FullBlockValid(enc);
      assert src[..scanned] == src;
      return 0, 0, InvalidLength;
    }
    si := scanned;
    paddedLen := DecodedLen(enc, numGoodChars);
    DecodedLenMonotone(enc, numGoodChars, Min(|src|, BaseXBlockLen(enc)));
    WritePadded(dst, lo, Minimal(res), paddedLen);
    err := None;
  }

  lemma FullBlockValid(enc: Encoding)
    ensures IsValidEncodingLength(enc, BaseXBlockLen(enc))
  {
  }

  /** The one-shot Decode, into dst[lo..]. */
  method Decode(enc: Encoding, dst: array<byte>, lo: nat, src: bytes) returns (n: nat, err: Err)
    requires lo + DecodedLen(enc, |src|) <= dst.Length
    modifies dst
    ensures n == |DecodeText(enc, src).data| && n <= DecodedLen(enc, |src|)
    ensures dst[lo..lo + n] == DecodeText(enc, src).data
    ensures err == DecodeText(enc, src).err
    ensures OnlyWithin(dst, old(dst[..]), lo, lo + n)
  {
    hide DecodedLen, Strip, BaseXBlockLen, DecodeBlock, DecodeText, DecodedSoFar, BlockRead, BlockRefused;
    DecodeNothing(enc, src);
    var dp, sp: nat := 0, 0;
    ghost var done: bytes := [];
    while sp < |src|
      invariant sp <= |src| && dp == |done|
      invariant dp + DecodedLen(enc, |src| - sp) <= DecodedLen(enc, |src|)
      invariant dst[lo..lo + dp] == done
      invariant DecodedSoFar(enc, src, sp, done)
      invariant OnlyWithin(dst, old(dst[..]), lo, lo + dp)
      decreases |src| - sp
    {
      DecodedLenMonotone(enc, Min(|src| - sp, BaseXBlockLen(enc)), |src| - sp);
      var di, si, e := DecodeBlockInto(enc, dst, lo + dp, src[sp..], sp);
      if e != None {
        DecodeStopped(enc, src, sp, done, e);
        return dp, e;
      }
      DecodeAdvances(enc, src, sp, done, si);
      DecodeFits(enc, src[sp..], si);
      done := done + DecodeBlock(enc, Strip(enc, src[sp..][..si]));
      sp := sp + si;
      dp := dp + di;
    }
    DecodeFinished(enc, src, done);
    n, err := dp, None;
  }

  /** The blocks read from src[..sp] decode to `done`; they are whole unless the end is reached. */
  ghost predicate DecodedSoFar(enc: Encoding, src: bytes, sp: nat, done: bytes)
    requires sp <= |src|
  {
    && FirstBad(enc, src) >= sp
    && BaseXBlockLen(enc) > 0
    && (sp < |src| ==> |Strip(enc, src[..sp])| % BaseXBlockLen(enc) == 0)
    && DecodeLetters(enc, Strip(enc, src[..sp])) == Decoded(done, None)
  }

  lemma DecodeEmpty(enc: Encoding)
    ensures DecodeLetters(enc, []) == Decoded([], None) && Strip(enc, []) == [] && BaseXBlockLen(enc) > 0
  {
    BlockLenPositive(enc);
  }

  lemma DecodeEmptyText(enc: Encoding)
    ensures DecodeText(enc, []) == Decoded([], None)
  {
    DecodeEmpty(enc);
  }

  lemma DecodeNothing(enc: Encoding, src: bytes)
    ensures DecodedSoFar(enc, src, 0, [])
  {
    DecodeEmpty(enc);
    hide BaseXBlockLen, DecodeLetters, Strip;
    assert src[..0] == [];
  }

  lemma DecodeFinished(enc: Encoding, src: bytes, done: bytes)
    requires DecodedSoFar(enc, src, |src|, done)
    ensures DecodeText(enc, src) == Decoded(done, None)
  {
    assert src[..|src|] == src;
  }

  lemma DecodeAdvances(enc: Encoding, src: bytes, sp: nat, done: bytes, si: nat)
    requires sp < |src| && DecodedSoFar(enc, src, sp, done) && si <= |src| - sp
    requires BlockRead(enc, src[sp..], si, Strip(enc, src[sp..][..si]))
    ensures DecodedSoFar(enc, src, sp + si, done + DecodeBlock(enc, Strip(enc, src[sp..][..si])))
    ensures si > 0
  {
    hide DecodeLetters, Strip, BaseXBlockLen, DecodeBlock, IsValidEncodingLength;
    var a, b := src[..sp], src[sp..][..si];
    var la, lb := Strip(enc, a), Strip(enc, b);
    assert src[..sp + si] == a + b && src == a + src[sp..];
    StripConcat(enc, a, b);
    FirstBadConcat(enc, a, src[sp..]);
    FirstBadUnique(enc, a, sp);
    DecodeLettersSplit(enc, la, lb);
    DecodeLettersShort(enc, lb);
    if |lb| == BaseXBlockLen(enc) {
      MultiplePlus(|la|, BaseXBlockLen(enc));
    }
  }

  /** A block and what is left of the source never need more room than the whole. */
  lemma DecodeFits(enc: Encoding, src: bytes, si: nat)
    requires si <= |src| && BlockRead(enc, src, si, Strip(enc, src[..si]))
    ensures |DecodeBlock(enc, Strip(enc, src[..si]))| + DecodedLen(enc, |src| - si) <= DecodedLen(enc, |src|)
  {
    hide Strip, BaseXBlockLen, DecodeBlock, DecodedLen, IsValidEncodingLength;
    var n := |Strip(enc, src[..si])|;
    if n == BaseXBlockLen(enc) {
      DecodedLenStep(enc, |src|);
      DecodedLenStep(enc, n);
      DecodeNone(enc);
      DecodedLenMonotone(enc, |src| - si, |src| - n);
    } else {
      DecodeNone(enc);
      DecodedLenMonotone(enc, n, |src|);
    }
  }

  lemma DecodeNone(enc: Encoding)
    ensures DecodedLen(enc, 0) == 0
  {
    BlockLenPositive(enc);
    DecodedLenStep(enc, 0);
  }

  lemma DecodeStopped(enc: Encoding, src: bytes, sp: nat, done: bytes, err: Err)
    requires sp < |src| && DecodedSoFar(enc, src, sp, done)
    requires BlockRefused(enc, src[sp..], sp, err)
    ensures DecodeText(enc, src) == Decoded(done, err)
  {
    hide DecodeLetters, Strip, BaseXBlockLen, DecodeBlock, DecodedLen, IsValidEncodingLength;
    var a, b := src[..sp], src[sp..];
    assert src == a + b;
    FirstBadConcat(enc, a, b);
    FirstBadUnique(enc, a, sp);
    var k := FirstBad(enc, b);
    var c := b[..k];
    assert src[..sp + k] == a + c;
    StripConcat(enc, a, c);
    var la, lc := Strip(enc, a), Strip(enc, c);
    if err.Corrupt? {
      WholePartSum(enc, la, lc);
    } else {
      assert c == b;
      DecodeLettersSplit(enc, la, lc);
      ShortInvalid(enc, lc);
    }
  }

  lemma WholePartSum(enc: Encoding, a: bytes, b: bytes)
    requires |b| < BaseXBlockLen(enc) && |a| % BaseXBlockLen(enc) == 0
    ensures WholePart(enc, a + b) == a
  {
    RoundDownSum(|a|, |b|, BaseXBlockLen(enc));
  }

  lemma ShortInvalid(enc: Encoding, s: bytes)
    requires |s| < BaseXBlockLen(enc) && !IsValidEncodingLength(enc, |s|)
    ensures DecodeLetters(enc, s) == Decoded([], InvalidLength)
  {
    BlockLenPositive(enc);
  }

  // ---- strings ----

  method EncodeToString(enc: Encoding, src: bytes) returns (s: bytes)
    ensures s == EncodeText(enc, src)
  {
    var buf := new byte[EncodedLen(enc, |src|)];
    Encode(enc, buf, src);
    s := buf[..];
  }

  method DecodeString(enc: Encoding, s: bytes) returns (data: bytes, err: Err)
    ensures Decoded(data, err) == DecodeText(enc, s)
  {
    var dbuf := new byte[DecodedLen(enc, |s|)];
    var n;
    n, err := Decode(enc, dbuf, 0, s);
    data := dbuf[..n];
  }
}
