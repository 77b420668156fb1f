/** The BaseX block codec (encoding/basex/encoding.go): the meaning of the one-shot encoding and
    decoding, and the loops over arrays that compute them. */
module BasexEncoding {
  import opened Bytes
  import opened Radix
  import opened BasexLengths

  datatype ByteType = Normal | Skip | Invalid

  /** What the caller of NewEncoding chooses; the length fields follow from it. */
  datatype Params = Params(alphabet: bytes, base256BlockLen: nat, skip: set<byte>) {
    predicate Valid() {
      && 2 <= |alphabet| <= 256
      && (forall i, j :: 0 <= i < j < |alphabet| ==> alphabet[i] != alphabet[j])
      && base256BlockLen >= 1
    }
  }

  type Encoding = p: Params | p.Valid() witness Params([0, 1], 1, {})

  function Base(enc: Encoding): (r: nat)
    ensures 2 <= r <= 256
  {
    |enc.alphabet|
  }

  function BaseXBlockLen(enc: Encoding): nat {
    BlockChars(Base(enc), enc.base256BlockLen)
  }

  function GetByteType(enc: Encoding, b: byte): ByteType {
    if b in enc.alphabet then Normal else if b in enc.skip then Skip else Invalid
  }

  predicate IsValidByte(enc: Encoding, b: byte) {
    b in enc.alphabet || b in enc.skip
  }

  /** The output of the whole `k`-sized blocks among `n` items, `size` for each. */
  function WholeBlocks(n: nat, k: nat, size: nat): nat
    requires k > 0
  {
    n / k * size
  }

  function EncodedLen(enc: Encoding, n: nat): nat {
    if n == enc.base256BlockLen then BaseXBlockLen(enc)
    else
      var rem := n % enc.base256BlockLen;
      WholeBlocks(n, enc.base256BlockLen, BaseXBlockLen(enc)) + if rem > 0 then BlockChars(Base(enc), rem) else 0
  }

  function DecodedLen(enc: Encoding, n: nat): nat {
    BlockLenPositive(enc);
    if n == BaseXBlockLen(enc) then enc.base256BlockLen
    else
      var rem := n % BaseXBlockLen(enc);
      WholeBlocks(n, BaseXBlockLen(enc), enc.base256BlockLen) + if rem > 0 then BlockBytes(Base(enc), rem) else 0
  }

  /** The floor of n * log_256(base), which is -1 at n = -1. */
  function FloorBytes(enc: Encoding, n: int): int
    requires n >= -1
  {
    if n < 0 then -1 else BlockBytes(Base(enc), n)
  }

  predicate IsValidEncodingLength(enc: Encoding, n: nat) {
    n == BaseXBlockLen(enc) || FloorBytes(enc, n) != FloorBytes(enc, n - 1)
  }

  // ---- lengths ----

  lemma BlockLenPositive(enc: Encoding)
    ensures BaseXBlockLen(enc) >= 1
    ensures BlockChars(Base(enc), 0) == 0
    ensures BlockBytes(Base(enc), 0) == 0
    ensures BlockBytes(Base(enc), BaseXBlockLen(enc)) == enc.base256BlockLen
  {
    BlockCharsUnique(Base(enc), 0, 0);
    BlockCharsMonotone(Base(enc), 0, enc.base256BlockLen);
    BlockBytesOfChars(Base(enc), 0);
    BlockBytesOfChars(Base(enc), enc.base256BlockLen);
  }

  lemma WholeBlocksStep(n: nat, k: nat, size: nat)
    requires 0 < k <= n
    ensures WholeBlocks(n, k, size) == size + WholeBlocks(n - k, k, size)
    ensures n % k == (n - k) % k
  {
    var q, r := (n - k) / k, (n - k) % k;
    assert n == (q + 1) * k + r;
    DivModSnoc(q + 1, r, k);
    assert (q + 1) * size == size + q * size;
  }

  /** `n` rounded down to a multiple of `k`. */
  function RoundDown(n: nat, k: nat): (r: nat)
    requires k > 0
    ensures r <= n < r + k && r % k == 0
  {
    DivMod(n, k, n / k, n % k);
    DivModSnoc(n / k, 0, k);
    n / k * k
  }

  lemma MultipleStep(n: nat, k: nat)
    requires k > 0 && n > 0 && n % k == 0
    ensures n >= k && (n - k) % k == 0
  {
    if n >= k {
      WholeBlocksStep(n, k, 1);
    }
  }

  lemma MultiplePlus(n: nat, k: nat)
    requires k > 0 && n % k == 0
    ensures (n + k) % k == 0
  {
    WholeBlocksStep(n + k, k, 1);
  }

  lemma MultipleSum(m: nat, n: nat, k: nat)
    requires k > 0 && m % k == 0 && n % k == 0
    ensures (m + n) % k == 0
  {
    DivMod(m, k, m / k, 0);
    DivMod(n, k, n / k, 0);
    DivModSnoc(m / k + n / k, 0, k);
  }

  lemma RoundDownSum(m: nat, r: nat, k: nat)
    requires k > 0 && m % k == 0 && r < k
    ensures RoundDown(m + r, k) == m
  {
    DivMod(m, k, m / k, 0);
    DivModSnoc(m / k, r, k);
  }

  lemma WholeBlocksNone(n: nat, k: nat, size: nat)
    requires n < k
    ensures WholeBlocks(n, k, size) == 0 && n % k == n
  {
    DivModSnoc(0, n, k);
  }

  /** EncodedLen peels one block at a time. */
  lemma EncodedLenStep(enc: Encoding, n: nat)
    ensures n <= enc.base256BlockLen ==> EncodedLen(enc, n) == BlockChars(Base(enc), n)
    ensures n >= enc.base256BlockLen
        ==> EncodedLen(enc, n) == BaseXBlockLen(enc) + EncodedLen(enc, n - enc.base256BlockLen)
  {
    EncodedLenShort(enc, 0);
    if n < enc.base256BlockLen {
      EncodedLenShort(enc, n);
    } else if n > enc.base256BlockLen {
      EncodedLenLong(enc, n);
    }
  }

  lemma EncodedLenShort(enc: Encoding, n: nat)
    requires n < enc.base256BlockLen
    ensures EncodedLen(enc, n) == BlockChars(Base(enc), n)
  {
    BlockLenPositive(enc);
    WholeBlocksNone(n, enc.base256BlockLen, BaseXBlockLen(enc));
  }

  lemma EncodedLenLong(enc: Encoding, n: nat)
    requires n > enc.base256BlockLen
    ensures EncodedLen(enc, n) == BaseXBlockLen(enc) + EncodedLen(enc, n - enc.base256BlockLen)
  {
    var k, size := enc.base256BlockLen, BaseXBlockLen(enc);
    WholeBlocksStep(n, k, size);
    if n - k == k {
      WholeBlocksStep(k, k, size);
      WholeBlocksNone(0, k, size);
    }
  }

  /** DecodedLen peels one block at a time. */
  lemma DecodedLenStep(enc: Encoding, n: nat)
    ensures n <= BaseXBlockLen(enc) ==> DecodedLen(enc, n) == BlockBytes(Base(enc), n)
    ensures n >= BaseXBlockLen(enc)
        ==> DecodedLen(enc, n) == enc.base256BlockLen + DecodedLen(enc, n - BaseXBlockLen(enc))
  {
    BlockLenPositive(enc);
    DecodedLenShort(enc, 0);
    if n < BaseXBlockLen(enc) {
      DecodedLenShort(enc, n);
    } else if n > BaseXBlockLen(enc) {
      DecodedLenLong(enc, n);
    }
  }

  lemma DecodedLenShort(enc: Encoding, n: nat)
    requires n < BaseXBlockLen(enc)
    ensures DecodedLen(enc, n) == BlockBytes(Base(enc), n)
  {
    BlockLenPositive(enc);
    WholeBlocksNone(n, BaseXBlockLen(enc), enc.base256BlockLen);
  }

  lemma DecodedLenLong(enc: Encoding, n: nat)
    requires n > BaseXBlockLen(enc)
    ensures DecodedLen(enc, n) == enc.base256BlockLen + DecodedLen(enc, n - BaseXBlockLen(enc))
  {
    BlockLenPositive(enc);
    var k, size := BaseXBlockLen(enc), enc.base256BlockLen;
    WholeBlocksStep(n, k, size);
    if n - k == k {
      WholeBlocksStep(k, k, size);
      WholeBlocksNone(0, k, size);
    }
  }

  /** Decoding the encoded length gives back the length, for inputs of any number of blocks. */
  lemma {:induction false} DecodedLenOfEncodedLen(enc: Encoding, n: nat)
    ensures DecodedLen(enc, EncodedLen(enc, n)) == n
    decreases n
  {
    BlockLenPositive(enc);
    EncodedLenStep(enc, n);
    DecodedLenStep(enc, EncodedLen(enc, n));
    if n < enc.base256BlockLen {
      BlockBytesOfChars(Base(enc), n);
      BlockCharsMonotone(Base(enc), n, enc.base256BlockLen);
    } else {
      DecodedLenOfEncodedLen(enc, n - enc.base256BlockLen);
    }
  }

  lemma {:induction false} DecodedLenMonotone(enc: Encoding, m: nat, n: nat)
    requires m <= n
    ensures DecodedLen(enc, m) <= DecodedLen(enc, n)
    decreases n
  {
    BlockLenPositive(enc);
    DecodedLenStep(enc, m);
    DecodedLenStep(enc, n);
    var k := BaseXBlockLen(enc);
    if n <= k {
      BlockBytesMonotone(Base(enc), m, n);
    } else if m >= k {
      DecodedLenMonotone(enc, m - k, n - k);
    } else {
      BlockBytesMonotone(Base(enc), m, k);
    }
  }

  /** A character count within a block is accepted exactly when it is the encoded length of some
      byte count. */
  lemma ValidLengthIff(enc: Encoding, c: nat)
    requires c <= BaseXBlockLen(enc)
    ensures IsValidEncodingLength(enc, c) <==> exists m: nat :: m <= enc.base256BlockLen && c == EncodedLen(enc, m)
    ensures IsValidEncodingLength(enc, c) ==> c == BlockChars(Base(enc), BlockBytes(Base(enc), c))
    ensures IsValidEncodingLength(enc, c) && c > 0 ==> BlockBytes(Base(enc), c) > 0
  {
    BlockLenPositive(enc);
    var b := Base(enc);
    var m := BlockBytes(b, c);
    BlockBytesMonotone(b, c, BaseXBlockLen(enc));
    EncodedLenStep(enc, m);
    forall k: nat | k <= enc.base256BlockLen && c == EncodedLen(enc, k) ensures c == BlockChars(b, m) {
      EncodedLenStep(enc, k);
      BlockBytesOfChars(b, k);
    }
    if c > 0 {
      MinimalLength(b, c);
    }
  }
}
