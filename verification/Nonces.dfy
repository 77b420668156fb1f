/** Nonces (nonce.go): built in place in a 24-byte array, and never repeated under one key. */
module Nonces {
  import opened Bytes
  import opened Radix

  /** A SHA-512 sum. */
  type Digest = d: bytes | |d| == 64 witness seq(64, _ => 0)

  type Nonce = n: bytes | |n| == 24 witness seq(24, _ => 0)

  datatype Version = V1 | V2

  /** The number of uint64 values. */
  const TWO_64 := 0x1_0000_0000_0000_0000

  const SENDER_KEY_SBOX := Ascii("saltpack_sender_key_sbox")
  const RECIPSB := Ascii("saltpack_recipsb")
  const PAYLOAD_KEY_BOX := Ascii("saltpack_payload_key_box")
  const DERIVED_SBOXKEY := Ascii("saltpack_derived_sboxkey")
  const PLOADSB := Ascii("saltpack_ploadsb")

  /** binary.BigEndian's eight bytes of a uint64. */
  function BE64(v: nat): (r: bytes)
    requires v < TWO_64
    ensures |r| == 8
  {
    Digits(v, 256, 8)
  }

  lemma BE64Injective(v: nat, w: nat)
    requires v < TWO_64 && w < TWO_64 && BE64(v) == BE64(w)
    ensures v == w
  {
    PowerOf256();
    ValueOfDigits(v, 256, 8);
    ValueOfDigits(w, 256, 8);
  }

  /** The big-endian number that bytes spell. */
  function BigEndian(s: bytes): nat {
    Value(s, 256)
  }

  lemma BE64Spells(v: nat)
    requires v < TWO_64
    ensures BigEndian(BE64(v)) == v
  {
    PowerOf256();
    ValueOfDigits(v, 256, 8);
  }

  /** A nonce of a constant front and a counter. */
  predicate Counts(n: Nonce, front: string, i: nat)
    requires |front| == 16 && forall k :: 0 <= k < |front| ==> front[k] < 128 as char
  {
    n[..16] == Ascii(front) && BigEndian(n[16..]) == i
  }

  /** A nonce that begins with a header hash, but for the lowest bit of the sixteenth byte, which is a flag,
      and a counter. */
  predicate CountsFlagged(n: Nonce, h: Digest, flag: bool, i: nat) {
    && n[..15] == h[..15] && n[15] / 2 == h[15] / 2 && (n[15] % 2 == 1 <==> flag)
    && BigEndian(n[16..]) == i
  }

  lemma CountsFront(front: bytes, v: nat)
    requires |front| == 16 && v < TWO_64
    ensures (front + BE64(v))[..16] == front && BigEndian((front + BE64(v))[16..]) == v
  {
    hide BE64;
    BE64Spells(v);
    assert (front + BE64(v))[16..] == BE64(v);
  }

  lemma FlaggedCounts(h: Digest, flag: bool, i: nat)
    requires i < TWO_64
    ensures CountsFlagged(FlaggedNonce(h, flag, i), h, flag, i)
  {
    hide BE64;
    var front := h[..15] + [WithLowBit(h[15], flag)];
    CountsFront(front, i);
    var n := FlaggedNonce(h, flag, i);
    assert n[..15] == h[..15] && n[15] == front[15];
  }

  lemma PowerOf256()
    ensures Pow(256, 8) == TWO_64
  {
  }

  /** A byte with its lowest bit replaced by `flag`. */
  function WithLowBit(b: byte, flag: bool): (r: byte)
    ensures r / 2 == b / 2 && (r % 2 == 1 <==> flag)
  {
    b - b % 2 + if flag then 1 else 0
  }

  // ---- what the nonces are ----

  function SenderKeySecretBoxNonce(): Nonce {
    SENDER_KEY_SBOX
  }

  function DerivedSharedKeyNonce(): Nonce {
    DERIVED_SBOXKEY
  }

  function PayloadKeyBoxNonceV2(recip: nat): Nonce
    requires recip < TWO_64
  {
    RECIPSB + BE64(recip)
  }

  function PayloadKeyBoxNonce(version: Version, recip: nat): Nonce
    requires recip < TWO_64
  {
    match version
    case V1 => PAYLOAD_KEY_BOX
    case V2 => PayloadKeyBoxNonceV2(recip)
  }

  /** The front of a header hash with a flag in its last bit, and a counter. */
  function FlaggedNonce(headerHash: Digest, flag: bool, i: nat): Nonce
    requires i < TWO_64
  {
    headerHash[..15] + [WithLowBit(headerHash[15], flag)] + BE64(i)
  }

  function ChunkSecretBoxNonce(i: nat): Nonce
    requires i < TWO_64
  {
    PLOADSB + BE64(i)
  }

  // ---- building them in place ----

  method CopyEqualSize(out: array<byte>, lo: nat, hi: nat, src: bytes)
    requires lo <= hi <= out.Length && hi - lo == |src|
    modifies out
    ensures out[lo..hi] == src
    ensures forall i :: 0 <= i < out.Length && !(lo <= i < hi) ==> out[i] == old(out[i])
  {
    forall i | 0 <= i < |src| {
      out[lo + i] := src[i];
    }
  }

  /** binary.BigEndian.PutUint64. */
  method PutUint64(out: array<byte>, off: nat, v: nat)
    requires off + 8 <= out.Length && v < TWO_64
    modifies out
    ensures out[off..off + 8] == BE64(v)
    ensures forall i :: 0 <= i < out.Length && !(off <= i < off + 8) ==> out[i] == old(out[i])
  {
    hide Digits;
    var w, i := v, 8;
    assert BE64(v) == Digits(w, 256, i) + out[off + i..off + 8];
    while i > 0
      invariant 0 <= i <= 8 && BE64(v) == Digits(w, 256, i) + out[off + i..off + 8]
      invariant forall j :: 0 <= j < out.Length && !(off <= j < off + 8) ==> out[j] == old(out[j])
    {
      ghost var tail := out[off + i..off + 8];
      i := i - 1;
      DigitsStep(w, i);
      out[off + i] := w % 256;
      assert out[off + i..off + 8] == [w % 256] + tail;
      SeqAssoc(Digits(w / 256, 256, i), [w % 256], tail);
      w := w / 256;
    }
    assert Digits(w, 256, 0) == [];
  }

  lemma DigitsStep(w: nat, i: nat)
    ensures Digits(w, 256, i + 1) == Digits(w / 256, 256, i) + [w % 256]
  {
  }

  method NonceForPayloadKeyBoxV2(recip: nat) returns (r: Nonce)
    requires recip < TWO_64
    ensures r == PayloadKeyBoxNonceV2(recip) && Counts(r, "saltpack_recipsb", recip)
  {
    CountsFront(RECIPSB, recip);
    var n := new byte[24];
    CopyEqualSize(n, 0, 16, RECIPSB);
    PutUint64(n, 16, recip);
    assert n[..] == n[0..16] + n[16..24];
    r := n[..];
  }

  method NonceForPayloadKeyBox(version: Version, recip: nat) returns (r: Nonce)
    requires recip < TWO_64
    ensures r == PayloadKeyBoxNonce(version, recip)
    ensures version == V1 ==> r == Ascii("saltpack_payload_key_box")
    ensures version == V2 ==> Counts(r, "saltpack_recipsb", recip)
  {
    match version
    case V1 => r := PAYLOAD_KEY_BOX;
    case V2 => r := NonceForPayloadKeyBoxV2(recip);
  }

  method NonceForMACKeyBoxV2(headerHash: Digest, ephemeral: bool, recip: nat) returns (r: Nonce)
    requires recip < TWO_64
    ensures r == FlaggedNonce(headerHash, ephemeral, recip) && CountsFlagged(r, headerHash, ephemeral, recip)
  {
    hide BE64;
    FlaggedCounts(headerHash, ephemeral, recip);
    var n := new byte[24];
    CopyEqualSize(n, 0, 16, headerHash[..16]);
    assert n[15] == headerHash[15] && n[..15] == headerHash[..15];
    n[15] := n[15] - n[15] % 2;
    if ephemeral {
      n[15] := n[15] + 1;
    }
    assert n[15] == WithLowBit(headerHash[15], ephemeral) && n[..15] == headerHash[..15];
    PutUint64(n, 16, recip);
    assert n[15] == WithLowBit(headerHash[15], ephemeral) && n[..15] == headerHash[..15];
    assert n[..] == n[..15] + [n[15]] + n[16..24];
    r := n[..];
  }

  method NonceForChunkSecretBox(i: nat) returns (r: Nonce)
    requires i < TWO_64
    ensures r == ChunkSecretBoxNonce(i) && Counts(r, "saltpack_ploadsb", i)
  {
    CountsFront(PLOADSB, i);
    var n := new byte[24];
    CopyEqualSize(n, 0, 16, PLOADSB);
    PutUint64(n, 16, i);
    assert n[..] == n[0..16] + n[16..24];
    r := n[..];
  }

  method NonceForChunkSigncryption(headerHash: Digest, isFinal: bool, i: nat) returns (r: Nonce)
    requires i < TWO_64
    ensures r == FlaggedNonce(headerHash, isFinal, i) && CountsFlagged(r, headerHash, isFinal, i)
  {
    hide BE64;
    FlaggedCounts(headerHash, isFinal, i);
    var n := new byte[24];
    CopyEqualSize(n, 0, 16, headerHash[..16]);
    assert n[15] == headerHash[15] && n[..15] == headerHash[..15];
    n[15] := n[15] - n[15] % 2;
    if isFinal {
      n[15] := n[15] + 1;
    }
    assert n[15] == WithLowBit(headerHash[15], isFinal) && n[..15] == headerHash[..15];
    PutUint64(n, 16, i);
    assert n[15] == WithLowBit(headerHash[15], isFinal) && n[..15] == headerHash[..15];
    assert n[..] == n[..15] + [n[15]] + n[16..24];
    r := n[..];
  }

  // ---- no nonce is used twice ----

  /** The recipient nonces of both versions: one constant, or a constant front and the recipient's place. */
  lemma PayloadKeyBoxNonceIs(recip: nat)
    requires recip < TWO_64
    ensures PayloadKeyBoxNonce(V1, recip) == Ascii("saltpack_payload_key_box")
    ensures Counts(PayloadKeyBoxNonce(V2, recip), "saltpack_recipsb", recip)
  {
    CountsFront(RECIPSB, recip);
  }

  /** The nonces without a counter. */
  lemma ConstantNonces()
    ensures SenderKeySecretBoxNonce() == Ascii("saltpack_sender_key_sbox")
    ensures DerivedSharedKeyNonce() == Ascii("saltpack_derived_sboxkey")
  {
  }

  /** Two concatenations with fronts of one length are equal only piece by piece. */
  lemma SplitAt<T>(a: seq<T>, b: seq<T>, c: seq<T>, d: seq<T>)
    requires |a| == |c| && a + b == c + d
    ensures a == c && b == d
  {
    assert (a + b)[..|a|] == a && (c + d)[..|a|] == c;
    assert (a + b)[|a|..] == b && (c + d)[|a|..] == d;
  }

  /** For one header hash, nonces are injective in the flag and the counter. */
  lemma FlaggedNonceInjective(h: Digest, f: bool, i: nat, g: bool, j: nat)
    requires i < TWO_64 && j < TWO_64 && FlaggedNonce(h, f, i) == FlaggedNonce(h, g, j)
    ensures f == g && i == j
  {
    var a, b := h[..15] + [WithLowBit(h[15], f)], h[..15] + [WithLowBit(h[15], g)];
    SplitAt(a, BE64(i), b, BE64(j));
    assert a[15] == WithLowBit(h[15], f) && b[15] == WithLowBit(h[15], g);
    BE64Injective(i, j);
  }

  lemma ChunkSecretBoxNonceInjective(i: nat, j: nat)
    requires i < TWO_64 && j < TWO_64 && ChunkSecretBoxNonce(i) == ChunkSecretBoxNonce(j)
    ensures i == j
  {
    SplitAt(PLOADSB, BE64(i), PLOADSB, BE64(j));
    BE64Injective(i, j);
  }

  lemma PayloadKeyBoxNonceInjective(i: nat, j: nat)
    requires i < TWO_64 && j < TWO_64 && PayloadKeyBoxNonceV2(i) == PayloadKeyBoxNonceV2(j)
    ensures i == j
  {
    SplitAt(RECIPSB, BE64(i), RECIPSB, BE64(j));
    BE64Injective(i, j);
  }

  ghost predicate AllDistinct<T(!new)>(s: seq<T>) {
    forall i, j :: 0 <= i < j < |s| ==> s[i] != s[j]
  }

  /** What one encrypted message of `n` blocks seals under its payload key: the sender's key, and then
      the blocks. */
  function EncryptionRun(n: nat): seq<Nonce>
    requires n < TWO_64
  {
    [SenderKeySecretBoxNonce()] + seq(n, i requires 0 <= i < n => ChunkSecretBoxNonce(i))
  }

  /** The nonce of block `i` of a signcrypted message of `n` blocks: the last one is flagged. */
  function SigncryptionNonce(h: Digest, n: nat, i: nat): Nonce
    requires i < n < TWO_64
  {
    FlaggedNonce(h, i == n - 1, i)
  }

  function SigncryptionRun(h: Digest, n: nat): seq<Nonce>
    requires n < TWO_64
  {
    var blocks: seq<Nonce> := seq(n, i requires 0 <= i < n => SigncryptionNonce(h, n, i));
    [SenderKeySecretBoxNonce()] + blocks
  }

  /** No two boxes of an encrypted message share a nonce. */
  lemma EncryptionRunDistinct(n: nat)
    requires n < TWO_64
    ensures AllDistinct(EncryptionRun(n))
  {
    hide BE64;
    var run := EncryptionRun(n);
    forall i, j | 0 <= i < j < |run| ensures run[i] != run[j] {
      if i == 0 {
        assert run[j] == ChunkSecretBoxNonce(j - 1);
        SenderKeyNonceApart(j - 1);
      } else if run[i] == run[j] {
        ChunkSecretBoxNonceInjective(i - 1, j - 1);
      }
    }
  }

  lemma SenderKeyNonceApart(i: nat)
    requires i < TWO_64
    ensures SenderKeySecretBoxNonce() != ChunkSecretBoxNonce(i)
    ensures SenderKeySecretBoxNonce() != PayloadKeyBoxNonceV2(i)
  {
    assert SenderKeySecretBoxNonce()[10] == 101 && ChunkSecretBoxNonce(i)[10] == 108;
    assert PayloadKeyBoxNonceV2(i)[9] == 114;
  }

  /** The number spelt by the last eight bytes of the sender key's nonce. */
  function SenderKeyNonceCounter(): nat {
    Value(SENDER_KEY_SBOX[16..], 256)
  }

  lemma SenderKeyNonceParts()
    ensures SenderKeyNonceCounter() < TWO_64 && BE64(SenderKeyNonceCounter()) == SENDER_KEY_SBOX[16..]
    ensures SENDER_KEY_SBOX[15] == 95
  {
    PowerOf256();
    ValueBound(SENDER_KEY_SBOX[16..], 256);
    DigitsOfValue(SENDER_KEY_SBOX[16..], 256);
  }

  lemma FlaggedIsSenderKeyNonce(h: Digest, flag: bool, i: nat)
    requires i < TWO_64
    ensures FlaggedNonce(h, flag, i) == SenderKeySecretBoxNonce()
       <==> h[..15] == SENDER_KEY_SBOX[..15] && h[15] / 2 == 47 && flag && i == SenderKeyNonceCounter()
  {
    hide BE64, SenderKeyNonceCounter;
    SenderKeyNonceParts();
    var a, n := h[..15] + [WithLowBit(h[15], flag)], SENDER_KEY_SBOX;
    assert n == n[..16] + n[16..] && n[..16] == n[..15] + [n[15]];
    if FlaggedNonce(h, flag, i) == n {
      SplitAt(a, BE64(i), n[..16], n[16..]);
      SplitAt(h[..15], [WithLowBit(h[15], flag)], n[..15], [n[15]]);
      BE64Injective(i, SenderKeyNonceCounter());
    }
  }

  /** For signcryption no two blocks share a nonce. The sender key's nonce can be shared, by the last
      block, if the header hash begins like it and the message has that very number of blocks. */
  lemma SigncryptionRunDistinct(h: Digest, n: nat)
    requires n < TWO_64
    ensures AllDistinct(SigncryptionRun(h, n)[1..])
    ensures AllDistinct(SigncryptionRun(h, n))
       <==> !(h[..15] == SENDER_KEY_SBOX[..15] && h[15] / 2 == 47 && n == SenderKeyNonceCounter() + 1)
  {
    hide BE64, FlaggedNonce, SenderKeyNonceCounter;
    var run, c := SigncryptionRun(h, n), SenderKeyNonceCounter();
    forall j | 1 <= j < |run|
      ensures run[j] == run[1..][j - 1] == FlaggedNonce(h, j == n, j - 1)
      ensures run[j] == run[0] <==>
        h[..15] == SENDER_KEY_SBOX[..15] && h[15] / 2 == 47 && j == n && j - 1 == c
    {
      FlaggedIsSenderKeyNonce(h, j == n, j - 1);
    }
    forall i, j | 1 <= i < j < |run| ensures run[i] != run[j] {
      if run[i] == run[j] {
        FlaggedNonceInjective(h, i == n, i - 1, j == n, j - 1);
      }
    }
    if n == c + 1 && h[..15] == SENDER_KEY_SBOX[..15] && h[15] / 2 == 47 {
      assert run[n] == run[0];
    } else {
      assert forall j :: 1 <= j < |run| ==> run[j] != run[0];
    }
  }
}
