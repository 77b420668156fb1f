/** Payload packets (packets.go, common.go, and the block functions of encrypt.go, decrypt.go,
    sign_stream.go, verify_stream.go, signcrypt_seal.go and signcrypt_open.go): what a sender makes of
    one chunk, and what a receiver makes of one packet. */
module Packets {
  import opened Bytes
  import opened Nonces
  import opened Chunks

  // ---- cryptography ----

  type MAC = m: bytes | |m| == 32 witness seq(32, _ => 0)

  /** The primitives in use: NaCl's secretbox and box, SHA-512, HMAC-SHA-512 and Ed25519. A box takes
      the one side's secret key and the other side's public key. */
  datatype Suite = Suite(
    seal: (bytes, Nonce, bytes) -> bytes,
    open: (bytes, Nonce, bytes) -> Option<bytes>,
    box: (bytes, bytes, Nonce, bytes) -> bytes,
    unbox: (bytes, bytes, Nonce, bytes) -> Option<bytes>,
    boxPublic: bytes -> bytes,
    hash: bytes -> Digest,
    hmac: (bytes, bytes) -> Digest,
    sign: (bytes, bytes) -> Digest,
    verify: (bytes, bytes, bytes) -> bool,
    signPublic: bytes -> bytes)
  {
    /** Opening undoes sealing, boxes are 16 bytes longer than what is in them, the two sides of a box
        agree, public keys have 32 bytes, and signatures verify. */
    ghost predicate Correct() {
      && (forall k, n, m :: open(k, n, seal(k, n, m)) == Present(m) && |seal(k, n, m)| == |m| + OVERHEAD)
      && (forall k, n, c :: open(k, n, c).Present? ==> |c| == |open(k, n, c).value| + OVERHEAD)
      && (forall a, b, n, m :: box(a, boxPublic(b), n, m) == box(b, boxPublic(a), n, m))
      && (forall a, b, n, m :: unbox(b, boxPublic(a), n, box(a, boxPublic(b), n, m)) == Present(m))
      && (forall a, p, n, m :: |box(a, p, n, m)| == |m| + OVERHEAD)
      && (forall a :: |boxPublic(a)| == KEY_SIZE)
      && (forall k, m :: verify(signPublic(k), m, sign(k, m)))
    }
  }

  /** The overhead of a box, and the sizes of a key and of a signature. */
  const OVERHEAD := 16
  const KEY_SIZE := 32
  const SIGNATURE_SIZE := 64

  /** What is asked of the primitives can be met. */
  lemma SuitesExist() returns (suite: Suite)
    ensures suite.Correct()
  {
    var zeroes: bytes := seq(64, _ => 0);
    var pack: bytes -> bytes := m => zeroes[..OVERHEAD] + m;
    var unpack: bytes -> Option<bytes> := c => if |c| >= OVERHEAD then Present(c[OVERHEAD..]) else Absent;
    suite := Suite((_, _, m) => pack(m), (_, _, c) => unpack(c), (_, _, _, m) => pack(m), (_, _, _, c) => unpack(c),
                   _ => zeroes[..KEY_SIZE], _ => zeroes, (_, _) => zeroes, (_, _) => zeroes, (_, _, _) => true, _ => []);
    assert forall m :: pack(m)[OVERHEAD..] == m;
  }

  const ATTACHED_STRING := Ascii("saltpack attached signature") + [0]
  const DETACHED_STRING := Ascii("saltpack detached signature") + [0]
  const SIGNCRYPTION_STRING := Ascii("saltpack encrypted signature") + [0]

  function FlagByte(isFinal: bool): bytes {
    if isFinal then [1] else [0]
  }

  /** V1 leaves the flag out. */
  function VersionedFlag(version: Version, isFinal: bool): bytes {
    match version
    case V1 => []
    case V2 => FlagByte(isFinal)
  }

  /** What computePayloadHash hashes. */
  function PayloadHashInput(version: Version, headerHash: Digest, nonce: Nonce, ctext: bytes, isFinal: bool): bytes {
    headerHash + (nonce + (VersionedFlag(version, isFinal) + ctext))
  }

  function PayloadAuthenticator(suite: Suite, macKey: bytes, payloadHash: Digest): MAC {
    suite.hmac(macKey, payloadHash)[..32]
  }

  /** What attachedSignatureInput hashes. */
  function AttachedHashInput(version: Version, headerHash: Digest, chunk: bytes, seqno: nat, isFinal: bool): bytes
    requires seqno < TWO_64
  {
    headerHash + (BE64(seqno) + (VersionedFlag(version, isFinal) + chunk))
  }

  function AttachedSignatureInput(suite: Suite, version: Version, headerHash: Digest, chunk: bytes, seqno: nat,
                                  isFinal: bool): bytes
    requires seqno < TWO_64
  {
    ATTACHED_STRING + suite.hash(AttachedHashInput(version, headerHash, chunk, seqno, isFinal))
  }

  function DetachedSignatureInput(suite: Suite, headerHash: Digest, plaintext: bytes): bytes {
    DETACHED_STRING + suite.hash(headerHash + plaintext)
  }

  function SigncryptionSignatureInput(suite: Suite, headerHash: Digest, nonce: Nonce, isFinal: bool, chunk: bytes): bytes {
    SIGNCRYPTION_STRING + (headerHash + (nonce + (FlagByte(isFinal) + suite.hash(chunk))))
  }

  // ---- packets ----

  /** One value of the MessagePack stream. `Foreign` decodes, but to none of these; `Broken` does not. */
  datatype Packet =
    | HeaderPacket(headerBytes: bytes)
    | EncryptionBlockV1(authenticators: seq<MAC>, ctext: bytes)
    | EncryptionBlockV2(isFinal: bool, authenticators: seq<MAC>, ctext: bytes)
    | SignatureBlockV1(signature: bytes, chunk: bytes)
    | SignatureBlockV2(isFinal: bool, signature: bytes, chunk: bytes)
    | SigncryptionBlock(ctext: bytes, isFinal: bool)
    | Foreign
    | Broken(err: Err)

  // ---- sealing a chunk ----

  /** The keys of a sending stream. A signcrypting sender without a signing key is anonymous. */
  datatype Sealer =
    | Encrypting(version: Version, payloadKey: bytes, headerHash: Digest, macKeys: seq<bytes>)
    | Signing(version: Version, headerHash: Digest, secretKey: bytes)
    | Signcrypting(payloadKey: bytes, headerHash: Digest, signingKey: Option<bytes>)
  {
    function Ver(): Version {
      if Signcrypting? then V2 else version
    }

    /** Whether block numbers are checked before they are used; signatures let them wrap around. */
    predicate Counted() {
      !Signing?
    }

    /** makeEncryptionBlock, makeSignatureBlock, and the blocks of signcryption. */
    function Seal(suite: Suite, i: nat, c: Chunk): Packet
      requires i < TWO_64
    {
      match this
      case Encrypting(version, payloadKey, headerHash, macKeys) =>
        var nonce := ChunkSecretBoxNonce(i);
        var ctext := suite.seal(payloadKey, nonce, c.data);
        var h := suite.hash(PayloadHashInput(version, headerHash, nonce, ctext, c.isFinal));
        var auths := Authenticators(suite, macKeys, h);
        if version == V1 then EncryptionBlockV1(auths, ctext) else EncryptionBlockV2(c.isFinal, auths, ctext)
      case Signing(version, headerHash, secretKey) =>
        var sig := suite.sign(secretKey, AttachedSignatureInput(suite, version, headerHash, c.data, i, c.isFinal));
        if version == V1 then SignatureBlockV1(sig, c.data) else SignatureBlockV2(c.isFinal, sig, c.data)
      case Signcrypting(payloadKey, headerHash, signingKey) =>
        var nonce := FlaggedNonce(headerHash, c.isFinal, i);
        SigncryptionBlock(suite.seal(payloadKey, nonce, AttachedSig(suite, nonce, c) + c.data), c.isFinal)
    }

    /** The signature in front of a signcrypted chunk; zeroes for an anonymous sender. */
    function AttachedSig(suite: Suite, nonce: Nonce, c: Chunk): Digest
      requires Signcrypting?
    {
      if signingKey.Absent? then seq(SIGNATURE_SIZE, _ => 0)
      else suite.sign(signingKey.value, SigncryptionSignatureInput(suite, headerHash, nonce, c.isFinal, c.data))
    }
  }

  /** One authenticator for each receiver, in the order of their keys. */
  function Authenticators(suite: Suite, macKeys: seq<bytes>, payloadHash: Digest): (r: seq<MAC>)
    ensures |r| == |macKeys|
    ensures forall j :: 0 <= j < |r| ==> r[j] == PayloadAuthenticator(suite, macKeys[j], payloadHash)
  {
    if macKeys == [] then []
    else [PayloadAuthenticator(suite, macKeys[0], payloadHash)] + Authenticators(suite, macKeys[1..], payloadHash)
  }

  // ---- what is in a packet ----

  /** An encryption block: the chunk in a box under a nonce that spells the block's number, and for each
      receiver a MAC of a hash of header hash, nonce, final flag (in version 2) and box. */
  lemma EncryptionBlockSays(suite: Suite, s: Sealer, i: nat, c: Chunk) returns (n: Nonce)
    requires s.Encrypting? && i < TWO_64
    ensures var p, flag: bytes := s.Seal(suite, i, c), if s.version == V1 then [] else if c.isFinal then [1] else [0];
      && (if s.version == V1 then p.EncryptionBlockV1? else p.EncryptionBlockV2? && p.isFinal == c.isFinal)
      && Counts(n, "saltpack_ploadsb", i) && p.ctext == suite.seal(s.payloadKey, n, c.data)
      && |p.authenticators| == |s.macKeys|
      && forall j :: 0 <= j < |s.macKeys| ==>
          p.authenticators[j] == suite.hmac(s.macKeys[j], suite.hash(s.headerHash + (n + (flag + p.ctext))))[..32]
  {
    hide BE64, Counts, Authenticators;
    n := ChunkSecretBoxNonce(i);
    ChunkCounts(i);
  }

  lemma ChunkCounts(i: nat)
    requires i < TWO_64
    ensures Counts(ChunkSecretBoxNonce(i), "saltpack_ploadsb", i)
  {
    CountsFront(PLOADSB, i);
  }

  /** A signature block: the chunk, and a signature over a hash of header hash, number, final flag (in version
      2) and chunk, behind a string that says what is signed. */
  lemma SignatureBlockSays(suite: Suite, s: Sealer, i: nat, c: Chunk) returns (number: bytes)
    requires s.Signing? && i < TWO_64
    ensures var p, flag: bytes := s.Seal(suite, i, c), if s.version == V1 then [] else if c.isFinal then [1] else [0];
      && (if s.version == V1 then p.SignatureBlockV1? else p.SignatureBlockV2? && p.isFinal == c.isFinal)
      && |number| == 8 && BigEndian(number) == i && p.chunk == c.data
      && p.signature == suite.sign(s.secretKey, Ascii("saltpack attached signature") + [0]
                                                + suite.hash(s.headerHash + (number + (flag + c.data))))
  {
    hide BE64;
    number := BE64(i);
    BE64Spells(i);
  }

  /** A signcryption block: in a box under a nonce of header hash, final flag and number, a signature and the
      chunk; the signature is over header hash, nonce, flag and the chunk's hash, and an anonymous sender's
      is zeroes. */
  lemma SigncryptionBlockSays(suite: Suite, s: Sealer, i: nat, c: Chunk) returns (n: Nonce, sig: Digest)
    requires s.Signcrypting? && i < TWO_64
    ensures var p, flag: bytes := s.Seal(suite, i, c), if c.isFinal then [1] else [0];
      && p.SigncryptionBlock? && p.isFinal == c.isFinal && CountsFlagged(n, s.headerHash, c.isFinal, i)
      && p.ctext == suite.seal(s.payloadKey, n, sig + c.data)
      && (match s.signingKey
          case Absent => sig == seq(64, _ => 0)
          case Present(key) =>
            sig == suite.sign(key, Ascii("saltpack encrypted signature") + [0]
                                   + (s.headerHash + (n + (flag + suite.hash(c.data))))))
  {
    hide FlaggedNonce, CountsFlagged;
    n := FlaggedNonce(s.headerHash, c.isFinal, i);
    sig := s.AttachedSig(suite, n, c);
    FlaggedCounts(s.headerHash, c.isFinal, i);
  }

  // ---- opening a packet ----

  /** What becomes of a packet: a chunk, an error, or a panic. */
  datatype Next = Accepted(c: Chunk) | Refused(err: Err) | Crash

  /** The keys of a receiving stream; `position` is the receiver's place in the header. */
  datatype Opener =
    | Decrypting(version: Version, payloadKey: bytes, headerHash: Digest, macKey: bytes, position: nat)
    | Verifying(version: Version, headerHash: Digest, publicKey: bytes)
    | Opening(payloadKey: bytes, headerHash: Digest, sender: Option<bytes>)
  {
    function Ver(): Version {
      if Opening? then V2 else version
    }

    /** Decoding a packet into the version's block, and processBlock; `i` is the sequence number less
        one. Refused(Malformed) is a decoding error. A V1 block is final when it is empty. */
    function Process(suite: Suite, i: nat, pkt: Packet): Next
      requires i < TWO_64
    {
      match (this, pkt)
      case (Decrypting(V1, _, _, _, _), EncryptionBlockV1(auths, ctext)) =>
        Decrypt(suite, i, ctext, auths, |ctext| == OVERHEAD)
      case (Decrypting(V2, _, _, _, _), EncryptionBlockV2(isFinal, auths, ctext)) =>
        Decrypt(suite, i, ctext, auths, isFinal)
      case (Verifying(V1, _, _), SignatureBlockV1(sig, chunk)) => Verify(suite, i, sig, chunk, chunk == [])
      case (Verifying(V2, _, _), SignatureBlockV2(isFinal, sig, chunk)) => Verify(suite, i, sig, chunk, isFinal)
      case (Opening(_, _, _), SigncryptionBlock(ctext, isFinal)) => Open(suite, i, ctext, isFinal)
      case _ => Refused(Rejected(Malformed))
    }

    /** decryptStream.processBlock. A block without an authenticator for the receiver makes its index
        expression panic, before any tag is checked. */
    function Decrypt(suite: Suite, i: nat, ctext: bytes, auths: seq<MAC>, isFinal: bool): Next
      requires Decrypting? && i < TWO_64
    {
      if i >= TWO_64 - 1 then Refused(Rejected(PacketOverflow))
      else if position >= |auths| then Crash
      else
        var nonce := ChunkSecretBoxNonce(i);
        var h := suite.hash(PayloadHashInput(version, headerHash, nonce, ctext, isFinal));
        if PayloadAuthenticator(suite, macKey, h) != auths[position] then Refused(Rejected(BadTag(i + 1)))
        else
          match suite.open(payloadKey, nonce, ctext)
          case Absent => Refused(Rejected(BadCiphertext(i + 1)))
          case Present(data) => Accepted(Chunk(data, isFinal))
    }

    /** verifyStream.processBlock. */
    function Verify(suite: Suite, i: nat, sig: bytes, chunk: bytes, isFinal: bool): Next
      requires Verifying? && i < TWO_64
    {
      if suite.verify(publicKey, AttachedSignatureInput(suite, version, headerHash, chunk, i, isFinal), sig)
      then Accepted(Chunk(chunk, isFinal)) else Refused(Rejected(BadSignature))
    }

    /** signcryptOpenStream.processBlock. */
    function Open(suite: Suite, i: nat, ctext: bytes, isFinal: bool): Next
      requires Opening? && i < TWO_64
    {
      if i >= TWO_64 - 1 then Refused(Rejected(PacketOverflow))
      else
        var nonce := FlaggedNonce(headerHash, isFinal, i);
        match suite.open(payloadKey, nonce, ctext)
        case Absent => Refused(Rejected(BadCiphertext(i + 1)))
        case Present(attached) =>
          if |attached| < SIGNATURE_SIZE then Refused(Rejected(BadCiphertext(i + 1)))
          else
            var sig, chunk := attached[..SIGNATURE_SIZE], attached[SIGNATURE_SIZE..];
            if sender.Absent?
               || suite.verify(sender.value, SigncryptionSignatureInput(suite, headerHash, nonce, isFinal, chunk), sig)
            then Accepted(Chunk(chunk, isFinal)) else Refused(Rejected(BadSignature))
    }
  }

  /** A packet crashes a receiver exactly if it decrypts, the packet is a block of its version with a number
      in range, and the block has no authenticator at the receiver's place. */
  lemma CrashesIff(suite: Suite, o: Opener, i: nat, p: Packet)
    requires i < TWO_64
    ensures o.Process(suite, i, p).Crash? <==>
      && o.Decrypting? && i < TWO_64 - 1
      && (if o.version == V1 then p.EncryptionBlockV1? else p.EncryptionBlockV2?)
      && |p.authenticators| <= o.position
  {
    hide BE64, PayloadHashInput, PayloadAuthenticator, AttachedSignatureInput, SigncryptionSignatureInput;
  }

  /** What a refusal says: the last number is refused where numbers are counted; a bad tag or box is named by
      its sequence number, which is one more than the block's; and a signature is only at fault where one is
      checked. */
  lemma RefusedPacket(suite: Suite, o: Opener, i: nat, p: Packet)
    requires i < TWO_64
    ensures var r := o.Process(suite, i, p);
      && (r.Accepted? && !o.Verifying? ==> i < TWO_64 - 1)
      && (r == Refused(Rejected(PacketOverflow)) ==> i == TWO_64 - 1 && !o.Verifying?)
      && (forall n :: r == Refused(Rejected(BadTag(n))) ==> n == i + 1 && o.Decrypting? && o.position < |p.authenticators|)
      && (forall n :: r == Refused(Rejected(BadCiphertext(n))) ==> n == i + 1 && !o.Verifying?)
      && (r == Refused(Rejected(BadSignature)) ==> o.Verifying? || (o.Opening? && o.sender.Present?))
  {
    hide BE64, PayloadHashInput, PayloadAuthenticator, AttachedSignatureInput, SigncryptionSignatureInput;
  }

  /** The receiver holds the keys that the sender used. */
  ghost predicate Matches(suite: Suite, s: Sealer, o: Opener) {
    match (s, o)
    case (Encrypting(v, k, h, macKeys), Decrypting(w, l, g, macKey, position)) =>
      v == w && k == l && h == g && position < |macKeys| && macKeys[position] == macKey
    case (Signing(v, h, secretKey), Verifying(w, g, publicKey)) =>
      v == w && h == g && publicKey == suite.signPublic(secretKey)
    case (Signcrypting(k, h, signingKey), Opening(l, g, sender)) =>
      k == l && h == g
      && sender == (if signingKey.Absent? then Absent else Present(suite.signPublic(signingKey.value)))
    case _ => false
  }

  /** A chunk that was sealed is opened again, in every mode and version. V1 carries no flag, so there
      the flag has to be what emptiness says. */
  lemma OpensSealed(suite: Suite, s: Sealer, o: Opener, i: nat, c: Chunk)
    requires suite.Correct() && Matches(suite, s, o)
    requires i < TWO_64 && (s.Counted() ==> i < TWO_64 - 1)
    requires s.Ver() == V1 ==> c.isFinal == (c.data == [])
    ensures o.Process(suite, i, s.Seal(suite, i, c)) == Accepted(c)
  {
    match s
    case Encrypting(_, _, _, _) => DecryptsSealed(suite, s, o, i, c);
    case Signing(_, _, _) =>
    case Signcrypting(_, _, _) => OpensSigncrypted(suite, s, o, i, c);
  }

  lemma DecryptsSealed(suite: Suite, s: Sealer, o: Opener, i: nat, c: Chunk)
    requires suite.Correct() && Matches(suite, s, o) && s.Encrypting? && i < TWO_64 - 1
    requires s.Ver() == V1 ==> c.isFinal == (c.data == [])
    ensures o.Process(suite, i, s.Seal(suite, i, c)) == Accepted(c)
  {
    hide BE64, PayloadHashInput, PayloadAuthenticator;
    var nonce := ChunkSecretBoxNonce(i);
    var ctext := suite.seal(s.payloadKey, nonce, c.data);
    assert suite.open(s.payloadKey, nonce, ctext) == Present(c.data) && |ctext| == |c.data| + OVERHEAD;
  }

  lemma OpensSigncrypted(suite: Suite, s: Sealer, o: Opener, i: nat, c: Chunk)
    requires suite.Correct() && Matches(suite, s, o) && s.Signcrypting? && i < TWO_64 - 1
    ensures o.Process(suite, i, s.Seal(suite, i, c)) == Accepted(c)
  {
    hide BE64, SigncryptionSignatureInput;
    var nonce := FlaggedNonce(s.headerHash, c.isFinal, i);
    var sig := s.AttachedSig(suite, nonce, c);
    var attached := sig + c.data;
    assert suite.open(s.payloadKey, nonce, suite.seal(s.payloadKey, nonce, attached)) == Present(attached);
    assert attached[..SIGNATURE_SIZE] == sig && attached[SIGNATURE_SIZE..] == c.data;
  }
}
