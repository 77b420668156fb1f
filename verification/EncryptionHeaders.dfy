/** The header of an encrypted message: made by the sender (encrypt.go, init) and read by a receiver
    (decrypt.go, processHeader). */
module EncryptionHeaders {
  import opened Bytes
  import opened Nonces
  import opened Packets
  import opened OpenStream
  import Random
  import F = Frame

  // ---- the header ----

  datatype ReceiverKeys = ReceiverKeys(kid: bytes, payloadKeyBox: bytes)

  datatype Header = Header(major: int, typ: F.MessageType, ephemeral: bytes, senderSecretbox: bytes,
                           receivers: seq<ReceiverKeys>)

  /** The MessagePack encoding of headers, whose arrays have fewer than 2^32 elements. */
  datatype Codec = Codec(encode: Header -> bytes, decode: bytes -> Option<Header>) {
    ghost predicate Correct() {
      && (forall h: Header :: |h.receivers| <= MAX_RECEIVERS ==> decode(encode(h)) == Present(h))
      && (forall b :: decode(b).Present? ==> |decode(b).value.receivers| <= MAX_RECEIVERS)
    }
  }

  lemma HeaderDecodes(codec: Codec, h: Header)
    requires codec.Correct() && |h.receivers| <= MAX_RECEIVERS
    ensures codec.decode(codec.encode(h)) == Present(h)
  {
  }

  /** A public key, whose ID is the key, and whether it asks not to be named in the header. */
  datatype BoxPublicKey = BoxPublicKey(kid: bytes, hideIdentity: bool)

  const MAX_RECEIVERS := 0xffff_ffff

  function Major(version: Version): int {
    match version
    case V1 => 1
    case V2 => 2
  }

  // ---- MAC keys ----

  function Zeroes(n: nat): (r: bytes)
    ensures |r| == n
  {
    seq(n, _ => 0)
  }

  function MACKeySingle(suite: Suite, secret: bytes, public: bytes, nonce: Nonce): (r: bytes)
    requires suite.Correct()
    ensures |r| == KEY_SIZE
  {
    suite.box(secret, public, nonce, Zeroes(KEY_SIZE))[OVERHEAD..OVERHEAD + KEY_SIZE]
  }

  function Sum512Truncate256(suite: Suite, x: bytes): bytes {
    suite.hash(x)[..32]
  }

  /** computeMACKeySender. */
  function MACKeySender(suite: Suite, version: Version, index: nat, secret: bytes, eSecret: bytes, public: bytes,
                        headerHash: Digest): bytes
    requires suite.Correct() && index < TWO_64
  {
    match version
    case V1 => MACKeySingle(suite, secret, public, headerHash[..24])
    case V2 =>
      Sum512Truncate256(suite, MACKeySingle(suite, secret, public, FlaggedNonce(headerHash, false, index))
                               + MACKeySingle(suite, eSecret, public, FlaggedNonce(headerHash, true, index)))
  }

  /** computeMACKeyReceiver. */
  function MACKeyReceiver(suite: Suite, version: Version, index: nat, secret: bytes, public: bytes, ePublic: bytes,
                          headerHash: Digest): bytes
    requires suite.Correct() && index < TWO_64
  {
    match version
    case V1 => MACKeySingle(suite, secret, public, headerHash[..24])
    case V2 =>
      Sum512Truncate256(suite, MACKeySingle(suite, secret, public, FlaggedNonce(headerHash, false, index))
                               + MACKeySingle(suite, secret, ePublic, FlaggedNonce(headerHash, true, index)))
  }

  /** The two sides compute the same MAC key. */
  lemma MACKeysAgree(suite: Suite, version: Version, index: nat, sender: bytes, ephemeral: bytes, receiver: bytes, h: Digest)
    requires suite.Correct() && index < TWO_64
    ensures MACKeySender(suite, version, index, sender, ephemeral, suite.boxPublic(receiver), h)
         == MACKeyReceiver(suite, version, index, receiver, suite.boxPublic(sender), suite.boxPublic(ephemeral), h)
  {
    hide FlaggedNonce;
  }

  // ---- sending ----

  /** checkEncryptReceivers: at least one receiver, not too many, and none twice. */
  method CheckEncryptReceivers(receivers: seq<BoxPublicKey>) returns (err: Err)
    ensures err == None <==> GoodReceivers(receivers)
    ensures err != None ==>
      || err == Rejected(BadReceivers)
      || exists i, j :: 0 <= i < j < |receivers| && receivers[i].kid == receivers[j].kid
                        && err == Rejected(RepeatedKey(receivers[j].kid))
  {
    if |receivers| == 0 || |receivers| > MAX_RECEIVERS {
      return Rejected(BadReceivers);
    }
    var receiverSet: set<bytes> := {};
    for j := 0 to |receivers|
      invariant forall k :: k in receiverSet <==> exists i :: 0 <= i < j && receivers[i].kid == k
      invariant forall i, k :: 0 <= i < k < j ==> receivers[i].kid != receivers[k].kid
    {
      if receivers[j].kid in receiverSet {
        return Rejected(RepeatedKey(receivers[j].kid));
      }
      receiverSet := receiverSet + {receivers[j].kid};
    }
    return None;
  }

  /** The receivers that a message can be made for. */
  predicate GoodReceivers(receivers: seq<BoxPublicKey>) {
    && 0 < |receivers| <= MAX_RECEIVERS
    && forall i, j :: 0 <= i < j < |receivers| ==> receivers[i].kid != receivers[j].kid
  }

  /** The header entry of receiver `i`. */
  function EntryFor(suite: Suite, version: Version, ephemeral: bytes, payloadKey: bytes, r: BoxPublicKey, i: nat): ReceiverKeys
    requires i < TWO_64
  {
    ReceiverKeys(if r.hideIdentity then [] else r.kid, suite.box(ephemeral, r.kid, PayloadKeyBoxNonce(version, i), payloadKey))
  }

  function MakeHeader(suite: Suite, version: Version, sender: bytes, ephemeral: bytes, payloadKey: bytes,
                      receivers: seq<BoxPublicKey>): Header
    requires |receivers| <= MAX_RECEIVERS
  {
    Header(Major(version), F.Encryption, suite.boxPublic(ephemeral),
           suite.seal(payloadKey, SenderKeySecretBoxNonce(), suite.boxPublic(sender)),
           seq(|receivers|, i requires 0 <= i < |receivers| =>
             EntryFor(suite, version, ephemeral, payloadKey, receivers[i], i)))
  }

  /** What is in a header: version, type and public keys, the sender's key under its own nonce, and for each
      receiver its ID, unless it is hidden, and the payload key. In version 2 every receiver's box has a
      nonce of its own, which spells the receiver's place. */
  lemma HeaderSays(suite: Suite, version: Version, sender: bytes, ephemeral: bytes, payloadKey: bytes,
                   receivers: seq<BoxPublicKey>) returns (nonces: seq<Nonce>)
    requires |receivers| <= MAX_RECEIVERS
    ensures var h := MakeHeader(suite, version, sender, ephemeral, payloadKey, receivers);
      && h.major == (if version == V1 then 1 else 2) && h.typ == F.Encryption && h.ephemeral == suite.boxPublic(ephemeral)
      && h.senderSecretbox == suite.seal(payloadKey, Ascii("saltpack_sender_key_sbox"), suite.boxPublic(sender))
      && |h.receivers| == |nonces| == |receivers|
      && (forall i :: 0 <= i < |receivers| ==>
            && h.receivers[i].kid == (if receivers[i].hideIdentity then [] else receivers[i].kid)
            && h.receivers[i].payloadKeyBox == suite.box(ephemeral, receivers[i].kid, nonces[i], payloadKey)
            && (version == V1 ==> nonces[i] == Ascii("saltpack_payload_key_box"))
            && (version == V2 ==> Counts(nonces[i], "saltpack_recipsb", i)))
      && (version == V2 ==> AllDistinct(nonces))
  {
    hide Counts, PayloadKeyBoxNonce;
    nonces := seq(|receivers|, i requires 0 <= i < |receivers| => PayloadKeyBoxNonce(version, i));
    forall i | 0 <= i < |receivers|
      ensures version == V1 ==> nonces[i] == Ascii("saltpack_payload_key_box")
      ensures version == V2 ==> Counts(nonces[i], "saltpack_recipsb", i)
    {
      PayloadKeyBoxNonceIs(i);
    }
    if version == V2 {
      forall i, j | 0 <= i < j < |nonces| ensures nonces[i] != nonces[j] {
        CountsApart(nonces[i], nonces[j], "saltpack_recipsb", i, j);
      }
    }
  }

  lemma CountsApart(n: Nonce, m: Nonce, front: string, i: nat, j: nat)
    requires |front| == 16 && forall k :: 0 <= k < |front| ==> front[k] < 128 as char
    requires Counts(n, front, i) && Counts(m, front, j) && i != j
    ensures n != m
  {
  }

  /** What a receiver's MAC key is made of: in version 1 the front of a box of zeroes under the header hash,
      in version 2 the hash of two such fronts, of a box by the sender and one by the ephemeral key, under
      nonces that differ in a flag and spell the receiver's place. */
  lemma MACKeySays(suite: Suite, version: Version, index: nat, secret: bytes, eSecret: bytes, public: bytes, h: Digest)
    returns (n: Nonce, e: Nonce)
    requires suite.Correct() && index < TWO_64
    ensures var zeroes: bytes := seq(32, _ => 0);
      var key := MACKeySender(suite, version, index, secret, eSecret, public, h);
      if version == V1 then n == h[..24] && key == suite.box(secret, public, n, zeroes)[16..48]
      else
        && CountsFlagged(n, h, false, index) && CountsFlagged(e, h, true, index)
        && key == suite.hash(suite.box(secret, public, n, zeroes)[16..48] + suite.box(eSecret, public, e, zeroes)[16..48])[..32]
  {
    hide CountsFlagged, FlaggedNonce;
    assert Zeroes(KEY_SIZE) == seq(32, _ => 0);
    n, e := if version == V1 then h[..24] else FlaggedNonce(h, false, index), FlaggedNonce(h, true, index);
    FlaggedCounts(h, false, index);
    FlaggedCounts(h, true, index);
  }

  /** The sender's stream for a header. */
  function SealerFor(suite: Suite, codec: Codec, version: Version, sender: bytes, ephemeral: bytes, payloadKey: bytes,
                     receivers: seq<BoxPublicKey>): Sealer
    requires suite.Correct() && |receivers| <= MAX_RECEIVERS
  {
    var h := suite.hash(codec.encode(MakeHeader(suite, version, sender, ephemeral, payloadKey, receivers)));
    Encrypting(version, payloadKey, h, seq(|receivers|, i requires 0 <= i < |receivers| =>
      MACKeySender(suite, version, i, sender, ephemeral, receivers[i].kid, h)))
  }

  /** encryptStream.init: the receivers shuffled, the header packet, and the MAC keys. It fails exactly for
      bad receivers or too little randomness. A missing sender key means that the ephemeral one takes its
      place. Shuffling 2^31 receivers or more panics. */
  method Init(suite: Suite, codec: Codec, version: Version, senderKey: Option<bytes>, receivers: seq<BoxPublicKey>,
              ephemeral: bytes, payloadKey: bytes, csprng: Random.Csprng)
    returns (sealer: Sealer, header: Packet, shuffled: seq<BoxPublicKey>, err: Err)
    requires suite.Correct() && |receivers| < 0x8000_0000
    modifies csprng
    ensures err == None <==> GoodReceivers(receivers) && Random.Shuffled(receivers, old(csprng.draws)).Present?
    ensures err == None ==>
      && Present(shuffled) == Random.Shuffled(receivers, old(csprng.draws))
      && multiset(shuffled) == multiset(receivers) && GoodReceivers(shuffled)
      && (var sender := if senderKey.Absent? then ephemeral else senderKey.value;
        && header == HeaderPacket(codec.encode(MakeHeader(suite, version, sender, ephemeral, payloadKey, shuffled)))
        && sealer == SealerFor(suite, codec, version, sender, ephemeral, payloadKey, shuffled))
  {
    hide Suite.Correct, MACKeySender, EntryFor, GoodReceivers, Random.Shuffled;
    sealer, header, shuffled := Signing(V1, Zeroes(64), []), Foreign, [];
    err := CheckEncryptReceivers(receivers);
    if err != None {
      return;
    }
    shuffled, err := Random.ShuffleReceivers(csprng, receivers);
    if err != None {
      return;
    }
    ShuffledDistinct(receivers, shuffled);
    var sender := if senderKey.Absent? then ephemeral else senderKey.value;
    var box := suite.seal(payloadKey, SenderKeySecretBoxNonce(), suite.boxPublic(sender));
    var entries := Entries(suite, version, ephemeral, payloadKey, shuffled);
    var eh := Header(Major(version), F.Encryption, suite.boxPublic(ephemeral), box, entries);
    assert eh == MakeHeader(suite, version, sender, ephemeral, payloadKey, shuffled);
    header := HeaderPacket(codec.encode(eh));
    var h := suite.hash(header.headerBytes);
    var macKeys := MACKeysSender(suite, version, sender, ephemeral, shuffled, h);
    sealer := Encrypting(version, payloadKey, h, macKeys);
  }

  /** The header entries, receiver by receiver. */
  method Entries(suite: Suite, version: Version, ephemeral: bytes, payloadKey: bytes, receivers: seq<BoxPublicKey>)
    returns (entries: seq<ReceiverKeys>)
    requires |receivers| <= MAX_RECEIVERS
    ensures entries == seq(|receivers|, i requires 0 <= i < |receivers| =>
      EntryFor(suite, version, ephemeral, payloadKey, receivers[i], i))
  {
    hide EntryFor;
    entries := [];
    for i := 0 to |receivers|
      invariant |entries| == i
      invariant forall k :: 0 <= k < i ==> entries[k] == EntryFor(suite, version, ephemeral, payloadKey, receivers[k], k)
    {
      entries := entries + [EntryFor(suite, version, ephemeral, payloadKey, receivers[i], i)];
    }
  }

  method MACKeysSender(suite: Suite, version: Version, sender: bytes, ephemeral: bytes, receivers: seq<BoxPublicKey>,
                       h: Digest) returns (macKeys: seq<bytes>)
    requires suite.Correct() && |receivers| <= MAX_RECEIVERS
    ensures macKeys == seq(|receivers|, i requires 0 <= i < |receivers| =>
      MACKeySender(suite, version, i, sender, ephemeral, receivers[i].kid, h))
  {
    hide MACKeySender;
    macKeys := [];
    for i := 0 to |receivers|
      invariant |macKeys| == i
      invariant forall k :: 0 <= k < i ==> macKeys[k] == MACKeySender(suite, version, k, sender, ephemeral, receivers[k].kid, h)
    {
      macKeys := macKeys + [MACKeySender(suite, version, i, sender, ephemeral, receivers[i].kid, h)];
    }
  }

  lemma ShuffledDistinct(a: seq<BoxPublicKey>, b: seq<BoxPublicKey>)
    requires multiset(a) == multiset(b) && GoodReceivers(a)
    ensures GoodReceivers(b) && |b| <= MAX_RECEIVERS
  {
    assert |multiset(a)| == |a| && |multiset(b)| == |b|;
    assert Random.Distinct(a);
    Random.PermutationDistinct(a, b);
    forall i, j | 0 <= i < j < |b| ensures b[i].kid != b[j].kid {
      assert b[i] in multiset(b) && b[j] in multiset(b);
      assert b[i] in a && b[j] in a && b[i] != b[j];
    }
  }
}
