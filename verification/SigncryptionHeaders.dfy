/** The header of a signcrypted message: made by the sender (signcrypt_seal.go) and read by a receiver
    (signcrypt_open.go). Receivers hold a box key or a shared symmetric key; both kinds of entries look
    alike. */
module SigncryptionHeaders {
  import opened Bytes
  import opened Nonces
  import opened Chunks
  import opened Packets
  import opened SealStream
  import opened OpenStream
  import opened EncryptionHeaders
  import opened Message
  import Random
  import F = Frame

  const SYMMETRIC_KEY_CONTEXT := Ascii("saltpack signcryption derived symmetric key")
  const BOX_KEY_IDENTIFIER_CONTEXT := Ascii("saltpack signcryption box key identifier")

  // ---- derived keys ----

  /** derivedEphemeralKeyFromBoxKeys. */
  function DerivedKey(suite: Suite, public: bytes, private: bytes): bytes
    requires suite.Correct()
  {
    suite.box(private, public, DerivedSharedKeyNonce(), Zeroes(KEY_SIZE))[OVERHEAD..]
  }

  /** keyIdentifierFromDerivedKey. */
  function KeyIdentifier(suite: Suite, derivedKey: bytes, i: nat): bytes
    requires i < TWO_64
  {
    suite.hmac(BOX_KEY_IDENTIFIER_CONTEXT, derivedKey + PayloadKeyBoxNonceV2(i))[..32]
  }

  /** The key of a symmetric receiver for one message. */
  function DerivedSymmetricKey(suite: Suite, ephemeralPublic: bytes, key: bytes): bytes {
    suite.hmac(SYMMETRIC_KEY_CONTEXT, ephemeralPublic + key)[..32]
  }

  /** Both sides of a box derive the same key. */
  lemma DerivedKeysAgree(suite: Suite, ephemeral: bytes, sk: bytes)
    requires suite.Correct()
    ensures DerivedKey(suite, suite.boxPublic(sk), ephemeral) == DerivedKey(suite, suite.boxPublic(ephemeral), sk)
  {
  }

  // ---- sending ----

  datatype Receiver = BoxReceiver(kid: bytes) | SymmetricReceiver(key: bytes, identifier: bytes) {

    /** What the header must not repeat. */
    function Name(): bytes {
      if BoxReceiver? then kid else identifier
    }

    function Derived(suite: Suite, ephemeral: bytes): bytes
      requires suite.Correct()
    {
      match this
      case BoxReceiver(kid) => DerivedKey(suite, kid, ephemeral)
      case SymmetricReceiver(key, _) => DerivedSymmetricKey(suite, suite.boxPublic(ephemeral), key)
    }

    /** makeReceiverKeys. */
    function Entry(suite: Suite, ephemeral: bytes, payloadKey: bytes, i: nat): ReceiverKeys
      requires suite.Correct() && i < TWO_64
    {
      var derived := Derived(suite, ephemeral);
      ReceiverKeys(if BoxReceiver? then KeyIdentifier(suite, derived, i) else identifier,
                   suite.seal(derived, PayloadKeyBoxNonceV2(i), payloadKey))
    }
  }

  /** checkSigncryptReceiverCount, in which the sum is formed only once both counts are small. */
  function CheckReceiverCount(c1: nat, c2: nat): (err: Err)
    ensures err == None <==> 0 < c1 + c2 <= MAX_RECEIVERS
  {
    if c1 > MAX_RECEIVERS || c2 > MAX_RECEIVERS then Rejected(BadReceivers)
    else if c1 + c2 <= 0 || c1 + c2 > MAX_RECEIVERS then Rejected(BadReceivers)
    else None
  }

  /** checkSigncryptReceivers: the right number of receivers, and no name twice. */
  method CheckSigncryptReceivers(boxKeys: seq<bytes>, symmetricKeys: seq<Receiver>) returns (err: Err)
    requires forall r :: r in symmetricKeys ==> r.SymmetricReceiver?
    ensures err == None <==> GoodNames(AllReceivers(boxKeys, symmetricKeys))
    ensures err == None <==>
      && 0 < |boxKeys| + |symmetricKeys| <= MAX_RECEIVERS
      && (forall i, j :: 0 <= i < j < |boxKeys| ==> boxKeys[i] != boxKeys[j])
      && (forall i, j :: 0 <= i < j < |symmetricKeys| ==> symmetricKeys[i].identifier != symmetricKeys[j].identifier)
      && (forall i, j :: 0 <= i < |boxKeys| && 0 <= j < |symmetricKeys| ==> boxKeys[i] != symmetricKeys[j].identifier)
    ensures err != None ==>
      || err == Rejected(BadReceivers)
      || exists i, j :: 0 <= i < j < |AllReceivers(boxKeys, symmetricKeys)|
                        && AllReceivers(boxKeys, symmetricKeys)[i].Name() == AllReceivers(boxKeys, symmetricKeys)[j].Name()
                        && err == Rejected(RepeatedKey(AllReceivers(boxKeys, symmetricKeys)[j].Name()))
  {
    NamesApart(boxKeys, symmetricKeys);
    err := CheckReceiverCount(|boxKeys|, |symmetricKeys|);
    if err != None {
      return;
    }
    var rs := AllReceivers(boxKeys, symmetricKeys);
    var receiverSet: set<bytes> := {};
    for j := 0 to |rs|
      invariant forall k :: k in receiverSet <==> exists i :: 0 <= i < j && rs[i].Name() == k
      invariant forall i, k :: 0 <= i < k < j ==> rs[i].Name() != rs[k].Name()
    {
      if rs[j].Name() in receiverSet {
        return Rejected(RepeatedKey(rs[j].Name()));
      }
      receiverSet := receiverSet + {rs[j].Name()};
    }
    return None;
  }

  function AllReceivers(boxKeys: seq<bytes>, symmetricKeys: seq<Receiver>): seq<Receiver> {
    seq(|boxKeys|, i requires 0 <= i < |boxKeys| => BoxReceiver(boxKeys[i])) + symmetricKeys
  }

  /** All names differ if those of either kind do, and none of one kind is one of the other's. */
  lemma NamesApart(boxKeys: seq<bytes>, symmetricKeys: seq<Receiver>)
    requires forall r :: r in symmetricKeys ==> r.SymmetricReceiver?
    ensures NamesDistinct(AllReceivers(boxKeys, symmetricKeys)) <==>
      && (forall i, j :: 0 <= i < j < |boxKeys| ==> boxKeys[i] != boxKeys[j])
      && (forall i, j :: 0 <= i < j < |symmetricKeys| ==> symmetricKeys[i].identifier != symmetricKeys[j].identifier)
      && (forall i, j :: 0 <= i < |boxKeys| && 0 <= j < |symmetricKeys| ==> boxKeys[i] != symmetricKeys[j].identifier)
  {
    hide Receiver.Name, AllReceivers;
    var rs, n := AllReceivers(boxKeys, symmetricKeys), |boxKeys|;
    NamesAre(boxKeys, symmetricKeys);
    if NamesDistinct(rs) {
      assert forall i, j :: 0 <= i < j < n ==> rs[i].Name() != rs[j].Name();
      forall i, j | 0 <= i < j < |symmetricKeys| ensures symmetricKeys[i].identifier != symmetricKeys[j].identifier {
        assert rs[n + i].Name() != rs[n + j].Name();
      }
      forall i, j | 0 <= i < n && 0 <= j < |symmetricKeys| ensures boxKeys[i] != symmetricKeys[j].identifier {
        assert rs[i].Name() != rs[n + j].Name();
      }
    }
    if !NamesDistinct(rs) {
      var i, j :| 0 <= i < j < |rs| && rs[i].Name() == rs[j].Name();
      assert i >= n ==> symmetricKeys[i - n].identifier == symmetricKeys[j - n].identifier;
      assert i < n <= j ==> boxKeys[i] == symmetricKeys[j - n].identifier;
    }
  }

  lemma NamesAre(boxKeys: seq<bytes>, symmetricKeys: seq<Receiver>)
    requires forall r :: r in symmetricKeys ==> r.SymmetricReceiver?
    ensures var rs, n := AllReceivers(boxKeys, symmetricKeys), |boxKeys|;
      && |rs| == n + |symmetricKeys|
      && forall i :: 0 <= i < |rs| ==> rs[i].Name() == if i < n then boxKeys[i] else symmetricKeys[i - n].identifier
  {
    assert forall j :: 0 <= j < |symmetricKeys| ==> symmetricKeys[j] in symmetricKeys;
  }

  predicate NamesDistinct(rs: seq<Receiver>) {
    forall i, j :: 0 <= i < j < |rs| ==> rs[i].Name() != rs[j].Name()
  }

  /** The receivers that a message can be made for. */
  predicate GoodNames(rs: seq<Receiver>) {
    0 < |rs| <= MAX_RECEIVERS && NamesDistinct(rs)
  }

  /** A signcrypted message as its sender made it; without a signing key it is anonymous. */
  datatype Sent = Sent(signingKey: Option<bytes>, ephemeral: bytes, payloadKey: bytes, receivers: seq<Receiver>) {

    ghost predicate Valid(suite: Suite) {
      suite.Correct() && |payloadKey| == KEY_SIZE && |receivers| <= MAX_RECEIVERS
    }

    /** An anonymous sender's key is all zeroes. */
    function SenderBytes(suite: Suite): bytes {
      if signingKey.Absent? then Zeroes(KEY_SIZE) else suite.signPublic(signingKey.value)
    }

    function Hdr(suite: Suite): Header
      requires suite.Correct() && |receivers| <= MAX_RECEIVERS
    {
      Header(2, F.Signcryption, suite.boxPublic(ephemeral),
             suite.seal(payloadKey, SenderKeySecretBoxNonce(), SenderBytes(suite)),
             seq(|receivers|, i requires 0 <= i < |receivers| => receivers[i].Entry(suite, ephemeral, payloadKey, i)))
    }

    function SealerOf(suite: Suite, codec: Codec): Sealer
      requires suite.Correct() && |receivers| <= MAX_RECEIVERS
    {
      Signcrypting(payloadKey, suite.hash(codec.encode(Hdr(suite))), signingKey)
    }
  }

  /** What is in a header: version, type and ephemeral key, the sender's key or zeroes, and for each receiver
      an identifier and the payload key under a key that is only this receiver's, with a nonce that spells
      its place. A box key's identifier is a MAC of that same nonce. */
  lemma HeaderSays(suite: Suite, m: Sent) returns (nonces: seq<Nonce>)
    requires m.Valid(suite)
    ensures var h, e := m.Hdr(suite), suite.boxPublic(m.ephemeral);
      && h.major == 2 && h.typ == F.Signcryption && h.ephemeral == e
      && h.senderSecretbox == suite.seal(m.payloadKey, Ascii("saltpack_sender_key_sbox"),
           if m.signingKey.Present? then suite.signPublic(m.signingKey.value) else seq(32, _ => 0))
      && |h.receivers| == |nonces| == |m.receivers| && AllDistinct(nonces)
      && forall i :: 0 <= i < |nonces| ==>
          Counts(nonces[i], "saltpack_recipsb", i) && EntrySays(suite, m, m.receivers[i], h.receivers[i], nonces[i])
  {
    hide Counts, PayloadKeyBoxNonceV2, Suite.Correct, EntrySays, Receiver.Entry;
    assert Zeroes(KEY_SIZE) == seq(32, _ => 0);
    nonces := seq(|m.receivers|, i requires 0 <= i < |m.receivers| => PayloadKeyBoxNonceV2(i));
    forall i | 0 <= i < |nonces| ensures Counts(nonces[i], "saltpack_recipsb", i) {
      PayloadKeyBoxNonceV2Is(i);
    }
    forall i | 0 <= i < |nonces| ensures EntrySays(suite, m, m.receivers[i], m.Hdr(suite).receivers[i], nonces[i]) {
      EntryIs(suite, m, i);
    }
    forall i, j | 0 <= i < j < |nonces| ensures nonces[i] != nonces[j] {
      CountsApart(nonces[i], nonces[j], "saltpack_recipsb", i, j);
    }
  }

  /** A receiver's entry under its nonce. */
  ghost predicate EntrySays(suite: Suite, m: Sent, r: Receiver, entry: ReceiverKeys, nonce: Nonce)
    requires suite.Correct()
  {
    match r
    case BoxReceiver(kid) => BoxEntrySays(suite, m, kid, entry, nonce)
    case SymmetricReceiver(shared, identifier) => entry.kid == identifier && SharedEntrySays(suite, m, shared, entry, nonce)
  }

  ghost predicate BoxEntrySays(suite: Suite, m: Sent, kid: bytes, entry: ReceiverKeys, nonce: Nonce)
    requires suite.Correct()
  {
    var key := BoxEntryKey(suite, m, kid);
    && entry.payloadKeyBox == suite.seal(key, nonce, m.payloadKey)
    && entry.kid == suite.hmac(Ascii("saltpack signcryption box key identifier"), key + nonce)[..32]
  }

  /** What follows the overhead of a box of zeroes. */
  function BoxEntryKey(suite: Suite, m: Sent, kid: bytes): bytes
    requires suite.Correct()
  {
    var box := suite.box(m.ephemeral, kid, Ascii("saltpack_derived_sboxkey"), seq(32, _ => 0));
    if |box| >= 16 then box[16..] else []
  }

  ghost predicate SharedEntrySays(suite: Suite, m: Sent, shared: bytes, entry: ReceiverKeys, nonce: Nonce) {
    var key := suite.hmac(Ascii("saltpack signcryption derived symmetric key"), suite.boxPublic(m.ephemeral) + shared)[..32];
    entry.payloadKeyBox == suite.seal(key, nonce, m.payloadKey)
  }

  lemma EntryIs(suite: Suite, m: Sent, i: nat)
    requires m.Valid(suite) && i < |m.receivers|
    ensures EntrySays(suite, m, m.receivers[i], m.receivers[i].Entry(suite, m.ephemeral, m.payloadKey, i), PayloadKeyBoxNonceV2(i))
  {
    hide PayloadKeyBoxNonceV2;
    assert Zeroes(KEY_SIZE) == seq(32, _ => 0);
  }

  lemma PayloadKeyBoxNonceV2Is(i: nat)
    requires i < TWO_64
    ensures Counts(PayloadKeyBoxNonceV2(i), "saltpack_recipsb", i)
  {
    PayloadKeyBoxNonceIs(i);
  }

  /** signcryptSealStream.init, which fails exactly for bad receivers or too little randomness. Shuffling 2^31 receivers or more panics, and so does a signing key
      whose public key has not 32 bytes. */
  method Init(suite: Suite, codec: Codec, signingKey: Option<bytes>, boxKeys: seq<bytes>, symmetricKeys: seq<Receiver>,
              ephemeral: bytes, payloadKey: bytes, csprng: Random.Csprng)
    returns (sealer: Sealer, header: Packet, shuffled: seq<Receiver>, err: Err)
    requires suite.Correct() && |boxKeys| + |symmetricKeys| < 0x8000_0000
    requires forall r :: r in symmetricKeys ==> r.SymmetricReceiver?
    requires signingKey.Present? ==> |suite.signPublic(signingKey.value)| == KEY_SIZE
    modifies csprng
    ensures var rs := AllReceivers(boxKeys, symmetricKeys);
      && (err == None <==> GoodNames(rs) && Random.Shuffled(rs, old(csprng.draws)).Present?)
      && (err == None ==> Present(shuffled) == Random.Shuffled(rs, old(csprng.draws)) && multiset(shuffled) == multiset(rs))
    ensures err == None ==>
      && 0 < |shuffled| <= MAX_RECEIVERS
      && (var m := Sent(signingKey, ephemeral, payloadKey, shuffled);
        && header == HeaderPacket(codec.encode(m.Hdr(suite))) && sealer == m.SealerOf(suite, codec))
  {
    hide Suite.Correct, Receiver.Entry, Random.Shuffled, NamesDistinct, Sent.SenderBytes;
    sealer, header, shuffled := Signing(V1, Zeroes(64), []), Foreign, [];
    err := CheckSigncryptReceivers(boxKeys, symmetricKeys);
    if err != None {
      return;
    }
    var rs := AllReceivers(boxKeys, symmetricKeys);
    shuffled, err := Random.ShuffleReceivers(csprng, rs);
    if err != None {
      return;
    }
    SameLength(shuffled, rs);
    var m := Sent(signingKey, ephemeral, payloadKey, shuffled);
    var box := suite.seal(payloadKey, SenderKeySecretBoxNonce(), m.SenderBytes(suite));
    var entries: seq<ReceiverKeys> := [];
    for i := 0 to |shuffled|
      invariant |entries| == i
      invariant forall k :: 0 <= k < i ==> entries[k] == shuffled[k].Entry(suite, ephemeral, payloadKey, k)
    {
      entries := entries + [shuffled[i].Entry(suite, ephemeral, payloadKey, i)];
    }
    var eh := Header(2, F.Signcryption, suite.boxPublic(ephemeral), box, entries);
    assert eh == m.Hdr(suite);
    header := HeaderPacket(codec.encode(eh));
    sealer := Signcrypting(payloadKey, suite.hash(header.headerBytes), signingKey);
  }

  lemma SameLength(a: seq<Receiver>, b: seq<Receiver>)
    requires multiset(a) == multiset(b)
    ensures |a| == |b|
  {
    assert |multiset(a)| == |a| && |multiset(b)| == |b|;
  }

  // ---- receiving ----

  /** The application's resolver of identifiers: a key or nothing for each of them, or an error. */
  datatype Resolved = Keys(keys: seq<Option<bytes>>) | ResolverError(err: Err)

  datatype Keyring = Keyring(
    allBoxSecretKeys: seq<bytes>,
    resolver: Option<seq<bytes> -> Resolved>,
    knowsSigningPublicKey: bytes -> bool)

  datatype Attempt = Hit(payloadKey: bytes) | Miss | Bad(err: Err)

  /** Opening the payload key of entry `i` with a derived key that belongs to it. */
  function OpenEntry(suite: Suite, derived: bytes, r: ReceiverKeys, i: nat): (a: Attempt)
    requires i < TWO_64
    ensures !a.Miss?
  {
    match suite.open(derived, PayloadKeyBoxNonceV2(i), r.payloadKeyBox)
    case Absent => Bad(Rejected(DecryptionFailed))
    case Present(k) => if |k| != KEY_SIZE then Bad(Rejected(BadKeyLength)) else Hit(k)
  }

  /** Whether one of the derived keys, from `k` on, has entry `i`'s identifier, and what it opens. */
  function TryDerived(suite: Suite, derivedKeys: seq<bytes>, k: nat, r: ReceiverKeys, i: nat): Attempt
    requires i < TWO_64
    decreases |derivedKeys| - k
  {
    if k >= |derivedKeys| then Miss
    else if KeyIdentifier(suite, derivedKeys[k], i) == r.kid then OpenEntry(suite, derivedKeys[k], r, i)
    else TryDerived(suite, derivedKeys, k + 1, r, i)
  }

  /** The same for the entries from `i` on. */
  function TryBoxes(suite: Suite, derivedKeys: seq<bytes>, rs: seq<ReceiverKeys>, i: nat): Attempt
    requires |rs| <= MAX_RECEIVERS
    decreases |rs| - i
  {
    if i >= |rs| then Miss
    else
      match TryDerived(suite, derivedKeys, 0, rs[i], i)
      case Miss => TryBoxes(suite, derivedKeys, rs, i + 1)
      case a => a
  }

  function DerivedKeys(suite: Suite, ephemeral: bytes, sks: seq<bytes>): seq<bytes>
    requires suite.Correct()
  {
    seq(|sks|, k requires 0 <= k < |sks| => DerivedKey(suite, ephemeral, sks[k]))
  }

  /** tryBoxSecretKeys. */
  method TryBoxSecretKeys(suite: Suite, ring: Keyring, hdr: Header) returns (a: Attempt)
    requires suite.Correct() && |hdr.receivers| <= MAX_RECEIVERS
    ensures a == TryBoxes(suite, DerivedKeys(suite, hdr.ephemeral, ring.allBoxSecretKeys), hdr.receivers, 0)
  {
    hide Suite.Correct, DerivedKey, OpenEntry, KeyIdentifier;
    var sks, rs := ring.allBoxSecretKeys, hdr.receivers;
    var derivedKeys: seq<bytes> := [];
    for k := 0 to |sks|
      invariant |derivedKeys| == k && forall j :: 0 <= j < k ==> derivedKeys[j] == DerivedKey(suite, hdr.ephemeral, sks[j])
    {
      derivedKeys := derivedKeys + [DerivedKey(suite, hdr.ephemeral, sks[k])];
    }
    assert derivedKeys == DerivedKeys(suite, hdr.ephemeral, sks);
    hide DerivedKeys, TryDerived;
    for i := 0 to |rs|
      invariant TryBoxes(suite, derivedKeys, rs, 0) == TryBoxes(suite, derivedKeys, rs, i)
    {
      a := TryIdentifiers(suite, derivedKeys, rs[i], i);
      if !a.Miss? {
        return;
      }
    }
    return Miss;
  }

  /** tryBoxSecretKeys, one entry: computes the identifier that each derived key has for it. */
  method TryIdentifiers(suite: Suite, derivedKeys: seq<bytes>, r: ReceiverKeys, i: nat) returns (a: Attempt)
    requires i < TWO_64
    ensures a == TryDerived(suite, derivedKeys, 0, r, i)
  {
    hide OpenEntry, KeyIdentifier;
    for k := 0 to |derivedKeys|
      invariant TryDerived(suite, derivedKeys, 0, r, i) == TryDerived(suite, derivedKeys, k, r, i)
    {
      if KeyIdentifier(suite, derivedKeys[k], i) == r.kid {
        return OpenEntry(suite, derivedKeys[k], r, i);
      }
    }
    return Miss;
  }

  /** The first key that was resolved, from entry `i` on, and what it opens. */
  function TryResolved(suite: Suite, ephemeral: bytes, keys: seq<Option<bytes>>, rs: seq<ReceiverKeys>, i: nat): (a: Attempt)
    requires |keys| == |rs| <= MAX_RECEIVERS
    ensures a.Miss? <==> forall l :: i <= l < |rs| ==> keys[l].Absent?
    ensures !a.Miss? ==>
      exists l :: i <= l < |rs| && keys[l].Present?
                  && a == OpenEntry(suite, DerivedSymmetricKey(suite, ephemeral, keys[l].value), rs[l], l)
    decreases |rs| - i
  {
    if i >= |rs| then Miss
    else if keys[i].Absent? then TryResolved(suite, ephemeral, keys, rs, i + 1)
    else OpenEntry(suite, DerivedSymmetricKey(suite, ephemeral, keys[i].value), rs[i], i)
  }

  function Identifiers(rs: seq<ReceiverKeys>): seq<bytes> {
    seq(|rs|, i requires 0 <= i < |rs| => rs[i].kid)
  }

  function TryShared(suite: Suite, ring: Keyring, hdr: Header): Attempt
    requires |hdr.receivers| <= MAX_RECEIVERS
  {
    if ring.resolver.Absent? then Miss
    else
      match (ring.resolver.value)(Identifiers(hdr.receivers))
      case ResolverError(err) => Bad(err)
      case Keys(keys) =>
        if |keys| != |hdr.receivers| then Bad(Rejected(WrongNumberOfKeys))
        else TryResolved(suite, hdr.ephemeral, keys, hdr.receivers, 0)
  }

  /** trySharedSymmetricKeys. */
  method TrySharedSymmetricKeys(suite: Suite, ring: Keyring, hdr: Header) returns (a: Attempt)
    requires |hdr.receivers| <= MAX_RECEIVERS
    ensures a == TryShared(suite, ring, hdr)
  {
    hide OpenEntry, DerivedSymmetricKey;
    var rs := hdr.receivers;
    var identifiers: seq<bytes> := [];
    for i := 0 to |rs|
      invariant |identifiers| == i && forall k :: 0 <= k < i ==> identifiers[k] == rs[k].kid
    {
      identifiers := identifiers + [rs[i].kid];
    }
    assert identifiers == Identifiers(rs);
    if ring.resolver.Absent? {
      return Miss;
    }
    match (ring.resolver.value)(identifiers)
    case ResolverError(err) =>
      return Bad(err);
    case Keys(keys) =>
      if |keys| != |identifiers| {
        return Bad(Rejected(WrongNumberOfKeys));
      }
      for i := 0 to |rs|
        invariant TryResolved(suite, hdr.ephemeral, keys, rs, 0) == TryResolved(suite, hdr.ephemeral, keys, rs, i)
      {
        if keys[i].Present? {
          return OpenEntry(suite, DerivedSymmetricKey(suite, hdr.ephemeral, keys[i].value), rs[i], i);
        }
      }
      return Miss;
  }

  datatype Outcome = Good(opener: Opener) | Failure(err: Err)

  /** processHeader. */
  function Process(suite: Suite, ring: Keyring, hdr: Header, headerHash: Digest): Outcome
    requires suite.Correct() && |hdr.receivers| <= MAX_RECEIVERS
  {
    if hdr.typ != F.Signcryption then Failure(Rejected(WrongMessageType))
    else if hdr.major != 2 then Failure(Rejected(BadVersion(hdr.major)))
    else
      match Search(suite, ring, hdr)
      case Bad(err) => Failure(err)
      case Miss => Failure(Rejected(NoDecryptionKey))
      case Hit(payloadKey) => WithKey(suite, ring, hdr, headerHash, payloadKey)
  }

  /** Box keys first, then shared keys. */
  function Search(suite: Suite, ring: Keyring, hdr: Header): Attempt
    requires suite.Correct() && |hdr.receivers| <= MAX_RECEIVERS
  {
    match TryBoxes(suite, DerivedKeys(suite, hdr.ephemeral, ring.allBoxSecretKeys), hdr.receivers, 0)
    case Miss => TryShared(suite, ring, hdr)
    case a => a
  }

  /** processHeader, once the payload key is known: the sender's signing key. */
  function WithKey(suite: Suite, ring: Keyring, hdr: Header, headerHash: Digest, payloadKey: bytes): Outcome {
    match suite.open(payloadKey, SenderKeySecretBoxNonce(), hdr.senderSecretbox)
    case Absent => Failure(Rejected(BadSenderKeySecretbox))
    case Present(sender) =>
      if sender == Zeroes(|sender|) then Good(Opening(payloadKey, headerHash, Absent))
      else if !ring.knowsSigningPublicKey(sender) then Failure(Rejected(NoSenderKey(sender)))
      else Good(Opening(payloadKey, headerHash, Present(sender)))
  }

  /** The payload key is from entry `i`, under a key derived from one of the ring's box keys that has the
      entry's identifier, or from the key that was resolved for it. */
  ghost predicate KeyFrom(suite: Suite, ring: Keyring, hdr: Header, i: nat, payloadKey: bytes)
    requires suite.Correct() && |hdr.receivers| <= MAX_RECEIVERS
  {
    && i < |hdr.receivers|
    && ((exists sk :: sk in ring.allBoxSecretKeys && BoxKeyOpens(suite, hdr, i, sk, payloadKey))
        || (ring.resolver.Present?
            && (var r := (ring.resolver.value)(Identifiers(hdr.receivers));
                && r.Keys? && |r.keys| == |hdr.receivers| && r.keys[i].Present?
                && OpenEntry(suite, DerivedSymmetricKey(suite, hdr.ephemeral, r.keys[i].value), hdr.receivers[i], i) == Hit(payloadKey))))
  }

  ghost predicate BoxKeyOpens(suite: Suite, hdr: Header, i: nat, sk: bytes, payloadKey: bytes)
    requires suite.Correct() && i < |hdr.receivers| <= MAX_RECEIVERS
  {
    var key := DerivedKey(suite, hdr.ephemeral, sk);
    KeyIdentifier(suite, key, i) == hdr.receivers[i].kid && OpenEntry(suite, key, hdr.receivers[i], i) == Hit(payloadKey)
  }

  lemma {:induction false} DerivedHit(suite: Suite, keys: seq<bytes>, k: nat, r: ReceiverKeys, i: nat) returns (j: nat)
    requires i < TWO_64 && TryDerived(suite, keys, k, r, i).Hit?
    ensures k <= j < |keys| && KeyIdentifier(suite, keys[j], i) == r.kid
    ensures OpenEntry(suite, keys[j], r, i) == TryDerived(suite, keys, k, r, i)
    decreases |keys| - k
  {
    hide KeyIdentifier, OpenEntry;
    j := k;
    if KeyIdentifier(suite, keys[k], i) != r.kid {
      j := DerivedHit(suite, keys, k + 1, r, i);
    }
  }

  lemma {:induction false} BoxesHit(suite: Suite, keys: seq<bytes>, rs: seq<ReceiverKeys>, i: nat) returns (l: nat, j: nat)
    requires |rs| <= MAX_RECEIVERS && TryBoxes(suite, keys, rs, i).Hit?
    ensures i <= l < |rs| && j < |keys| && KeyIdentifier(suite, keys[j], l) == rs[l].kid
    ensures OpenEntry(suite, keys[j], rs[l], l) == TryBoxes(suite, keys, rs, i)
    decreases |rs| - i
  {
    hide KeyIdentifier, OpenEntry, TryDerived;
    l, j := i, 0;
    if TryDerived(suite, keys, 0, rs[i], i).Miss? {
      l, j := BoxesHit(suite, keys, rs, i + 1);
    } else {
      j := DerivedHit(suite, keys, 0, rs[i], i);
    }
  }

  lemma FoundKey(suite: Suite, ring: Keyring, hdr: Header) returns (i: nat)
    requires suite.Correct() && |hdr.receivers| <= MAX_RECEIVERS && Search(suite, ring, hdr).Hit?
    ensures KeyFrom(suite, ring, hdr, i, Search(suite, ring, hdr).payloadKey) && |Search(suite, ring, hdr).payloadKey| == 32
  {
    hide KeyIdentifier, DerivedKey, DerivedSymmetricKey, TryBoxes, Suite.Correct, PayloadKeyBoxNonceV2;
    var keys := DerivedKeys(suite, hdr.ephemeral, ring.allBoxSecretKeys);
    if TryBoxes(suite, keys, hdr.receivers, 0).Hit? {
      var j;
      i, j := BoxesHit(suite, keys, hdr.receivers, 0);
      assert BoxKeyOpens(suite, hdr, i, ring.allBoxSecretKeys[j], Search(suite, ring, hdr).payloadKey);
    } else {
      var r := (ring.resolver.value)(Identifiers(hdr.receivers)).keys;
      i :| 0 <= i < |r| && r[i].Present? && TryShared(suite, ring, hdr)
             == OpenEntry(suite, DerivedSymmetricKey(suite, hdr.ephemeral, r[i].value), hdr.receivers[i], i);
    }
  }

  /** What an accepted header was like: of its type and version, with a payload key that one of its entries
      holds and that opens the sender's box; the sender is anonymous if that holds zeroes, and otherwise
      known. Headers of other types and versions are refused, and so are unknown senders. */
  lemma AcceptedHeader(suite: Suite, ring: Keyring, hdr: Header, headerHash: Digest)
    requires suite.Correct() && |hdr.receivers| <= MAX_RECEIVERS
    ensures var o := Process(suite, ring, hdr, headerHash);
      && (hdr.typ != F.Signcryption ==> o == Failure(Rejected(WrongMessageType)))
      && (hdr.typ == F.Signcryption && hdr.major != 2 ==> o == Failure(Rejected(BadVersion(hdr.major))))
      && (o.Good? ==>
            && o.opener.Opening? && o.opener.headerHash == headerHash && |o.opener.payloadKey| == 32
            && (exists i :: KeyFrom(suite, ring, hdr, i, o.opener.payloadKey))
            && SenderIs(suite, ring, hdr, o.opener.payloadKey, o.opener.sender))
  {
    hide Suite.Correct, WithKey, Search, KeyFrom, SenderIs;
    if Process(suite, ring, hdr, headerHash).Good? {
      var i := FoundKey(suite, ring, hdr);
      SenderFound(suite, ring, hdr, headerHash, Search(suite, ring, hdr).payloadKey);
    }
  }

  /** The sender that a header names, under its payload key. */
  ghost predicate SenderIs(suite: Suite, ring: Keyring, hdr: Header, payloadKey: bytes, sender: Option<bytes>) {
    var key := suite.open(payloadKey, Ascii("saltpack_sender_key_sbox"), hdr.senderSecretbox);
    && key.Present?
    && if forall k :: 0 <= k < |key.value| ==> key.value[k] == 0 then sender.Absent?
       else sender == key && ring.knowsSigningPublicKey(key.value)
  }

  lemma SenderFound(suite: Suite, ring: Keyring, hdr: Header, headerHash: Digest, payloadKey: bytes)
    ensures var o := WithKey(suite, ring, hdr, headerHash, payloadKey);
      o.Good? ==>
        && o.opener.Opening? && o.opener.headerHash == headerHash && o.opener.payloadKey == payloadKey
        && SenderIs(suite, ring, hdr, payloadKey, o.opener.sender)
  {
    var key := suite.open(payloadKey, SenderKeySecretBoxNonce(), hdr.senderSecretbox);
    if key.Present? && forall k :: 0 <= k < |key.value| ==> key.value[k] == 0 {
      assert key.value == Zeroes(|key.value|);
    }
  }

  method ProcessHeader(suite: Suite, ring: Keyring, hdr: Header, headerHash: Digest) returns (o: Outcome)
    requires suite.Correct() && |hdr.receivers| <= MAX_RECEIVERS
    ensures o == Process(suite, ring, hdr, headerHash)
  {
    hide TryBoxes, TryShared, DerivedKeys, Suite.Correct;
    if hdr.typ != F.Signcryption {
      return Failure(Rejected(WrongMessageType));
    }
    if hdr.major != 2 {
      return Failure(Rejected(BadVersion(hdr.major)));
    }
    var a := TryBoxSecretKeys(suite, ring, hdr);
    if a.Bad? {
      return Failure(a.err);
    }
    if a.Miss? {
      a := TrySharedSymmetricKeys(suite, ring, hdr);
      if a.Bad? {
        return Failure(a.err);
      }
    }
    if a.Miss? {
      return Failure(Rejected(NoDecryptionKey));
    }
    o := WithKey(suite, ring, hdr, headerHash, a.payloadKey);
  }

  // ---- agreement ----

  /** One of the ring's keys, from `k` on, is the key of receiver `i`. */
  ghost predicate HasKeyFor(suite: Suite, ring: Keyring, m: Sent, k: nat, i: nat)
    requires i < |m.receivers|
  {
    exists j :: k <= j < |ring.allBoxSecretKeys| && m.receivers[i] == BoxReceiver(suite.boxPublic(ring.allBoxSecretKeys[j]))
  }

  /** The ring has the box key of a receiver. */
  ghost predicate HasBoxKey(suite: Suite, ring: Keyring, m: Sent) {
    exists i: nat :: i < |m.receivers| && HasKeyFor(suite, ring, m, 0, i)
  }

  /** Identifiers of the ring's keys coincide with those in the header only for the key's own entry. */
  ghost predicate IdealIdentifiers(suite: Suite, ring: Keyring, m: Sent)
    requires m.Valid(suite)
  {
    forall sk, i: nat :: sk in ring.allBoxSecretKeys && i < |m.receivers| ==>
      || m.receivers[i] == BoxReceiver(suite.boxPublic(sk))
      || KeyIdentifier(suite, DerivedKey(suite, suite.boxPublic(m.ephemeral), sk), i) != m.Hdr(suite).receivers[i].kid
  }

  /** The resolver gives an answer for every entry, and a key only for the symmetric receiver that has
      it. */
  ghost predicate HonestResolver(suite: Suite, ring: Keyring, m: Sent)
    requires m.Valid(suite)
  {
    ring.resolver.Present? ==>
      var r := (ring.resolver.value)(Identifiers(m.Hdr(suite).receivers));
      r.Keys? && |r.keys| == |m.receivers| && forall i :: 0 <= i < |r.keys| && r.keys[i].Present? ==>
        m.receivers[i].SymmetricReceiver? && m.receivers[i].key == r.keys[i].value
  }

  /** The resolver knows the key of some receiver. */
  ghost predicate Resolves(suite: Suite, ring: Keyring, m: Sent)
    requires m.Valid(suite) && HonestResolver(suite, ring, m)
  {
    && ring.resolver.Present?
    && exists i :: 0 <= i < |m.receivers| && (ring.resolver.value)(Identifiers(m.Hdr(suite).receivers)).keys[i].Present?
  }

  /** An entry opens with the key derived for it. */
  lemma EntryOpens(suite: Suite, m: Sent, i: nat)
    requires m.Valid(suite) && i < |m.receivers|
    ensures OpenEntry(suite, m.receivers[i].Derived(suite, m.ephemeral), m.Hdr(suite).receivers[i], i) == Hit(m.payloadKey)
  {
    hide PayloadKeyBoxNonceV2, Receiver.Derived;
  }

  lemma IdentifierMeans(suite: Suite, ring: Keyring, m: Sent, k: nat, i: nat)
    requires m.Valid(suite) && IdealIdentifiers(suite, ring, m) && k < |ring.allBoxSecretKeys| && i < |m.receivers|
    ensures var key, r := DerivedKey(suite, suite.boxPublic(m.ephemeral), ring.allBoxSecretKeys[k]), m.Hdr(suite).receivers[i];
      if m.receivers[i] == BoxReceiver(suite.boxPublic(ring.allBoxSecretKeys[k]))
      then KeyIdentifier(suite, key, i) == r.kid && OpenEntry(suite, key, r, i) == Hit(m.payloadKey)
      else KeyIdentifier(suite, key, i) != r.kid
  {
    hide OpenEntry, KeyIdentifier, DerivedKey, Suite.Correct;
    assert ring.allBoxSecretKeys[k] in ring.allBoxSecretKeys;
    DerivedKeysAgree(suite, m.ephemeral, ring.allBoxSecretKeys[k]);
    EntryOpens(suite, m, i);
  }

  /** Trying an entry opens it, or misses it if the ring has no key for it. */
  lemma {:induction false} EntryTried(suite: Suite, ring: Keyring, m: Sent, k: nat, i: nat)
    requires m.Valid(suite) && IdealIdentifiers(suite, ring, m) && i < |m.receivers|
    ensures var keys := DerivedKeys(suite, suite.boxPublic(m.ephemeral), ring.allBoxSecretKeys);
      TryDerived(suite, keys, k, m.Hdr(suite).receivers[i], i)
        == if HasKeyFor(suite, ring, m, k, i) then Hit(m.payloadKey) else Miss
    decreases |ring.allBoxSecretKeys| - k
  {
    hide OpenEntry, KeyIdentifier, DerivedKey, Suite.Correct, IdealIdentifiers, Receiver.Entry;
    if k < |ring.allBoxSecretKeys| {
      IdentifierMeans(suite, ring, m, k, i);
      EntryTried(suite, ring, m, k + 1, i);
    }
  }

  lemma {:induction false} BoxesTried(suite: Suite, ring: Keyring, m: Sent, i: nat)
    requires m.Valid(suite) && IdealIdentifiers(suite, ring, m)
    ensures var keys := DerivedKeys(suite, suite.boxPublic(m.ephemeral), ring.allBoxSecretKeys);
      TryBoxes(suite, keys, m.Hdr(suite).receivers, i)
        == if exists j: nat :: i <= j < |m.receivers| && HasKeyFor(suite, ring, m, 0, j) then Hit(m.payloadKey) else Miss
    decreases |m.receivers| - i
  {
    hide TryDerived, DerivedKeys, HasKeyFor, Suite.Correct, IdealIdentifiers, Receiver.Entry;
    if i < |m.receivers| {
      EntryTried(suite, ring, m, 0, i);
      BoxesTried(suite, ring, m, i + 1);
    }
  }

  lemma BoxKeyFound(suite: Suite, ring: Keyring, m: Sent)
    requires m.Valid(suite) && IdealIdentifiers(suite, ring, m)
    ensures TryBoxes(suite, DerivedKeys(suite, suite.boxPublic(m.ephemeral), ring.allBoxSecretKeys), m.Hdr(suite).receivers, 0)
         == if HasBoxKey(suite, ring, m) then Hit(m.payloadKey) else Miss
  {
    hide TryBoxes, DerivedKeys, HasKeyFor;
    BoxesTried(suite, ring, m, 0);
  }

  lemma SharedKeyFound(suite: Suite, ring: Keyring, m: Sent)
    requires m.Valid(suite) && HonestResolver(suite, ring, m)
    ensures TryShared(suite, ring, m.Hdr(suite)) == if Resolves(suite, ring, m) then Hit(m.payloadKey) else Miss
  {
    hide OpenEntry, DerivedSymmetricKey, Suite.Correct;
    forall i | 0 <= i < |m.receivers|
      ensures OpenEntry(suite, m.receivers[i].Derived(suite, m.ephemeral), m.Hdr(suite).receivers[i], i) == Hit(m.payloadKey)
    {
      EntryOpens(suite, m, i);
    }
  }

  /** Receiver agreement for signcryption: for any mix of receivers, one who has a key for the message
      gets the sender's payload key and signing key, or learns that the sender is anonymous; one who
      has none gets that error. */
  lemma SigncryptionReceiverAgrees(suite: Suite, codec: Codec, ring: Keyring, m: Sent)
    requires m.Valid(suite) && IdealIdentifiers(suite, ring, m) && HonestResolver(suite, ring, m)
    requires m.signingKey.Present? ==>
      ring.knowsSigningPublicKey(m.SenderBytes(suite)) && m.SenderBytes(suite) != Zeroes(|m.SenderBytes(suite)|)
    ensures var o := Process(suite, ring, m.Hdr(suite), suite.hash(codec.encode(m.Hdr(suite))));
      if HasBoxKey(suite, ring, m) || Resolves(suite, ring, m)
      then o.Good? && Matches(suite, m.SealerOf(suite, codec), o.opener)
      else o == Failure(Rejected(NoDecryptionKey))
  {
    hide TryBoxes, TryShared, DerivedKeys, HasBoxKey, Resolves, Receiver.Entry, WithKey;
    BoxKeyFound(suite, ring, m);
    SharedKeyFound(suite, ring, m);
    SenderLearned(suite, codec, ring, m);
  }

  lemma SenderLearned(suite: Suite, codec: Codec, ring: Keyring, m: Sent)
    requires m.Valid(suite)
    requires m.signingKey.Present? ==>
      ring.knowsSigningPublicKey(m.SenderBytes(suite)) && m.SenderBytes(suite) != Zeroes(|m.SenderBytes(suite)|)
    ensures var o := WithKey(suite, ring, m.Hdr(suite), suite.hash(codec.encode(m.Hdr(suite))), m.payloadKey);
      o.Good? && Matches(suite, m.SealerOf(suite, codec), o.opener)
  {
    hide Receiver.Entry;
    assert suite.open(m.payloadKey, SenderKeySecretBoxNonce(), m.Hdr(suite).senderSecretbox) == Present(m.SenderBytes(suite));
  }

  // ---- whole messages ----

  /** readHeader: the first packet holds the header's bytes, whose hash names the message. */
  method ReadHeader(suite: Suite, codec: Codec, ring: Keyring, mps: MsgpackStream) returns (o: Outcome)
    requires suite.Correct() && codec.Correct() && mps.Valid() && mps.count == 0
    modifies mps
    ensures var ps := old(mps.packets);
      if ps == [] || !ps[0].HeaderPacket? then o == Failure(Rejected(HeaderUnreadable))
      else if codec.decode(ps[0].headerBytes).Absent? then o == Failure(Rejected(Malformed))
      else
        && o == Process(suite, ring, codec.decode(ps[0].headerBytes).value, suite.hash(ps[0].headerBytes))
        && mps.Valid() && mps.count == 1 && mps.packets == ps[1..]
  {
    hide Process;
    var p, seqno, err := mps.Read();
    if err != None || !p.HeaderPacket? {
      return Failure(Rejected(HeaderUnreadable));
    }
    var header := codec.decode(p.headerBytes);
    if header.Absent? {
      return Failure(Rejected(Malformed));
    }
    o := ProcessHeader(suite, ring, header.value, suite.hash(p.headerBytes));
  }

  /** NewSigncryptOpenStream and ReadAll on a genuine message. */
  method OpenMessage(suite: Suite, codec: Codec, ring: Keyring, ghost m: Sent, ghost b: nat, ghost plaintext: bytes,
                     packets: seq<Packet>) returns (data: bytes, err: Err)
    requires codec.Correct() && b > 0 && m.Valid(suite) && IdealIdentifiers(suite, ring, m) && HonestResolver(suite, ring, m)
    requires m.signingKey.Present? ==>
      ring.knowsSigningPublicKey(m.SenderBytes(suite)) && m.SenderBytes(suite) != Zeroes(|m.SenderBytes(suite)|)
    requires packets == [HeaderPacket(codec.encode(m.Hdr(suite)))] + Sealed(suite, m.SealerOf(suite, codec), b, plaintext)
    requires !Overflows(m.SealerOf(suite, codec), b, plaintext)
    ensures if HasBoxKey(suite, ring, m) || Resolves(suite, ring, m)
            then err == None && data == plaintext else err == Rejected(NoDecryptionKey)
  {
    hide Codec.Correct, Sealed, Deliver, Process, Sealer.Seal, Sent.SealerOf, HasBoxKey, Resolves, Matches, Overflows;
    hide IdealIdentifiers, HonestResolver, Receiver.Entry;
    ghost var s, h := m.SealerOf(suite, codec), codec.encode(m.Hdr(suite));
    HeaderDecodes(codec, m.Hdr(suite));
    SealedEnds(suite, s, b, plaintext, HeaderPacket(h));
    SigncryptionReceiverAgrees(suite, codec, ring, m);
    var mps := new MsgpackStream(packets, EOF);
    assert packets[0] == HeaderPacket(h) && packets[1..] == Sealed(suite, s, b, plaintext);
    var o := ReadHeader(suite, codec, ring, mps);
    if o.Failure? {
      return [], o.err;
    }
    MessageDelivers(suite, s, o.opener, b, plaintext, EOF);
    data, err := OpenAll(suite, o.opener, mps);
  }

  /** The ring knows the sender's signing key, which is not the anonymous sender's zeroes. */
  ghost predicate KnowsSender(suite: Suite, ring: Keyring, signingKey: Option<bytes>) {
    signingKey.Present? ==>
      var public := suite.signPublic(signingKey.value);
      |public| == KEY_SIZE && ring.knowsSigningPublicKey(public) && public != Zeroes(KEY_SIZE)
  }

  /** Sending and opening a signcrypted message: whatever the order the receivers were shuffled into,
      however the plaintext was written and is read, a receiver of either kind with a key for it reads the
      plaintext. Sending fails exactly for bad receivers, too little randomness, or too long a message. */
  method SigncryptThenOpen(suite: Suite, codec: Codec, ring: Keyring, signingKey: Option<bytes>, boxKeys: seq<bytes>,
                           symmetricKeys: seq<Receiver>, ephemeral: bytes, payloadKey: bytes, csprng: Random.Csprng,
                           b: nat, pieces: seq<bytes>)
    returns (ghost m: Sent, data: bytes, sendErr: Err, err: Err)
    requires suite.Correct() && codec.Correct() && b > 0 && |payloadKey| == KEY_SIZE
    requires |boxKeys| + |symmetricKeys| < 0x8000_0000 && forall r :: r in symmetricKeys ==> r.SymmetricReceiver?
    requires KnowsSender(suite, ring, signingKey)
    requires forall rs :: multiset(rs) == multiset(AllReceivers(boxKeys, symmetricKeys)) && |rs| <= MAX_RECEIVERS ==>
      var m := Sent(signingKey, ephemeral, payloadKey, rs);
      IdealIdentifiers(suite, ring, m) && HonestResolver(suite, ring, m)
    modifies csprng
    ensures sendErr == None <==>
      && GoodNames(AllReceivers(boxKeys, symmetricKeys))
      && Random.Shuffled(AllReceivers(boxKeys, symmetricKeys), old(csprng.draws)).Present?
      && |Chunked(V2, b, Concat(pieces))| <= BLOCK_LIMIT
    ensures sendErr == None ==>
      && m.Valid(suite) && m.signingKey == signingKey
      && Present(m.receivers) == Random.Shuffled(AllReceivers(boxKeys, symmetricKeys), old(csprng.draws))
      && multiset(m.receivers) == multiset(AllReceivers(boxKeys, symmetricKeys)) && HonestResolver(suite, ring, m)
      && (if HasBoxKey(suite, ring, m) || Resolves(suite, ring, m)
          then err == None && data == Concat(pieces) else err == Rejected(NoDecryptionKey))
  {
    hide Codec.Correct, Sealed, Sent.Hdr, Sent.SealerOf, HasBoxKey, Resolves, Overflows, Suite.Correct, AllReceivers;
    hide IdealIdentifiers, HonestResolver, Receiver.Entry, Concat, Chunked, GoodNames, Random.Shuffled;
    var sealer, header, shuffled;
    data, err := [], None;
    sealer, header, shuffled, sendErr :=
      Init(suite, codec, signingKey, boxKeys, symmetricKeys, ephemeral, payloadKey, csprng);
    m := Sent(signingKey, ephemeral, payloadKey, shuffled);
    if sendErr != None {
      return;
    }
    var output;
    output, sendErr := SealMessage(suite, sealer, b, [header], pieces);
    SentOverflows(suite, codec, m, b, Concat(pieces));
    if sendErr != None {
      return;
    }
    data, err := OpenMessage(suite, codec, ring, m, b, Concat(pieces), output);
  }

  lemma SentOverflows(suite: Suite, codec: Codec, m: Sent, b: nat, plaintext: bytes)
    requires m.Valid(suite) && b > 0
    ensures Overflows(m.SealerOf(suite, codec), b, plaintext) <==> |Chunked(V2, b, plaintext)| > BLOCK_LIMIT
  {
    hide Chunked, Suite.Correct, Sent.Hdr;
  }
}
