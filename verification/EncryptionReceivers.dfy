/** Finding one's own entry in an encryption header (decrypt.go, decryptStream): named receivers by
    key ID, hidden ones by trial. */
module EncryptionReceivers {
  import opened Bytes
  import opened Nonces
  import opened Chunks
  import opened Packets
  import opened SealStream
  import opened OpenStream
  import opened EncryptionHeaders
  import opened Message
  import Random
  import F = Frame

  /** The receiver's keys: a lookup of a secret key by the IDs named in a header, all secret keys, the
      public keys known, and whether a key can be imported as an ephemeral one. */
  datatype Keyring = Keyring(
    lookupBoxSecretKey: seq<bytes> -> Option<(int, bytes)>,
    allBoxSecretKeys: seq<bytes>,
    knowsBoxPublicKey: bytes -> bool,
    importsEphemeralKey: bytes -> bool)
  {
    /** A key that is looked up is the secret key of the ID at the index that comes with it. */
    ghost predicate Honest(suite: Suite) {
      forall kids :: lookupBoxSecretKey(kids).Present? && lookupBoxSecretKey(kids).value.0 >= 0 ==>
        var (i, sk) := lookupBoxSecretKey(kids).value; i < |kids| && suite.boxPublic(sk) == kids[i]
    }
  }

  /** A secret key of the receiver's, the payload key it opens, and the entry it opens it in. */
  datatype Found = Found(secretKey: bytes, payloadKey: bytes, position: nat)

  datatype Attempt = Hit(found: Found) | Miss | Bad(err: Err)

  /** Unboxing the payload key of entry `i`. */
  function OpenEntry(suite: Suite, version: Version, ephemeral: bytes, sk: bytes, r: ReceiverKeys, i: nat): Attempt
    requires i < TWO_64
  {
    match suite.unbox(sk, ephemeral, PayloadKeyBoxNonce(version, i), r.payloadKeyBox)
    case Absent => Miss
    case Present(k) => if |k| != KEY_SIZE then Bad(Rejected(BadKeyLength)) else Hit(Found(sk, k, i))
  }

  // ---- named receivers ----

  /** The places of the entries that name a key, from `i` on. */
  function Named(rs: seq<ReceiverKeys>, i: nat): (r: seq<nat>)
    ensures forall k :: 0 <= k < |r| ==> i <= r[k] < |rs| && rs[r[k]].kid != []
    decreases |rs| - i
  {
    if i >= |rs| then [] else (if rs[i].kid != [] then [i] else []) + Named(rs, i + 1)
  }

  /** Named leaves none out and keeps the order. */
  lemma {:induction false} NamedAll(rs: seq<ReceiverKeys>, i: nat)
    ensures forall k :: i <= k < |rs| && rs[k].kid != [] ==> k in Named(rs, i)
    ensures forall j, k :: 0 <= j < k < |Named(rs, i)| ==> Named(rs, i)[j] < Named(rs, i)[k]
    decreases |rs| - i
  {
    if i < |rs| {
      NamedAll(rs, i + 1);
    }
  }

  function KidsAt(rs: seq<ReceiverKeys>, places: seq<nat>): seq<bytes>
    requires forall k :: 0 <= k < |places| ==> places[k] < |rs|
  {
    seq(|places|, k requires 0 <= k < |places| => rs[places[k]].kid)
  }

  /** tryVisibleReceivers. A lookup that returns an index outside the list is an error, and so is a box
      that does not open. */
  function TryVisible(suite: Suite, ring: Keyring, version: Version, ephemeral: bytes, rs: seq<ReceiverKeys>): (r: Attempt)
    requires |rs| <= MAX_RECEIVERS
    ensures r.Hit? ==>
      && r.found.position < |rs| && rs[r.found.position].kid != []
      && OpenEntry(suite, version, ephemeral, r.found.secretKey, rs[r.found.position], r.found.position) == r
  {
    var named := Named(rs, 0);
    match ring.lookupBoxSecretKey(KidsAt(rs, named))
    case Absent => Miss
    case Present((i, sk)) =>
      if i < 0 then Miss
      else if i >= |named| then Bad(Rejected(BadLookup))
      else
        match OpenEntry(suite, version, ephemeral, sk, rs[named[i]], named[i])
        case Miss => Bad(Rejected(DecryptionFailed))
        case a => a
  }

  // ---- hidden receivers ----

  /** Trying one key on the hidden entries from `i` on. */
  function TryEntries(suite: Suite, version: Version, ephemeral: bytes, sk: bytes, rs: seq<ReceiverKeys>, i: nat)
    : (r: Attempt)
    requires |rs| <= MAX_RECEIVERS
    ensures r.Hit? ==>
      && r.found.position < |rs| && rs[r.found.position].kid == [] && r.found.secretKey == sk
      && OpenEntry(suite, version, ephemeral, sk, rs[r.found.position], r.found.position) == r
    ensures r.Miss? ==> forall j :: i <= j < |rs| && rs[j].kid == [] ==>
      OpenEntry(suite, version, ephemeral, sk, rs[j], j).Miss?
    ensures r.Bad? ==> exists j :: i <= j < |rs| && OpenEntry(suite, version, ephemeral, sk, rs[j], j) == r
    decreases |rs| - i
  {
    if i >= |rs| then Miss
    else if rs[i].kid != [] then TryEntries(suite, version, ephemeral, sk, rs, i + 1)
    else
      match OpenEntry(suite, version, ephemeral, sk, rs[i], i)
      case Miss => TryEntries(suite, version, ephemeral, sk, rs, i + 1)
      case a => a
  }

  /** tryHiddenReceivers: every key, from `k` on, on every hidden entry. */
  function TryHidden(suite: Suite, version: Version, ephemeral: bytes, keys: seq<bytes>, k: nat, rs: seq<ReceiverKeys>)
    : (r: Attempt)
    requires |rs| <= MAX_RECEIVERS
    ensures r.Hit? ==>
      && r.found.position < |rs| && rs[r.found.position].kid == [] && r.found.secretKey in keys
      && OpenEntry(suite, version, ephemeral, r.found.secretKey, rs[r.found.position], r.found.position) == r
    ensures r.Miss? ==> forall l, j :: k <= l < |keys| && 0 <= j < |rs| && rs[j].kid == [] ==>
      OpenEntry(suite, version, ephemeral, keys[l], rs[j], j).Miss?
    ensures r.Bad? ==> exists l, j :: k <= l < |keys| && 0 <= j < |rs| &&
                                      OpenEntry(suite, version, ephemeral, keys[l], rs[j], j) == r
    decreases |keys| - k
  {
    if k >= |keys| then Miss
    else
      match TryEntries(suite, version, ephemeral, keys[k], rs, 0)
      case Miss => TryHidden(suite, version, ephemeral, keys, k + 1, rs)
      case a => a
  }

  // ---- the whole header ----

  /** What a receiver learns from a header. */
  datatype Learned = Learned(found: Found, opener: Opener, senderKey: bytes, senderIsAnon: bool, receiverIsAnon: bool)

  datatype Outcome = Good(learned: Learned) | Failure(err: Err)

  function VersionOf(major: int): Option<Version> {
    if major == 1 then Present(V1) else if major == 2 then Present(V2) else Absent
  }

  /** processHeader, with the check for known major versions as version validator. */
  function Process(suite: Suite, ring: Keyring, hdr: Header, headerHash: Digest): Outcome
    requires suite.Correct() && |hdr.receivers| <= MAX_RECEIVERS
  {
    if hdr.typ != F.Encryption then Failure(Rejected(WrongMessageType))
    else if VersionOf(hdr.major).Absent? then Failure(Rejected(BadVersion(hdr.major)))
    else if !ring.importsEphemeralKey(hdr.ephemeral) then Failure(Rejected(BadEphemeralKey))
    else Search(suite, ring, VersionOf(hdr.major).value, hdr, headerHash)
  }

  /** processHeader, once the header is valid: named receivers first, then hidden ones. */
  function Search(suite: Suite, ring: Keyring, version: Version, hdr: Header, headerHash: Digest): Outcome
    requires suite.Correct() && |hdr.receivers| <= MAX_RECEIVERS
  {
    match TryVisible(suite, ring, version, hdr.ephemeral, hdr.receivers)
    case Bad(err) => Failure(err)
    case Hit(found) => WithKey(suite, ring, version, hdr, headerHash, found, false)
    case Miss =>
      match TryHidden(suite, version, hdr.ephemeral, ring.allBoxSecretKeys, 0, hdr.receivers)
      case Bad(err) => Failure(err)
      case Miss => Failure(Rejected(NoDecryptionKey))
      case Hit(found) => WithKey(suite, ring, version, hdr, headerHash, found, true)
  }

  /** processHeader, once the payload key is known: the sender's key and the MAC key. */
  function WithKey(suite: Suite, ring: Keyring, version: Version, hdr: Header, headerHash: Digest, found: Found,
                   receiverIsAnon: bool): Outcome
    requires suite.Correct() && found.position < TWO_64
  {
    match suite.open(found.payloadKey, SenderKeySecretBoxNonce(), hdr.senderSecretbox)
    case Absent => Failure(Rejected(BadSenderKeySecretbox))
    case Present(sender) =>
      if |sender| != KEY_SIZE then Failure(Rejected(BadKeyLength))
      else if hdr.ephemeral != sender && !ring.knowsBoxPublicKey(sender) then Failure(Rejected(NoSenderKey(sender)))
      else
        var macKey := MACKeyReceiver(suite, version, found.position, found.secretKey, sender, hdr.ephemeral, headerHash);
        Good(Learned(found, Decrypting(version, found.payloadKey, headerHash, macKey, found.position),
                     sender, hdr.ephemeral == sender, receiverIsAnon))
  }

  /** The sender that a header names, under its payload key. */
  ghost predicate SenderIs(suite: Suite, ring: Keyring, hdr: Header, payloadKey: bytes, sender: bytes, anonymous: bool) {
    && suite.open(payloadKey, Ascii("saltpack_sender_key_sbox"), hdr.senderSecretbox) == Present(sender)
    && |sender| == 32 && (anonymous <==> sender == hdr.ephemeral) && (anonymous || ring.knowsBoxPublicKey(sender))
  }

  /** What a receiver has learned from a header: it is of its type and of a known version, with an ephemeral
      key that is trusted and a payload key from one of its entries, named or hidden, under one of the ring's
      secret keys; the sender it names is either the ephemeral key, and anonymous, or one that is known. */
  ghost predicate LearnedFrom(suite: Suite, ring: Keyring, hdr: Header, headerHash: Digest, l: Learned)
    requires suite.Correct()
  {
    var v := if hdr.major == 1 then V1 else V2;
    && hdr.typ == F.Encryption && (hdr.major == 1 || hdr.major == 2) && ring.importsEphemeralKey(hdr.ephemeral)
    && l.found.position < |hdr.receivers| && l.found.position < TWO_64 && |l.found.payloadKey| == 32
    && (l.receiverIsAnon <==> hdr.receivers[l.found.position].kid == [])
    && (l.receiverIsAnon ==> l.found.secretKey in ring.allBoxSecretKeys)
    && suite.unbox(l.found.secretKey, hdr.ephemeral, PayloadKeyBoxNonce(v, l.found.position),
                   hdr.receivers[l.found.position].payloadKeyBox) == Present(l.found.payloadKey)
    && SenderIs(suite, ring, hdr, l.found.payloadKey, l.senderKey, l.senderIsAnon)
    && l.opener == Decrypting(v, l.found.payloadKey, headerHash,
                              MACKeyReceiver(suite, v, l.found.position, l.found.secretKey, l.senderKey, hdr.ephemeral, headerHash),
                              l.found.position)
  }

  /** Every accepted header was such a one. */
  lemma AcceptedHeader(suite: Suite, ring: Keyring, hdr: Header, headerHash: Digest)
    requires suite.Correct() && |hdr.receivers| <= MAX_RECEIVERS
    ensures var o := Process(suite, ring, hdr, headerHash);
      o.Good? ==> LearnedFrom(suite, ring, hdr, headerHash, o.learned)
  {
    hide MACKeyReceiver, Suite.Correct, PayloadKeyBoxNonce;
  }

  /** Why a header is refused, in the order of the checks. */
  lemma RefusedHeader(suite: Suite, ring: Keyring, hdr: Header, headerHash: Digest)
    requires suite.Correct() && |hdr.receivers| <= MAX_RECEIVERS
    ensures var o := Process(suite, ring, hdr, headerHash);
      && (o == Failure(Rejected(WrongMessageType)) <==> hdr.typ != F.Encryption)
      && ((exists v :: o == Failure(Rejected(BadVersion(v)))) <==> hdr.typ == F.Encryption && hdr.major != 1 && hdr.major != 2)
      && (o == Failure(Rejected(BadEphemeralKey)) <==>
            hdr.typ == F.Encryption && (hdr.major == 1 || hdr.major == 2) && !ring.importsEphemeralKey(hdr.ephemeral))
      && (forall k :: o == Failure(Rejected(NoSenderKey(k))) ==> !ring.knowsBoxPublicKey(k) && k != hdr.ephemeral)
  {
    hide MACKeyReceiver, Suite.Correct, PayloadKeyBoxNonce;
  }

  // ---- agreement ----

  /** An entry opens with its receiver's key. */
  lemma EntryOpens(suite: Suite, version: Version, ephemeral: bytes, payloadKey: bytes, r: BoxPublicKey, i: nat, sk: bytes)
    requires suite.Correct() && i < TWO_64 && |payloadKey| == KEY_SIZE && suite.boxPublic(sk) == r.kid
    ensures OpenEntry(suite, version, suite.boxPublic(ephemeral), sk, EntryFor(suite, version, ephemeral, payloadKey, r, i), i)
         == Hit(Found(sk, payloadKey, i))
  {
    hide PayloadKeyBoxNonce;
  }

  /** A message as its sender's header and keys were made. */
  datatype Sent = Sent(version: Version, sender: bytes, ephemeral: bytes, payloadKey: bytes, receivers: seq<BoxPublicKey>) {
    ghost predicate Valid(suite: Suite) {
      && suite.Correct() && |payloadKey| == KEY_SIZE && |receivers| <= MAX_RECEIVERS
      && forall i :: 0 <= i < |receivers| ==> |receivers[i].kid| == KEY_SIZE
    }

    function Hdr(suite: Suite): Header
      requires |receivers| <= MAX_RECEIVERS
    {
      MakeHeader(suite, version, sender, ephemeral, payloadKey, receivers)
    }

    function SealerOf(suite: Suite, codec: Codec): Sealer
      requires suite.Correct() && |receivers| <= MAX_RECEIVERS
    {
      SealerFor(suite, codec, version, sender, ephemeral, payloadKey, receivers)
    }

    /** The receiver's secret key `sk` is for receiver `i`. */
    ghost predicate Owns(suite: Suite, sk: bytes, i: nat) {
      i < |receivers| && suite.boxPublic(sk) == receivers[i].kid
    }

    /** The ring has the key of a receiver that the header hides. */
    ghost predicate HasHidden(suite: Suite, ring: Keyring) {
      exists k, i: nat :: 0 <= k < |ring.allBoxSecretKeys| && Owns(suite, ring.allBoxSecretKeys[k], i) && receivers[i].hideIdentity
    }

    /** No key in the ring opens another receiver's box. */
    ghost predicate IdealBoxes(suite: Suite, ring: Keyring)
      requires |receivers| <= MAX_RECEIVERS
    {
      forall sk, i: nat :: sk in ring.allBoxSecretKeys && i < |receivers| ==>
        OpenEntry(suite, version, suite.boxPublic(ephemeral), sk, Hdr(suite).receivers[i], i).Miss? || Owns(suite, sk, i)
    }
  }

  /** The lookup of the IDs that a header names finds something. */
  predicate LookupHits(ring: Keyring, rs: seq<ReceiverKeys>) {
    var found := ring.lookupBoxSecretKey(KidsAt(rs, Named(rs, 0)));
    found.Present? && found.value.0 >= 0
  }

  /** A named receiver is found through the lookup, at its place in the sender's list. */
  lemma NamedFound(suite: Suite, ring: Keyring, m: Sent)
    requires m.Valid(suite) && ring.Honest(suite)
    ensures var rs := m.Hdr(suite).receivers;
      var a := TryVisible(suite, ring, m.version, suite.boxPublic(m.ephemeral), rs);
      if LookupHits(ring, rs) then
        a.Hit? && a.found.payloadKey == m.payloadKey && m.Owns(suite, a.found.secretKey, a.found.position)
        && !m.receivers[a.found.position].hideIdentity
      else a.Miss?
  {
    hide PayloadKeyBoxNonce, OpenEntry, Suite.Correct;
    var rs := m.Hdr(suite).receivers;
    var named := Named(rs, 0);
    var kids := KidsAt(rs, named);
    if LookupHits(ring, rs) {
      var (i, sk) := ring.lookupBoxSecretKey(kids).value;
      assert kids[i] == rs[named[i]].kid == m.receivers[named[i]].kid;
      EntryOpens(suite, m.version, m.ephemeral, m.payloadKey, m.receivers[named[i]], named[i], sk);
    }
  }

  /** A hidden receiver is found by trial, at its place in the sender's list; and none is found exactly
      when the ring has no hidden receiver's key. */
  lemma HiddenFound(suite: Suite, ring: Keyring, m: Sent)
    requires m.Valid(suite) && m.IdealBoxes(suite, ring)
    ensures var rs := m.Hdr(suite).receivers;
      var a := TryHidden(suite, m.version, suite.boxPublic(m.ephemeral), ring.allBoxSecretKeys, 0, rs);
      && !a.Bad?
      && (a.Hit? ==> a.found.payloadKey == m.payloadKey && m.Owns(suite, a.found.secretKey, a.found.position)
                     && m.receivers[a.found.position].hideIdentity)
      && (a.Miss? <==> !m.HasHidden(suite, ring))
  {
    hide PayloadKeyBoxNonce, OpenEntry, Suite.Correct;
    var rs, keys, ephemeral := m.Hdr(suite).receivers, ring.allBoxSecretKeys, suite.boxPublic(m.ephemeral);
    var a := TryHidden(suite, m.version, ephemeral, keys, 0, rs);
    forall l, j: nat | 0 <= l < |keys| && j < |rs|
      ensures OpenEntry(suite, m.version, ephemeral, keys[l], rs[j], j)
           == if m.Owns(suite, keys[l], j) then Hit(Found(keys[l], m.payloadKey, j)) else Miss {
      assert keys[l] in keys;
      if m.Owns(suite, keys[l], j) {
        EntryOpens(suite, m.version, m.ephemeral, m.payloadKey, m.receivers[j], j, keys[l]);
      }
    }
  }

  /** The receiver trusts the ephemeral key and knows the sender, unless the sender is anonymous. */
  ghost predicate Acquainted(suite: Suite, ring: Keyring, m: Sent) {
    var e, s := suite.boxPublic(m.ephemeral), suite.boxPublic(m.sender);
    ring.importsEphemeralKey(e) && (e == s || ring.knowsBoxPublicKey(s))
  }

  /** What a receiver has learned is right: the payload key, its own key and place in the sender's list,
      the sender, and a MAC key that the sender used for it. */
  ghost predicate Agrees(suite: Suite, codec: Codec, m: Sent, l: Learned)
    requires m.Valid(suite)
  {
    && m.Owns(suite, l.found.secretKey, l.found.position)
    && l.receiverIsAnon == m.receivers[l.found.position].hideIdentity
    && l.found.payloadKey == m.payloadKey
    && l.senderKey == suite.boxPublic(m.sender)
    && l.senderIsAnon == (suite.boxPublic(m.ephemeral) == suite.boxPublic(m.sender))
    && Matches(suite, m.SealerOf(suite, codec), l.opener)
  }

  lemma SenderLearned(suite: Suite, codec: Codec, ring: Keyring, m: Sent, found: Found, anon: bool)
    requires m.Valid(suite) && Acquainted(suite, ring, m)
    requires found.payloadKey == m.payloadKey && m.Owns(suite, found.secretKey, found.position)
    requires m.receivers[found.position].hideIdentity == anon
    ensures var o := WithKey(suite, ring, m.version, m.Hdr(suite), suite.hash(codec.encode(m.Hdr(suite))), found, anon);
      o.Good? && Agrees(suite, codec, m, o.learned)
  {
    hide MACKeySender, MACKeyReceiver, EntryFor;
    var h := suite.hash(codec.encode(m.Hdr(suite)));
    assert suite.open(m.payloadKey, SenderKeySecretBoxNonce(), m.Hdr(suite).senderSecretbox) == Present(suite.boxPublic(m.sender));
    MACKeysAgree(suite, m.version, found.position, m.sender, m.ephemeral, found.secretKey, h);
  }

  lemma ValidHeader(suite: Suite, ring: Keyring, m: Sent, h: Digest)
    requires m.Valid(suite) && Acquainted(suite, ring, m)
    ensures Process(suite, ring, m.Hdr(suite), h) == Search(suite, ring, m.version, m.Hdr(suite), h)
    ensures m.Hdr(suite).ephemeral == suite.boxPublic(m.ephemeral)
  {
    hide Search, EntryFor, Suite.Correct;
  }

  /** Receiver agreement: for any mix of named and hidden receivers, one who has a key for the message
      learns what the sender used for it, and one who has none gets that error. */
  lemma ReceiverAgrees(suite: Suite, codec: Codec, ring: Keyring, m: Sent)
    requires m.Valid(suite) && Acquainted(suite, ring, m) && ring.Honest(suite) && m.IdealBoxes(suite, ring)
    ensures var o := Process(suite, ring, m.Hdr(suite), suite.hash(codec.encode(m.Hdr(suite))));
      && (o.Good? <==> LookupHits(ring, m.Hdr(suite).receivers) || m.HasHidden(suite, ring))
      && (o.Failure? ==> o.err == Rejected(NoDecryptionKey))
      && (o.Good? ==> Agrees(suite, codec, m, o.learned))
  {
    hide Process, TryVisible, TryHidden, WithKey, Sent.Valid, Sent.Hdr, Sent.HasHidden, Agrees, LookupHits, Acquainted;
    MaximumReceivers(suite, m);
    var h, rs, e := suite.hash(codec.encode(m.Hdr(suite))), m.Hdr(suite).receivers, suite.boxPublic(m.ephemeral);
    NamedFound(suite, ring, m);
    HiddenFound(suite, ring, m);
    ValidHeader(suite, ring, m, h);
    var a, b := TryVisible(suite, ring, m.version, e, rs), TryHidden(suite, m.version, e, ring.allBoxSecretKeys, 0, rs);
    if a.Hit? {
      SenderLearned(suite, codec, ring, m, a.found, false);
    } else if b.Hit? {
      SenderLearned(suite, codec, ring, m, b.found, true);
    }
  }

  lemma MaximumReceivers(suite: Suite, m: Sent)
    requires m.Valid(suite)
    ensures |m.receivers| <= MAX_RECEIVERS && |m.Hdr(suite).receivers| == |m.receivers| && suite.Correct()
  {
  }

  // ---- the stream ----

  /** The IDs named in a header, and a table of where each of them was. */
  method CollectNamed(rs: seq<ReceiverKeys>) returns (kids: seq<bytes>, tab: map<nat, nat>)
    ensures kids == KidsAt(rs, Named(rs, 0))
    ensures forall k: nat :: k in tab <==> k < |kids|
    ensures forall k :: 0 <= k < |kids| ==> tab[k] == Named(rs, 0)[k]
  {
    kids, tab := [], map[];
    ghost var places: seq<nat> := [];
    EmptyFirst(Named(rs, 0));
    for i := 0 to |rs|
      invariant Named(rs, 0) == places + Named(rs, i) && |kids| == |places|
      invariant forall k :: 0 <= k < |places| ==> places[k] < |rs| && kids[k] == rs[places[k]].kid
      invariant forall k: nat :: k in tab <==> k < |places|
      invariant forall k :: 0 <= k < |places| ==> tab[k] == places[k]
    {
      if rs[i].kid != [] {
        tab := tab[|kids| := i];
        kids := kids + [rs[i].kid];
        SeqAssoc(places, [i], Named(rs, i + 1));
        places := places + [i];
      } else {
        EmptyFirst(Named(rs, i + 1));
      }
    }
    assert places == Named(rs, 0);
  }

  /** One key on every hidden entry. */
  method TryKey(suite: Suite, version: Version, ephemeral: bytes, sk: bytes, rs: seq<ReceiverKeys>) returns (a: Attempt)
    requires |rs| <= MAX_RECEIVERS
    ensures a == TryEntries(suite, version, ephemeral, sk, rs, 0)
  {
    hide OpenEntry;
    for i := 0 to |rs|
      invariant TryEntries(suite, version, ephemeral, sk, rs, 0) == TryEntries(suite, version, ephemeral, sk, rs, i)
    {
      if rs[i].kid == [] {
        var b := OpenEntry(suite, version, ephemeral, sk, rs[i], i);
        if !b.Miss? {
          return b;
        }
      }
    }
    return Miss;
  }

  class DecryptStream {
    const suite: Suite
    const codec: Codec
    const ring: Keyring
    var version: Version
    var payloadKey: bytes
    var headerHash: Digest
    var macKey: bytes
    var position: nat

    // MessageKeyInfo.
    var senderKey: bytes
    var senderIsAnon: bool
    var receiverKey: bytes
    var receiverIsAnon: bool
    var namedReceivers: seq<bytes>
    var numAnonReceivers: nat

    constructor (suite: Suite, codec: Codec, ring: Keyring)
      ensures this.suite == suite && this.codec == codec && this.ring == ring && numAnonReceivers == 0
    {
      this.suite, this.codec, this.ring := suite, codec, ring;
      numAnonReceivers := 0;
    }

    /** What has been learned from the header. */
    ghost function Now(): Learned
      reads this
    {
      Learned(Found(receiverKey, payloadKey, position), Decrypting(version, payloadKey, headerHash, macKey, position),
              senderKey, senderIsAnon, receiverIsAnon)
    }

    /** tryVisibleReceivers. */
    method TryVisibleReceivers(hdr: Header, version: Version) returns (a: Attempt)
      requires |hdr.receivers| <= MAX_RECEIVERS
      modifies this`namedReceivers
      ensures a == TryVisible(suite, ring, version, hdr.ephemeral, hdr.receivers)
      ensures namedReceivers == KidsAt(hdr.receivers, Named(hdr.receivers, 0))
    {
      hide OpenEntry, Named;
      var rs := hdr.receivers;
      var kids, tab := CollectNamed(rs);
      namedReceivers := kids;
      match ring.lookupBoxSecretKey(kids)
      case Absent =>
        return Miss;
      case Present((i, sk)) =>
        if i < 0 {
          return Miss;
        }
        if i !in tab {
          return Bad(Rejected(BadLookup));
        }
        match OpenEntry(suite, version, hdr.ephemeral, sk, rs[tab[i]], tab[i])
        case Miss => return Bad(Rejected(DecryptionFailed));
        case b => return b;
    }

    /** tryHiddenReceivers: counts the hidden entries, and tries every key on every one of them. */
    method TryHiddenReceivers(hdr: Header, version: Version) returns (a: Attempt)
      requires |hdr.receivers| <= MAX_RECEIVERS
      modifies this`numAnonReceivers
      ensures a == TryHidden(suite, version, hdr.ephemeral, ring.allBoxSecretKeys, 0, hdr.receivers)
      ensures numAnonReceivers == old(numAnonReceivers) + |hdr.receivers| - |Named(hdr.receivers, 0)|
    {
      hide TryEntries;
      var rs, keys := hdr.receivers, ring.allBoxSecretKeys;
      for i := 0 to |rs|
        invariant numAnonReceivers + |Named(rs, 0)| == old(numAnonReceivers) + i + |Named(rs, i)|
      {
        if rs[i].kid == [] {
          numAnonReceivers := numAnonReceivers + 1;
        }
      }
      assert Named(rs, |rs|) == [];
      for k := 0 to |keys|
        invariant numAnonReceivers == old(numAnonReceivers) + |rs| - |Named(rs, 0)|
        invariant TryHidden(suite, version, hdr.ephemeral, keys, 0, rs) == TryHidden(suite, version, hdr.ephemeral, keys, k, rs)
      {
        var b := TryKey(suite, version, hdr.ephemeral, keys[k], rs);
        if !b.Miss? {
          return b;
        }
      }
      return Miss;
    }

    /** processHeader. */
    method ProcessHeader(hdr: Header) returns (err: Err)
      requires suite.Correct() && |hdr.receivers| <= MAX_RECEIVERS
      modifies this
      ensures headerHash == old(headerHash)
      ensures match Process(suite, ring, hdr, headerHash)
              case Good(l) => err == None && Now() == l
              case Failure(e) => err == e
    {
      hide TryVisible, TryHidden, WithKey, Suite.Correct;
      if hdr.typ != F.Encryption {
        return Rejected(WrongMessageType);
      }
      if VersionOf(hdr.major).Absent? {
        return Rejected(BadVersion(hdr.major));
      }
      version := VersionOf(hdr.major).value;
      if !ring.importsEphemeralKey(hdr.ephemeral) {
        return Rejected(BadEphemeralKey);
      }
      var a := TryVisibleReceivers(hdr, version);
      receiverIsAnon := false;
      if a.Miss? {
        a := TryHiddenReceivers(hdr, version);
        receiverIsAnon := true;
      }
      match a
      case Bad(e) => err := e;
      case Miss => err := Rejected(NoDecryptionKey);
      case Hit(found) => err := LearnSender(hdr, found);
    }

    /** processHeader, once the payload key is known. */
    method LearnSender(hdr: Header, found: Found) returns (err: Err)
      requires suite.Correct() && found.position < TWO_64
      modifies this`receiverKey, this`payloadKey, this`position, this`senderKey, this`senderIsAnon, this`macKey
      ensures match WithKey(suite, ring, version, hdr, headerHash, found, receiverIsAnon)
              case Good(l) => err == None && Now() == l
              case Failure(e) => err == e
    {
      hide MACKeyReceiver, Suite.Correct;
      receiverKey, payloadKey, position := found.secretKey, found.payloadKey, found.position;
      var sender := suite.open(payloadKey, SenderKeySecretBoxNonce(), hdr.senderSecretbox);
      if sender.Absent? {
        return Rejected(BadSenderKeySecretbox);
      }
      if |sender.value| != KEY_SIZE {
        return Rejected(BadKeyLength);
      }
      senderKey, senderIsAnon := sender.value, hdr.ephemeral == sender.value;
      if !senderIsAnon && !ring.knowsBoxPublicKey(senderKey) {
        return Rejected(NoSenderKey(senderKey));
      }
      macKey := MACKeyReceiver(suite, version, position, receiverKey, senderKey, hdr.ephemeral, headerHash);
      return None;
    }

    /** readHeader: the first packet holds the header's bytes, whose hash names the message. */
    method ReadHeader(mps: MsgpackStream) returns (err: Err)
      requires suite.Correct() && codec.Correct() && mps.Valid() && mps.count == 0
      modifies this, mps
      ensures var ps := old(mps.packets);
        if ps == [] || !ps[0].HeaderPacket? then err == Rejected(HeaderUnreadable)
        else if codec.decode(ps[0].headerBytes).Absent? then err == Rejected(Malformed)
        else
          match Process(suite, ring, codec.decode(ps[0].headerBytes).value, suite.hash(ps[0].headerBytes))
          case Good(l) => err == None && Now() == l && mps.Valid() && mps.count == 1 && mps.packets == ps[1..]
          case Failure(e) => err == e
    {
      hide Process;
      var p, seqno;
      p, seqno, err := mps.Read();
      if err != None || !p.HeaderPacket? {
        return Rejected(HeaderUnreadable);
      }
      headerHash := suite.hash(p.headerBytes);
      var header := codec.decode(p.headerBytes);
      if header.Absent? {
        return Rejected(Malformed);
      }
      err := ProcessHeader(header.value);
    }
  }

  // ---- whole messages ----

  /** A sealed message, header and all. */
  function MessagePackets(suite: Suite, codec: Codec, m: Sent, b: nat, plaintext: bytes): seq<Packet>
    requires m.Valid(suite) && b > 0
  {
    [HeaderPacket(codec.encode(m.Hdr(suite)))] + Sealed(suite, m.SealerOf(suite, codec), b, plaintext)
  }

  /** NewDecryptStream and ReadAll on a genuine message. */
  method DecryptMessage(suite: Suite, codec: Codec, ring: Keyring, ghost m: Sent, ghost b: nat, ghost plaintext: bytes,
                        packets: seq<Packet>) returns (data: bytes, err: Err)
    requires codec.Correct() && ring.Honest(suite) && b > 0
    requires m.Valid(suite) && Acquainted(suite, ring, m) && m.IdealBoxes(suite, ring)
    requires packets == MessagePackets(suite, codec, m, b, plaintext) && !Overflows(m.SealerOf(suite, codec), b, plaintext)
    ensures if LookupHits(ring, m.Hdr(suite).receivers) || m.HasHidden(suite, ring)
            then err == None && data == plaintext else err == Rejected(NoDecryptionKey)
  {
    hide Suite.Correct, Codec.Correct, Sealed, Deliver, Process, Sealer.Seal, Sent.Hdr, Sent.SealerOf, LookupHits;
    hide Sent.HasHidden, Matches, Overflows, Sent.IdealBoxes, Keyring.Honest, Acquainted;
    ghost var s, h := m.SealerOf(suite, codec), codec.encode(m.Hdr(suite));
    MaximumReceivers(suite, m);
    HeaderDecodes(codec, m.Hdr(suite));
    SealedEnds(suite, s, b, plaintext, HeaderPacket(h));
    ReceiverAgrees(suite, codec, ring, m);
    var mps := new MsgpackStream(packets, EOF);
    var ds := new DecryptStream(suite, codec, ring);
    assert packets[0] == HeaderPacket(h) && packets[1..] == Sealed(suite, s, b, plaintext);
    err := ds.ReadHeader(mps);
    if err != None {
      return [], err;
    }
    var opener := Decrypting(ds.version, ds.payloadKey, ds.headerHash, ds.macKey, ds.position);
    MessageDelivers(suite, s, opener, b, plaintext, EOF);
    data, err := OpenAll(suite, opener, mps);
  }

  /** Sending and receiving an encrypted message: whatever the order the receivers were shuffled into,
      however the plaintext was written and is read, a receiver with a key for it reads the plaintext.
      Sending fails exactly for bad receivers, too little randomness, or too long a message. */
  method EncryptThenDecrypt(suite: Suite, codec: Codec, ring: Keyring, version: Version, senderKey: Option<bytes>,
                            receivers: seq<BoxPublicKey>, ephemeral: bytes, payloadKey: bytes, csprng: Random.Csprng,
                            b: nat, pieces: seq<bytes>)
    returns (ghost m: Sent, data: bytes, sendErr: Err, err: Err)
    requires suite.Correct() && codec.Correct() && ring.Honest(suite) && b > 0
    requires |payloadKey| == KEY_SIZE && |receivers| < 0x8000_0000
    requires forall r :: r in receivers ==> |r.kid| == KEY_SIZE
    requires forall rs :: multiset(rs) == multiset(receivers) && |rs| <= MAX_RECEIVERS ==>
      var m := Sent(version, if senderKey.Absent? then ephemeral else senderKey.value, ephemeral, payloadKey, rs);
      Acquainted(suite, ring, m) && m.IdealBoxes(suite, ring)
    modifies csprng
    ensures sendErr == None <==>
      && GoodReceivers(receivers) && Random.Shuffled(receivers, old(csprng.draws)).Present?
      && |Chunked(version, b, Concat(pieces))| <= BLOCK_LIMIT
    ensures sendErr == None ==>
      && m.Valid(suite) && Present(m.receivers) == Random.Shuffled(receivers, old(csprng.draws))
      && multiset(m.receivers) == multiset(receivers)
      && (if LookupHits(ring, m.Hdr(suite).receivers) || m.HasHidden(suite, ring)
          then err == None && data == Concat(pieces) else err == Rejected(NoDecryptionKey))
  {
    hide Suite.Correct, Codec.Correct, Sealed, Sent.Hdr, LookupHits, Sent.HasHidden, Overflows, Sent.IdealBoxes;
    hide Keyring.Honest, Acquainted, SealerFor, MakeHeader, Concat, Chunked, GoodReceivers, Random.Shuffled;
    var sealer, header, shuffled;
    data, err := [], None;
    sealer, header, shuffled, sendErr := Init(suite, codec, version, senderKey, receivers, ephemeral, payloadKey, csprng);
    m := Sent(version, if senderKey.Absent? then ephemeral else senderKey.value, ephemeral, payloadKey, shuffled);
    if sendErr != None {
      return;
    }
    SentValid(suite, m, receivers);
    var output;
    output, sendErr := SealMessage(suite, sealer, b, [header], pieces);
    SentOverflows(suite, codec, m, b, Concat(pieces));
    if sendErr != None {
      return;
    }
    SentMessage(suite, codec, m, b, Concat(pieces));
    data, err := DecryptMessage(suite, codec, ring, m, b, Concat(pieces), output);
  }

  lemma SentValid(suite: Suite, m: Sent, receivers: seq<BoxPublicKey>)
    requires suite.Correct() && |m.payloadKey| == KEY_SIZE && |m.receivers| <= MAX_RECEIVERS
    requires multiset(m.receivers) == multiset(receivers) && forall r :: r in receivers ==> |r.kid| == KEY_SIZE
    ensures m.Valid(suite)
  {
    hide Suite.Correct;
    forall i | 0 <= i < |m.receivers| ensures |m.receivers[i].kid| == KEY_SIZE {
      assert m.receivers[i] in multiset(receivers);
    }
  }

  lemma SentOverflows(suite: Suite, codec: Codec, m: Sent, b: nat, plaintext: bytes)
    requires m.Valid(suite) && b > 0
    ensures Overflows(SealerFor(suite, codec, m.version, m.sender, m.ephemeral, m.payloadKey, m.receivers), b, plaintext)
      <==> |Chunked(m.version, b, plaintext)| > BLOCK_LIMIT
  {
    hide Chunked, Suite.Correct;
  }

  lemma SentMessage(suite: Suite, codec: Codec, m: Sent, b: nat, plaintext: bytes)
    requires m.Valid(suite) && b > 0
    ensures MessagePackets(suite, codec, m, b, plaintext)
         == [HeaderPacket(codec.encode(MakeHeader(suite, m.version, m.sender, m.ephemeral, m.payloadKey, m.receivers)))]
            + Sealed(suite, SealerFor(suite, codec, m.version, m.sender, m.ephemeral, m.payloadKey, m.receivers), b, plaintext)
  {
    hide SealerFor, MakeHeader, Sealed;
  }
}
