/** What the packet streams promise together: a message is delivered as it was sent, and an altered
    list of its packets delivers a prefix of it and no clean end before all of it. */
module Message {
  import opened Bytes
  import opened Nonces
  import opened Chunks
  import opened Packets
  import opened SealStream
  import opened OpenStream

  // ---- round trip ----

  /** Chunks, the first of them block `k`, that a receiver takes as they are. */
  ghost predicate Deliverable(s: Sealer, k: nat, chunks: seq<Chunk>) {
    && chunks != [] && (s.Counted() ==> k + |chunks| <= BLOCK_LIMIT)
    && forall i :: 0 <= i < |chunks| ==>
        && (chunks[i].isFinal <==> i == |chunks| - 1)
        && CheckChunkState(s.Ver(), |chunks[i].data|, (k + i) % TWO_64, chunks[i].isFinal) == Fine
  }

  lemma TakesSealed(suite: Suite, s: Sealer, o: Opener, k: nat, c: Chunk)
    requires suite.Correct() && Matches(suite, s, o) && (s.Counted() ==> k < BLOCK_LIMIT)
    requires CheckChunkState(s.Ver(), |c.data|, k % TWO_64, c.isFinal) == Fine
    ensures Take(suite, o, k, s.Seal(suite, k % TWO_64, c)) == Accepted(c)
  {
    hide Suite.Correct, Sealer.Seal, Opener.Process;
    MatchedVersions(suite, s, o);
    SealedIsWhole(suite, s, k % TWO_64, c);
    OpensSealed(suite, s, o, k % TWO_64, c);
  }

  lemma DeliverableTail(s: Sealer, k: nat, chunks: seq<Chunk>)
    requires Deliverable(s, k, chunks) && |chunks| > 1
    ensures Deliverable(s, k + 1, chunks[1..])
  {
    var rest := chunks[1..];
    forall i | 0 <= i < |rest|
      ensures CheckChunkState(s.Ver(), |rest[i].data|, (k + 1 + i) % TWO_64, rest[i].isFinal) == Fine
      ensures rest[i].isFinal <==> i == |rest| - 1
    {
      assert rest[i] == chunks[i + 1];
      assert (k + 1 + i) % TWO_64 == (k + (i + 1)) % TWO_64;
    }
  }

  lemma DeliverableHead(s: Sealer, k: nat, chunks: seq<Chunk>)
    requires Deliverable(s, k, chunks)
    ensures CheckChunkState(s.Ver(), |chunks[0].data|, k % TWO_64, chunks[0].isFinal) == Fine
    ensures chunks[0].isFinal <==> |chunks| == 1
    ensures s.Counted() ==> k < BLOCK_LIMIT
  {
    assert (k + 0) % TWO_64 == k % TWO_64;
  }

  lemma SealAllHead(suite: Suite, s: Sealer, k: nat, chunks: seq<Chunk>)
    requires chunks != []
    ensures SealAll(suite, s, k, chunks) == [s.Seal(suite, k % TWO_64, chunks[0])] + SealAll(suite, s, k + 1, chunks[1..])
    ensures |chunks| == 1 ==> SealAll(suite, s, k + 1, chunks[1..]) == []
  {
    hide Sealer.Seal;
    SealAllAppend(suite, s, k, [chunks[0]], chunks[1..]);
    assert chunks == [chunks[0]] + chunks[1..];
  }

  lemma {:induction false} SealedDelivers(suite: Suite, s: Sealer, o: Opener, k: nat, chunks: seq<Chunk>, end: Err)
    requires suite.Correct() && Matches(suite, s, o) && chunks != [] && Deliverable(s, k, chunks)
    ensures Deliver(suite, o, k, SealAll(suite, s, k, chunks), end) == Delivery(Data(chunks), end)
    decreases |chunks|
  {
    hide Suite.Correct, Matches, Sealer.Seal, SealAll, Take, Deliverable, CheckChunkState;
    var packets, c := SealAll(suite, s, k, chunks), chunks[0];
    SealAllHead(suite, s, k, chunks);
    DeliverableHead(s, k, chunks);
    TakesSealed(suite, s, o, k, c);
    assert packets[0] == s.Seal(suite, k % TWO_64, c) && packets[1..] == SealAll(suite, s, k + 1, chunks[1..]);
    if |chunks| > 1 {
      DeliverableTail(s, k, chunks);
      SealedDelivers(suite, s, o, k + 1, chunks[1..], end);
    } else {
      assert chunks[1..] == [] && c.data + [] == c.data;
    }
  }

  lemma SealedIsWhole(suite: Suite, s: Sealer, i: nat, c: Chunk)
    requires i < TWO_64
    ensures !s.Seal(suite, i, c).Broken?
  {
  }

  lemma MatchedVersions(suite: Suite, s: Sealer, o: Opener)
    requires Matches(suite, s, o)
    ensures s.Ver() == o.Ver()
  {
  }

  /** A sealed message is delivered whole, and then the stream's own end. */
  lemma MessageDelivers(suite: Suite, s: Sealer, o: Opener, b: nat, plaintext: bytes, end: Err)
    requires suite.Correct() && Matches(suite, s, o) && b > 0 && !Overflows(s, b, plaintext)
    ensures Deliver(suite, o, 0, Sealed(suite, s, b, plaintext), end) == Delivery(plaintext, end)
  {
    hide Chunked, Data, Suite.Correct;
    var chunks := Chunked(s.Ver(), b, plaintext);
    ChunkedWellFramed(s.Ver(), b, plaintext);
    forall i | 0 <= i < |chunks|
      ensures CheckChunkState(s.Ver(), |chunks[i].data|, (0 + i) % TWO_64, chunks[i].isFinal) == Fine {
      ChunkedPassesChecks(s.Ver(), b, plaintext, i);
    }
    SealedDelivers(suite, s, o, 0, chunks, end);
  }

  // ---- nonces ----

  /** Nonce discipline of a whole message: block `i` of what is sent is sealed under the i-th of the
      message's nonces for blocks, and no two of its boxes share one. */
  lemma EncryptedBlocksUseRun(suite: Suite, s: Sealer, b: nat, plaintext: bytes)
    requires s.Encrypting? && b > 0 && !Overflows(s, b, plaintext)
    ensures var chunks, packets := Chunked(s.version, b, plaintext), Sealed(suite, s, b, plaintext);
      && |packets| == |chunks| < TWO_64 && AllDistinct(EncryptionRun(|chunks|))
      && forall i :: 0 <= i < |packets| ==>
          && (packets[i].EncryptionBlockV1? || packets[i].EncryptionBlockV2?)
          && packets[i].ctext == suite.seal(s.payloadKey, EncryptionRun(|chunks|)[i + 1], chunks[i].data)
  {
    hide Chunked, BE64, AllDistinct, PayloadHashInput;
    var chunks := Chunked(s.version, b, plaintext);
    EncryptionRunDistinct(|chunks|);
    assert forall i :: 0 <= i < |chunks| ==> EncryptionRun(|chunks|)[i + 1] == ChunkSecretBoxNonce(i);
  }

  /** The same for signcryption; the sender's key can share a nonce with the last block only, under the
      condition of SigncryptionRunDistinct. */
  lemma SigncryptedBlocksUseRun(suite: Suite, s: Sealer, b: nat, plaintext: bytes)
    requires s.Signcrypting? && b > 0 && !Overflows(s, b, plaintext)
    ensures var chunks, packets := Chunked(V2, b, plaintext), Sealed(suite, s, b, plaintext);
      && |packets| == |chunks| < TWO_64 && AllDistinct(SigncryptionRun(s.headerHash, |chunks|)[1..])
      && forall i :: 0 <= i < |packets| ==>
          && packets[i].SigncryptionBlock?
          && (var n := SigncryptionRun(s.headerHash, |chunks|)[i + 1];
              packets[i].ctext == suite.seal(s.payloadKey, n, s.AttachedSig(suite, n, chunks[i]) + chunks[i].data))
  {
    hide Chunked, FlaggedNonce, AllDistinct, Data, Sealer.AttachedSig;
    var chunks := Chunked(V2, b, plaintext);
    ChunkedWellFramed(V2, b, plaintext);
    SigncryptionRunDistinct(s.headerHash, |chunks|);
    assert forall i :: 0 <= i < |chunks| ==>
      SigncryptionRun(s.headerHash, |chunks|)[i + 1] == FlaggedNonce(s.headerHash, chunks[i].isFinal, i);
  }

  // ---- authenticity ----

  /** A message as its sender made it. */
  datatype Session = Session(sealer: Sealer, b: nat, plaintext: bytes) {
    ghost predicate Valid() {
      b > 0 && |Chunks()| <= TWO_64 && !Overflows(sealer, b, plaintext)
    }

    function Chunks(): seq<Chunk>
      requires b > 0
    {
      Chunked(sealer.Ver(), b, plaintext)
    }
  }

  /** What a signing key can be asked to sign. */
  datatype Statement =
    | Attached(version: Version, headerHash: Digest, seqno: nat, c: Chunk)
    | Detached(headerHash: Digest, plaintext: bytes)
    | Signcrypted(headerHash: Digest, nonce: Nonce, c: Chunk)
  {
    predicate Valid() {
      Attached? ==> seqno < TWO_64
    }

    function Input(suite: Suite): bytes
      requires Valid()
    {
      match this
      case Attached(version, h, seqno, c) => AttachedSignatureInput(suite, version, h, c.data, seqno, c.isFinal)
      case Detached(h, plaintext) => DetachedSignatureInput(suite, h, plaintext)
      case Signcrypted(h, nonce, c) => SigncryptionSignatureInput(suite, h, nonce, c.isFinal, c.data)
    }

    /** The bytes of which the statement contains a hash. */
    function Hashed(): bytes
      requires Valid()
    {
      match this
      case Attached(version, h, seqno, c) => AttachedHashInput(version, h, c.data, seqno, c.isFinal)
      case Detached(h, plaintext) => h + plaintext
      case Signcrypted(_, _, c) => c.data
    }
  }

  /** The statement that block `j` of a session is. */
  function Stated(m: Session, j: nat): Statement
    requires m.b > 0 && j < |m.Chunks()| && j < TWO_64 && !m.sealer.Encrypting?
  {
    var c := m.Chunks()[j];
    match m.sealer
    case Signing(v, h, _) => Attached(v, h, j, c)
    case Signcrypting(_, h, _) => Signcrypted(h, FlaggedNonce(h, c.isFinal, j), c)
  }

  /** What the authenticators of block `j` vouch for. */
  function Vouched(suite: Suite, m: Session, j: nat): bytes
    requires m.b > 0 && j < |m.Chunks()| && j < TWO_64 && m.sealer.Encrypting?
  {
    var c, nonce := m.Chunks()[j], ChunkSecretBoxNonce(j);
    PayloadHashInput(m.sealer.version, m.sealer.headerHash, nonce, suite.seal(m.sealer.payloadKey, nonce, c.data), c.isFinal)
  }

  /** The signing key is used honestly: all that was ever signed, for any message and in any mode, is
      `history`; what of it bears this session's header hash is this session's. */
  ghost predicate HonestSigner(m: Session, history: set<Statement>) {
    && (forall st :: st in history ==> st.Valid())
    && m.Valid()
    && (forall st :: st in history ==>
          && (m.sealer.Signing? && st.Attached? && st.headerHash == m.sealer.headerHash ==>
                st.seqno < |m.Chunks()| && st == Stated(m, st.seqno))
          && (m.sealer.Signcrypting? && st.Signcrypted? && st.headerHash == m.sealer.headerHash ==>
                exists j: nat :: j < |m.Chunks()| && st == Stated(m, j)))
  }

  /** A signature that verifies was made by the key's owner, and hashing did not collide. */
  ghost predicate Unforged(suite: Suite, publicKey: bytes, history: set<Statement>, st: Statement, sig: bytes) {
    st.Valid() && (suite.verify(publicKey, st.Input(suite), sig) ==>
      exists x :: x in history && x.Valid() && x.Input(suite) == st.Input(suite)
                  && (suite.hash(x.Hashed()) == suite.hash(st.Hashed()) ==> x.Hashed() == st.Hashed()))
  }

  /** Nothing about packet `p`, received as block `i`, was forged: its tag, signature or box is accepted
      only if the sender made it. For a tag this means that nobody else knows the MAC key, and that the
      hash it is for is not also the hash of something else. */
  ghost predicate Trusted(suite: Suite, m: Session, o: Opener, history: set<Statement>, i: nat, p: Packet)
    requires m.Valid() && i < TWO_64
  {
    match o
    case Decrypting(v, _, h, macKey, position) =>
      (p.EncryptionBlockV1? || p.EncryptionBlockV2?) && position < |p.authenticators| ==>
        var isFinal := if p.EncryptionBlockV2? then p.isFinal else |p.ctext| == OVERHEAD;
        var input := PayloadHashInput(v, h, ChunkSecretBoxNonce(i), p.ctext, isFinal);
        PayloadAuthenticator(suite, macKey, suite.hash(input)) == p.authenticators[position] ==>
          m.sealer.Encrypting? && exists j: nat :: j < |m.Chunks()| && input == Vouched(suite, m, j)
    case Verifying(v, h, publicKey) =>
      p.SignatureBlockV1? || p.SignatureBlockV2? ==>
        var isFinal := if p.SignatureBlockV2? then p.isFinal else p.chunk == [];
        Unforged(suite, publicKey, history, Attached(v, h, i, Chunk(p.chunk, isFinal)), p.signature)
    case Opening(payloadKey, h, sender) =>
      p.SigncryptionBlock? ==>
        var nonce := FlaggedNonce(h, p.isFinal, i);
        var attached := suite.open(payloadKey, nonce, p.ctext);
        attached.Present? && |attached.value| >= SIGNATURE_SIZE ==>
          if sender.Present? then
            Unforged(suite, sender.value, history, Signcrypted(h, nonce, Chunk(attached.value[SIGNATURE_SIZE..], p.isFinal)),
                     attached.value[..SIGNATURE_SIZE])
          else
            m.sealer.Signcrypting? && exists j: nat :: j < |m.Chunks()| && Boxed(suite, m, j, nonce, p.ctext)
  }

  /** `ctext` is the box of block `j` of a signcrypted message. */
  ghost predicate Boxed(suite: Suite, m: Session, j: nat, nonce: Nonce, ctext: bytes)
    requires m.b > 0 && j < |m.Chunks()| && m.sealer.Signcrypting? && j < TWO_64
  {
    var c := m.Chunks()[j];
    && nonce == FlaggedNonce(m.sealer.headerHash, c.isFinal, j)
    && ctext == suite.seal(m.sealer.payloadKey, nonce, m.sealer.AttachedSig(suite, nonce, c) + c.data)
  }

  // ---- what is authenticated is unambiguous ----

  lemma FlagInjective(f: bool, a: bytes, g: bool, b: bytes)
    requires FlagByte(f) + a == FlagByte(g) + b
    ensures f == g && a == b
  {
    SplitAt(FlagByte(f), a, FlagByte(g), b);
  }

  lemma PayloadHashInjective(v: Version, h: Digest, n: Nonce, c: bytes, f: bool, h': Digest, n': Nonce, c': bytes, f': bool)
    requires PayloadHashInput(v, h, n, c, f) == PayloadHashInput(v, h', n', c', f')
    ensures h == h' && n == n' && c == c' && (v == V2 ==> f == f')
    ensures PayloadHashInput(v, h, n, c, f)[..64] == h
  {
    SplitAt(h, n + (VersionedFlag(v, f) + c), h', n' + (VersionedFlag(v, f') + c'));
    SplitAt(n, VersionedFlag(v, f) + c, n', VersionedFlag(v, f') + c');
    if v == V1 {
      assert [] + c == c && [] + c' == c';
    } else {
      FlagInjective(f, c, f', c');
    }
  }

  lemma AttachedHashInjective(x: Statement, y: Statement)
    requires x.Attached? && y.Attached? && x.Valid() && y.Valid() && x.Hashed() == y.Hashed()
    ensures x.headerHash == y.headerHash && x.seqno == y.seqno
    ensures x.version == y.version ==> x.c.data == y.c.data && (x.version == V2 ==> x.c == y.c)
  {
    hide BE64;
    var a, b := VersionedFlag(x.version, x.c.isFinal) + x.c.data, VersionedFlag(y.version, y.c.isFinal) + y.c.data;
    SplitAt(x.headerHash, BE64(x.seqno) + a, y.headerHash, BE64(y.seqno) + b);
    SplitAt(BE64(x.seqno), a, BE64(y.seqno), b);
    BE64Injective(x.seqno, y.seqno);
    if x.version == y.version {
      if x.version == V1 {
        assert [] + x.c.data == x.c.data && [] + y.c.data == y.c.data;
      } else {
        FlagInjective(x.c.isFinal, x.c.data, y.c.isFinal, y.c.data);
      }
    }
  }

  /** The three signature inputs never coincide; within one kind they determine what was hashed, up to
      collisions. */
  lemma InputsApart(suite: Suite, x: Statement, y: Statement)
    requires x.Valid() && y.Valid() && x.Input(suite) == y.Input(suite)
    ensures x.Attached? <==> y.Attached?
    ensures x.Signcrypted? <==> y.Signcrypted?
    ensures suite.hash(x.Hashed()) == suite.hash(y.Hashed())
    ensures x.Signcrypted? ==> x.headerHash == y.headerHash && x.nonce == y.nonce && x.c.isFinal == y.c.isFinal
  {
    hide BE64, AttachedHashInput, FlagByte;
    Marked(suite, x);
    Marked(suite, y);
    match x
    case Attached(_, _, _, _) => SplitAt(ATTACHED_STRING, suite.hash(x.Hashed()), ATTACHED_STRING, suite.hash(y.Hashed()));
    case Detached(_, _) => SplitAt(DETACHED_STRING, suite.hash(x.Hashed()), DETACHED_STRING, suite.hash(y.Hashed()));
    case Signcrypted(h, n, c) =>
      var a, b := FlagByte(c.isFinal) + suite.hash(c.data), FlagByte(y.c.isFinal) + suite.hash(y.c.data);
      SplitAt(SIGNCRYPTION_STRING, h + (n + a), SIGNCRYPTION_STRING, y.headerHash + (y.nonce + b));
      SplitAt(h, n + a, y.headerHash, y.nonce + b);
      SplitAt(n, a, y.nonce, b);
      FlagInjective(c.isFinal, suite.hash(c.data), y.c.isFinal, suite.hash(y.c.data));
  }

  /** The tenth byte of a signature input tells its kind. */
  lemma Marked(suite: Suite, x: Statement)
    requires x.Valid()
    ensures |x.Input(suite)| > 9
    ensures x.Input(suite)[9] == match x { case Attached(_, _, _, _) => 97 case Detached(_, _) => 100 case _ => 101 }
  {
    hide BE64, AttachedHashInput, FlagByte;
    assert ATTACHED_STRING[9] == 97 && DETACHED_STRING[9] == 100 && SIGNCRYPTION_STRING[9] == 101;
  }

  // ---- one packet ----

  /** What a receiver accepts as block `i` of a session is its block `i`. */
  lemma AcceptedIsSent(suite: Suite, m: Session, o: Opener, history: set<Statement>, i: nat, p: Packet)
    requires suite.Correct() && Matches(suite, m.sealer, o) && HonestSigner(m, history)
    requires i < |m.Chunks()| && i < TWO_64 && Trusted(suite, m, o, history, i, p)
    requires o.Process(suite, i, p).Accepted?
    ensures o.Process(suite, i, p).c == m.Chunks()[i]
  {
    match o
    case Decrypting(_, _, _, _, _) => DecryptedIsSent(suite, m, o, history, i, p);
    case Verifying(_, _, _) => VerifiedIsSent(suite, m, o, history, i, p);
    case Opening(_, _, Present(_)) => SignedBoxIsSent(suite, m, o, history, i, p);
    case Opening(_, _, Absent) => AnonymousBoxIsSent(suite, m, o, history, i, p);
  }

  lemma DecryptedIsSent(suite: Suite, m: Session, o: Opener, history: set<Statement>, i: nat, p: Packet)
    requires suite.Correct() && Matches(suite, m.sealer, o) && m.Valid() && o.Decrypting?
    requires i < |m.Chunks()| && i < TWO_64 && Trusted(suite, m, o, history, i, p)
    requires o.Process(suite, i, p).Accepted?
    ensures o.Process(suite, i, p).c == m.Chunks()[i]
  {
    hide BE64, PayloadHashInput, PayloadAuthenticator, Session.Chunks;
    var isFinal := if p.EncryptionBlockV2? then p.isFinal else |p.ctext| == OVERHEAD;
    var nonce := ChunkSecretBoxNonce(i);
    var input := PayloadHashInput(o.version, o.headerHash, nonce, p.ctext, isFinal);
    var j: nat :| j < |m.Chunks()| && input == Vouched(suite, m, j);
    var c, sent := m.Chunks()[j], suite.seal(o.payloadKey, ChunkSecretBoxNonce(j), m.Chunks()[j].data);
    PayloadHashInjective(o.version, o.headerHash, nonce, p.ctext, isFinal,
                         m.sealer.headerHash, ChunkSecretBoxNonce(j), sent, c.isFinal);
    ChunkSecretBoxNonceInjective(i, j);
    assert suite.open(o.payloadKey, nonce, sent) == Present(c.data) && |sent| == |c.data| + OVERHEAD;
    SessionChunk(m, j);
  }

  lemma SessionChunk(m: Session, j: nat)
    requires m.b > 0 && j < |m.Chunks()|
    ensures m.sealer.Ver() == V1 ==> m.Chunks()[j].isFinal == (m.Chunks()[j].data == [])
    ensures m.Chunks()[j].isFinal <==> j == |m.Chunks()| - 1
    ensures CheckChunkState(m.sealer.Ver(), |m.Chunks()[j].data|, j, m.Chunks()[j].isFinal) == Fine
  {
    hide Chunked;
    ChunkedPassesChecks(m.sealer.Ver(), m.b, m.plaintext, j);
    ChunkedWellFramed(m.sealer.Ver(), m.b, m.plaintext);
  }

  lemma VerifiedIsSent(suite: Suite, m: Session, o: Opener, history: set<Statement>, i: nat, p: Packet)
    requires Matches(suite, m.sealer, o) && HonestSigner(m, history) && o.Verifying?
    requires i < |m.Chunks()| && i < TWO_64 && Trusted(suite, m, o, history, i, p)
    requires o.Process(suite, i, p).Accepted?
    ensures o.Process(suite, i, p).c == m.Chunks()[i]
  {
    hide BE64, AttachedSignatureInput, AttachedHashInput, Session.Chunks;
    var isFinal := if p.SignatureBlockV2? then p.isFinal else p.chunk == [];
    var st := Attached(o.version, o.headerHash, i, Chunk(p.chunk, isFinal));
    var x :| x in history && x.Valid() && x.Input(suite) == st.Input(suite)
      && (suite.hash(x.Hashed()) == suite.hash(st.Hashed()) ==> x.Hashed() == st.Hashed());
    InputsApart(suite, x, st);
    AttachedHashInjective(x, st);
    SessionChunk(m, i);
  }

  lemma SignedBoxIsSent(suite: Suite, m: Session, o: Opener, history: set<Statement>, i: nat, p: Packet)
    requires Matches(suite, m.sealer, o) && HonestSigner(m, history) && o.Opening? && o.sender.Present?
    requires i < |m.Chunks()| && i < TWO_64 && Trusted(suite, m, o, history, i, p)
    requires o.Process(suite, i, p).Accepted?
    ensures o.Process(suite, i, p).c == m.Chunks()[i]
  {
    hide BE64, FlaggedNonce, SigncryptionSignatureInput, Session.Chunks;
    var nonce := FlaggedNonce(o.headerHash, p.isFinal, i);
    var attached := suite.open(o.payloadKey, nonce, p.ctext).value;
    var st := Signcrypted(o.headerHash, nonce, Chunk(attached[SIGNATURE_SIZE..], p.isFinal));
    var x :| x in history && x.Valid() && x.Input(suite) == st.Input(suite)
      && (suite.hash(x.Hashed()) == suite.hash(st.Hashed()) ==> x.Hashed() == st.Hashed());
    InputsApart(suite, x, st);
    var j: nat :| j < |m.Chunks()| && x == Stated(m, j);
    FlaggedNonceInjective(o.headerHash, p.isFinal, i, m.Chunks()[j].isFinal, j);
  }

  lemma AnonymousBoxIsSent(suite: Suite, m: Session, o: Opener, history: set<Statement>, i: nat, p: Packet)
    requires suite.Correct() && Matches(suite, m.sealer, o) && m.Valid() && o.Opening? && o.sender.Absent?
    requires i < |m.Chunks()| && i < TWO_64 && Trusted(suite, m, o, history, i, p)
    requires o.Process(suite, i, p).Accepted?
    ensures o.Process(suite, i, p).c == m.Chunks()[i]
  {
    hide BE64, FlaggedNonce, SigncryptionSignatureInput, Session.Chunks, Sealer.AttachedSig;
    var nonce := FlaggedNonce(o.headerHash, p.isFinal, i);
    var j: nat :| j < |m.Chunks()| && Boxed(suite, m, j, nonce, p.ctext);
    var c := m.Chunks()[j];
    FlaggedNonceInjective(o.headerHash, p.isFinal, i, c.isFinal, j);
    var attached := m.sealer.AttachedSig(suite, nonce, c) + c.data;
    assert suite.open(o.payloadKey, nonce, p.ctext) == Present(attached);
    assert attached[SIGNATURE_SIZE..] == c.data;
  }

  /** The genuine packets are trusted, so the hypothesis holds of an honest run: the signer need only
      have signed the blocks. */
  lemma SentIsTrusted(suite: Suite, m: Session, o: Opener, history: set<Statement>, i: nat)
    requires suite.Correct() && m.Valid() && Matches(suite, m.sealer, o)
    requires i < |m.Chunks()| && i < TWO_64 && (!m.sealer.Encrypting? ==> Stated(m, i) in history)
    ensures Trusted(suite, m, o, history, i, m.sealer.Seal(suite, i, m.Chunks()[i]))
  {
    hide BE64, FlaggedNonce, AttachedSignatureInput, SigncryptionSignatureInput, PayloadHashInput, Session.Chunks;
    var c, p := m.Chunks()[i], m.sealer.Seal(suite, i, m.Chunks()[i]);
    SessionChunk(m, i);
    match m.sealer
    case Encrypting(_, key, _, _) =>
      var sent := suite.seal(key, ChunkSecretBoxNonce(i), c.data);
      assert |sent| == |c.data| + OVERHEAD;
      assert PayloadHashInput(o.version, o.headerHash, ChunkSecretBoxNonce(i), p.ctext, c.isFinal) == Vouched(suite, m, i);
    case Signing(_, _, _) =>
    case Signcrypting(key, h, _) =>
      var nonce := FlaggedNonce(h, c.isFinal, i);
      var attached := m.sealer.AttachedSig(suite, nonce, c) + c.data;
      assert suite.open(key, nonce, p.ctext) == Present(attached) && attached[SIGNATURE_SIZE..] == c.data;
      assert Boxed(suite, m, i, nonce, p.ctext);
  }

  // ---- what a packet is bound to ----

  /** What the sender's tags are for. */
  function TaggedAs(suite: Suite, s: Sealer, i: nat, c: Chunk): bytes
    requires s.Encrypting? && i < TWO_64
  {
    PayloadHashInput(s.version, s.headerHash, ChunkSecretBoxNonce(i),
                     suite.seal(s.payloadKey, ChunkSecretBoxNonce(i), c.data), c.isFinal)
  }

  /** What a receiver checks the tags of the same packet for, as block `j`. */
  function CheckedAs(suite: Suite, s: Sealer, i: nat, c: Chunk, o: Opener, j: nat): bytes
    requires s.Encrypting? && o.Decrypting? && i < TWO_64 && j < TWO_64
  {
    PayloadHashInput(o.version, o.headerHash, ChunkSecretBoxNonce(j),
                     suite.seal(s.payloadKey, ChunkSecretBoxNonce(i), c.data), c.isFinal)
  }

  /** A tag of this packet, checked with the receiver's key, is no tag of anything else. */
  ghost predicate TagBinds(suite: Suite, s: Sealer, i: nat, c: Chunk, o: Opener, j: nat)
    requires s.Encrypting? && o.Decrypting? && i < TWO_64 && j < TWO_64
  {
    o.position < |s.macKeys| ==>
      var x, y, key := TaggedAs(suite, s, i, c), CheckedAs(suite, s, i, c, o, j), s.macKeys[o.position];
      PayloadAuthenticator(suite, key, suite.hash(x)) == PayloadAuthenticator(suite, o.macKey, suite.hash(y)) ==>
        x == y && key == o.macKey
  }

  /** An encrypted packet is accepted only under the header hash, at the place and with the MAC key that it
      was sealed for. */
  lemma EncryptedBinds(suite: Suite, s: Sealer, i: nat, c: Chunk, o: Opener, j: nat)
    requires suite.Correct() && s.Encrypting? && o.Decrypting? && i < TWO_64 && j < TWO_64
    requires s.version == V1 ==> c.isFinal == (c.data == [])
    requires TagBinds(suite, s, i, c, o, j) && o.Process(suite, j, s.Seal(suite, i, c)).Accepted?
    ensures o.version == s.version && o.headerHash == s.headerHash && j == i
    ensures o.position < |s.macKeys| && o.macKey == s.macKeys[o.position]
    ensures o.payloadKey == s.payloadKey ==> o.Process(suite, j, s.Seal(suite, i, c)).c == c
  {
    hide BE64, PayloadHashInput, PayloadAuthenticator, ChunkSecretBoxNonce;
    var n, sent := ChunkSecretBoxNonce(i), suite.seal(s.payloadKey, ChunkSecretBoxNonce(i), c.data);
    assert |sent| == |c.data| + OVERHEAD && suite.open(s.payloadKey, n, sent) == Present(c.data);
    assert TaggedAs(suite, s, i, c) == CheckedAs(suite, s, i, c, o, j);
    PayloadHashInjective(s.version, s.headerHash, n, sent, c.isFinal, o.headerHash, ChunkSecretBoxNonce(j), sent, c.isFinal);
    ChunkSecretBoxNonceInjective(i, j);
  }

  /** A signature over `x` verifies for `y` only if they are the same statement. */
  ghost predicate SignatureBinds(suite: Suite, x: Statement, publicKey: bytes, y: Statement, sig: bytes)
    requires x.Valid() && y.Valid()
  {
    && (suite.verify(publicKey, y.Input(suite), sig) ==> x.Input(suite) == y.Input(suite))
    && (suite.hash(x.Hashed()) == suite.hash(y.Hashed()) ==> x.Hashed() == y.Hashed())
  }

  /** The same for signed packets. */
  lemma SignedBinds(suite: Suite, s: Sealer, i: nat, c: Chunk, o: Opener, j: nat)
    requires suite.Correct() && s.Signing? && o.Verifying? && i < TWO_64 && j < TWO_64
    requires s.version == V1 ==> c.isFinal == (c.data == [])
    requires var x, y := Attached(s.version, s.headerHash, i, c), Attached(o.version, o.headerHash, j, c);
      SignatureBinds(suite, x, o.publicKey, y, suite.sign(s.secretKey, x.Input(suite)))
    requires o.Process(suite, j, s.Seal(suite, i, c)).Accepted?
    ensures o.version == s.version && o.headerHash == s.headerHash && j == i
    ensures o.Process(suite, j, s.Seal(suite, i, c)).c == c
  {
    hide BE64, AttachedSignatureInput, AttachedHashInput;
    var x, y := Attached(s.version, s.headerHash, i, c), Attached(o.version, o.headerHash, j, c);
    InputsApart(suite, x, y);
    AttachedHashInjective(x, y);
  }

  /** And for signed signcryption, whatever the boxes open to: the signature alone binds the chunk, its
      place and the header. */
  lemma SigncryptedBinds(suite: Suite, x: Statement, o: Opener, j: nat, p: Packet, attached: bytes)
    requires suite.Correct() && x.Signcrypted? && o.Opening? && o.sender.Present? && p.SigncryptionBlock? && j < TWO_64
    requires suite.open(o.payloadKey, FlaggedNonce(o.headerHash, p.isFinal, j), p.ctext) == Present(attached)
    requires |attached| >= SIGNATURE_SIZE ==>
      var y := Signcrypted(o.headerHash, FlaggedNonce(o.headerHash, p.isFinal, j), Chunk(attached[SIGNATURE_SIZE..], p.isFinal));
      SignatureBinds(suite, x, o.sender.value, y, attached[..SIGNATURE_SIZE])
    requires o.Process(suite, j, p).Accepted?
    ensures o.headerHash == x.headerHash && x.nonce == FlaggedNonce(o.headerHash, p.isFinal, j)
    ensures o.Process(suite, j, p).c == x.c
  {
    hide BE64, FlaggedNonce, SigncryptionSignatureInput;
    var y := Signcrypted(o.headerHash, FlaggedNonce(o.headerHash, p.isFinal, j), Chunk(attached[SIGNATURE_SIZE..], p.isFinal));
    assert y.Input(suite) == SigncryptionSignatureInput(suite, o.headerHash, y.nonce, p.isFinal, y.c.data);
    InputsApart(suite, x, y);
  }

  // ---- genuine packets out of place ----

  /** What the authenticators of block `j` are checked against at place `i`. */
  function VouchedAt(suite: Suite, m: Session, i: nat, j: nat): bytes
    requires m.b > 0 && j < |m.Chunks()| && j < TWO_64 && i < TWO_64 && m.sealer.Encrypting?
  {
    var c := m.Chunks()[j];
    PayloadHashInput(m.sealer.version, m.sealer.headerHash, ChunkSecretBoxNonce(i),
                     suite.seal(m.sealer.payloadKey, ChunkSecretBoxNonce(j), c.data), c.isFinal)
  }

  /** The box of block `j` of a signcrypted message. */
  function BoxOf(suite: Suite, m: Session, j: nat): bytes
    requires m.b > 0 && j < |m.Chunks()| && j < TWO_64 && m.sealer.Signcrypting?
  {
    var c := m.Chunks()[j];
    var nonce := FlaggedNonce(m.sealer.headerHash, c.isFinal, j);
    suite.seal(m.sealer.payloadKey, nonce, m.sealer.AttachedSig(suite, nonce, c) + c.data)
  }

  /** On the packets of one session hashes, tags, signatures and boxes do not collide: none of them is
      good for another place. */
  ghost predicate Binding(suite: Suite, m: Session, o: Opener)
    requires m.Valid()
  {
    forall i: nat, j: nat :: i < TWO_64 && j < |m.Chunks()| ==> BindsAt(suite, m, o, i, j)
  }

  ghost predicate BindsAt(suite: Suite, m: Session, o: Opener, i: nat, j: nat)
    requires m.Valid() && i < TWO_64 && j < |m.Chunks()|
  {
    match m.sealer
    case Encrypting(_, _, _, _) =>
      var x, y := VouchedAt(suite, m, i, j), VouchedAt(suite, m, j, j);
      o.Decrypting? && PayloadAuthenticator(suite, o.macKey, suite.hash(x)) == PayloadAuthenticator(suite, o.macKey, suite.hash(y)) ==>
        x == y
    case Signing(v, h, key) =>
      var x, y := Attached(v, h, i, m.Chunks()[j]), Attached(v, h, j, m.Chunks()[j]);
      && (suite.verify(suite.signPublic(key), x.Input(suite), suite.sign(key, y.Input(suite))) ==> x.Input(suite) == y.Input(suite))
      && (suite.hash(x.Hashed()) == suite.hash(y.Hashed()) ==> x.Hashed() == y.Hashed())
    case Signcrypting(key, h, _) =>
      suite.open(key, FlaggedNonce(h, m.Chunks()[j].isFinal, i), BoxOf(suite, m, j)).Present? ==> i == j
  }

  /** A genuine packet is trusted wherever it stands. */
  lemma MisplacedIsTrusted(suite: Suite, m: Session, o: Opener, history: set<Statement>, i: nat, j: nat)
    requires suite.Correct() && m.Valid() && Matches(suite, m.sealer, o) && Binding(suite, m, o)
    requires i < TWO_64 && j < |m.Chunks()| && (!m.sealer.Encrypting? ==> Stated(m, j) in history)
    ensures Trusted(suite, m, o, history, i, m.sealer.Seal(suite, j, m.Chunks()[j]))
  {
    hide BE64, FlaggedNonce, AttachedSignatureInput, SigncryptionSignatureInput, PayloadHashInput, Session.Chunks;
    hide PayloadAuthenticator, AttachedHashInput;
    assert BindsAt(suite, m, o, i, j);
    if i == j {
      SentIsTrusted(suite, m, o, history, i);
      return;
    }
    var c := m.Chunks()[j];
    SessionChunk(m, j);
    match m.sealer
    case Encrypting(_, key, _, _) =>
      var sent := suite.seal(key, ChunkSecretBoxNonce(j), c.data);
      assert |sent| == |c.data| + OVERHEAD;
      assert VouchedAt(suite, m, j, j) == Vouched(suite, m, j);
    case Signing(v, h, _) =>
      assert Attached(v, h, j, c) == Stated(m, j);
    case Signcrypting(_, _, _) =>
  }

  /** The packets of a session in any order, each any number of times or not at all. */
  function Rearranged(suite: Suite, m: Session, order: seq<nat>): seq<Packet>
    requires m.Valid() && forall n :: 0 <= n < |order| ==> order[n] < |m.Chunks()|
  {
    seq(|order|, n requires 0 <= n < |order| => m.sealer.Seal(suite, order[n], m.Chunks()[order[n]]))
  }

  /** Packets dropped, reordered and repeated: only a prefix of the message comes out of them, and a clean
      end only if all of it does. Of the signer it is asked that the blocks were signed, of the
      cryptography that nothing collides within the session. */
  lemma RearrangedPrefix(suite: Suite, m: Session, o: Opener, history: set<Statement>, order: seq<nat>, end: Err)
    requires suite.Correct() && Matches(suite, m.sealer, o) && HonestSigner(m, history) && m.Valid()
    requires Binding(suite, m, o) && forall n :: 0 <= n < |order| ==> order[n] < |m.Chunks()|
    requires !m.sealer.Encrypting? ==> forall j: nat :: j < |m.Chunks()| ==> Stated(m, j) in history
    ensures var d := Deliver(suite, o, 0, Rearranged(suite, m, order), end);
      d.data <= m.plaintext && (d.err == EOF ==> d.data == m.plaintext)
  {
    hide Suite.Correct, Matches, HonestSigner, Session.Chunks, Binding, Trusted, Sealer.Seal, Session.Valid;
    var packets := Rearranged(suite, m, order);
    forall n | 0 <= n < |packets| && 0 + n < TWO_64
      ensures Trusted(suite, m, o, history, 0 + n, packets[n]) {
      MisplacedIsTrusted(suite, m, o, history, n, order[n]);
    }
    AuthenticatedPrefix(suite, m, o, history, packets, end);
  }

  // ---- any list of packets ----

  /** Every packet is trusted where it stands. */
  ghost predicate AllTrusted(suite: Suite, m: Session, o: Opener, history: set<Statement>, i: nat, packets: seq<Packet>)
    requires m.Valid()
  {
    forall k :: 0 <= k < |packets| && i + k < TWO_64 ==> Trusted(suite, m, o, history, i + k, packets[k])
  }

  lemma HonestValid(m: Session, history: set<Statement>)
    requires HonestSigner(m, history)
    ensures m.Valid()
  {
  }

  lemma TakesSent(suite: Suite, m: Session, o: Opener, history: set<Statement>, i: nat, p: Packet)
    requires suite.Correct() && Matches(suite, m.sealer, o) && HonestSigner(m, history)
    requires m.Valid() && i < |m.Chunks()| && i < TWO_64 && Trusted(suite, m, o, history, i, p)
    ensures Take(suite, o, i, p).Accepted? ==> Take(suite, o, i, p).c == m.Chunks()[i]
    ensures Take(suite, o, i, p).Refused? ==> Take(suite, o, i, p).err != EOF
  {
    hide Suite.Correct, HonestSigner, Matches, Trusted, Opener.Process, Session.Chunks, CheckChunkState, Session.Valid;
    assert i % TWO_64 == i;
    NoPanic(suite, o, i, p);
    if o.Process(suite, i, p).Accepted? {
      AcceptedIsSent(suite, m, o, history, i, p);
    }
  }

  lemma AllTrustedTail(suite: Suite, m: Session, o: Opener, history: set<Statement>, i: nat, packets: seq<Packet>)
    requires m.Valid() && AllTrusted(suite, m, o, history, i, packets) && packets != []
    ensures i < TWO_64 ==> Trusted(suite, m, o, history, i, packets[0])
    ensures AllTrusted(suite, m, o, history, i + 1, packets[1..])
  {
    hide Trusted;
    forall k | 0 <= k < |packets| - 1 && i + 1 + k < TWO_64
      ensures Trusted(suite, m, o, history, i + 1 + k, packets[1..][k]) {
      assert i + 1 + k == i + (k + 1) && packets[1..][k] == packets[k + 1];
    }
    assert i + 0 == i;
  }

  /** From block `i` on, whatever packets come, what is delivered is a prefix of what was sent from
      block `i` on, and a clean end comes only after all of it. */
  lemma {:induction false} DeliversPrefix(suite: Suite, m: Session, o: Opener, history: set<Statement>, i: nat,
                                          packets: seq<Packet>, end: Err)
    requires suite.Correct() && Matches(suite, m.sealer, o) && HonestSigner(m, history) && m.Valid()
    requires i < |m.Chunks()| && AllTrusted(suite, m, o, history, i, packets)
    ensures var d := Deliver(suite, o, i, packets, end);
      && d.data <= Data(m.Chunks()[i..])
      && (d.err == EOF ==> d.data == Data(m.Chunks()[i..]))
    decreases |packets|
  {
    hide Suite.Correct, HonestSigner, Matches, AllTrusted, Trusted, Take, Chunked;
    if packets != [] {
      var c, rest, next := m.Chunks()[i], m.Chunks()[i..], Deliver(suite, o, i + 1, packets[1..], end);
      AllTrustedTail(suite, m, o, history, i, packets);
      TakesSent(suite, m, o, history, i, packets[0]);
      SessionChunk(m, i);
      assert rest[0] == c && rest[1..] == m.Chunks()[i + 1..];
      if c.isFinal {
        assert c.data + [] == c.data;
      } else {
        DeliversPrefix(suite, m, o, history, i + 1, packets[1..], end);
        PrefixAfter(c.data, next.data, Data(rest[1..]));
      }
    }
  }

  lemma PrefixAfter(a: bytes, b: bytes, c: bytes)
    requires b <= c
    ensures a + b <= a + c
  {
  }

  /** Authenticated-prefix safety: packets dropped, reordered, repeated, replaced, truncated or added,
      a receiver delivers a prefix of the plaintext, and a clean end only after all of it. */
  lemma AuthenticatedPrefix(suite: Suite, m: Session, o: Opener, history: set<Statement>, packets: seq<Packet>, end: Err)
    requires suite.Correct() && Matches(suite, m.sealer, o) && HonestSigner(m, history)
    requires AllTrusted(suite, m, o, history, 0, packets)
    ensures var d := Deliver(suite, o, 0, packets, end);
      d.data <= m.plaintext && (d.err == EOF ==> d.data == m.plaintext)
  {
    hide Chunked, Data, Matches, Suite.Correct, AllTrusted;
    HonestValid(m, history);
    hide HonestSigner;
    ChunkedWellFramed(m.sealer.Ver(), m.b, m.plaintext);
    DeliversPrefix(suite, m, o, history, 0, packets, end);
    assert m.Chunks()[0..] == m.Chunks();
  }

  /** The bound in Session.Valid is exact for signed messages, whose block numbers wrap around: of a
      longer message the packets from block 2^64 on pass for a whole message by themselves. */
  lemma SignaturesWrapAround(suite: Suite, s: Sealer, o: Opener, b: nat, plaintext: bytes)
    requires suite.Correct() && Matches(suite, s, o) && s.Signing? && b > 0
    requires |Chunked(s.Ver(), b, plaintext)| > TWO_64
    ensures var d := Deliver(suite, o, 0, Sealed(suite, s, b, plaintext)[TWO_64..], EOF);
      d.err == EOF && d.data != plaintext
  {
    hide Suite.Correct, Matches, Chunked, Data, Sealer.Seal, SealAll, Deliverable;
    var chunks := Chunked(s.Ver(), b, plaintext);
    ChunkedWellFramed(s.Ver(), b, plaintext);
    WrappedTail(suite, s, b, plaintext);
    SealedDelivers(suite, s, o, 0, chunks[TWO_64..], EOF);
    assert chunks == chunks[..TWO_64] + chunks[TWO_64..];
    DataAppend(chunks[..TWO_64], chunks[TWO_64..]);
    FirstHasData(s.Ver(), b, chunks, TWO_64);
  }

  /** The packets of the chunks from 2^64 on are those of a message that begins there. */
  lemma WrappedTail(suite: Suite, s: Sealer, b: nat, plaintext: bytes)
    requires s.Signing? && b > 0 && |Chunked(s.Ver(), b, plaintext)| > TWO_64
    ensures var tail := Chunked(s.Ver(), b, plaintext)[TWO_64..];
      Deliverable(s, 0, tail) && Sealed(suite, s, b, plaintext)[TWO_64..] == SealAll(suite, s, 0, tail)
  {
    hide Chunked, Sealer.Seal, CheckChunkState, Data, SealAll;
    var chunks := Chunked(s.Ver(), b, plaintext);
    var tail := chunks[TWO_64..];
    ChunkedWellFramed(s.Ver(), b, plaintext);
    forall i | 0 <= i < |tail|
      ensures tail[i].isFinal <==> i == |tail| - 1
      ensures CheckChunkState(s.Ver(), |tail[i].data|, (0 + i) % TWO_64, tail[i].isFinal) == Fine {
      assert tail[i] == chunks[TWO_64 + i] && (TWO_64 + i) % TWO_64 == (0 + i) % TWO_64;
      ChunkedPassesChecks(s.Ver(), b, plaintext, TWO_64 + i);
    }
    SealAllWraps(suite, s, chunks);
  }

  lemma SealAllWraps(suite: Suite, s: Sealer, chunks: seq<Chunk>)
    requires |chunks| > TWO_64
    ensures SealAll(suite, s, 0, chunks)[TWO_64..] == SealAll(suite, s, 0, chunks[TWO_64..])
  {
    hide Sealer.Seal;
    var a, b := SealAll(suite, s, 0, chunks)[TWO_64..], SealAll(suite, s, 0, chunks[TWO_64..]);
    forall i | 0 <= i < |b| ensures a[i] == b[i] {
      assert (0 + (TWO_64 + i)) % TWO_64 == (0 + i) % TWO_64;
    }
  }

  lemma FirstHasData(v: Version, b: nat, chunks: seq<Chunk>, k: nat)
    requires b > 0 && WellFramed(v, b, chunks) && 1 <= k < |chunks|
    ensures Data(chunks[..k]) != []
  {
    assert chunks[..k][0] == chunks[0];
  }

  // ---- whole runs ----

  /** The packet-stream round trip: however the plaintext is cut into Writes and whatever the sizes of
      the reads, a receiver with matching keys reads the plaintext and then a clean end. */
  method SendThenReceive(suite: Suite, s: Sealer, o: Opener, b: nat, header: Packet, pieces: seq<bytes>)
    returns (data: bytes, err: Err)
    requires suite.Correct() && Matches(suite, s, o) && b > 0 && !header.Broken?
    requires !Overflows(s, b, Concat(pieces))
    ensures data == Concat(pieces) && err == None
  {
    hide Suite.Correct, Matches, Overflows, Concat, Sealed, Deliver, Sealer.Seal;
    var output, e := SealMessage(suite, s, b, [header], pieces);
    assert output[0] == header && output[1..] == Sealed(suite, s, b, Concat(pieces));
    SealedEnds(suite, s, b, Concat(pieces), header);
    var mps := new MsgpackStream(output, EOF);
    var first, seqno;
    first, seqno, e := mps.Read();
    MessageDelivers(suite, s, o, b, Concat(pieces), EOF);
    data, err := OpenAll(suite, o, mps);
  }

  lemma SealedEnds(suite: Suite, s: Sealer, b: nat, plaintext: bytes, header: Packet)
    requires b > 0 && !header.Broken?
    ensures Ends([header] + Sealed(suite, s, b, plaintext), EOF)
  {
    hide Sealer.Seal, Chunked;
    var packets := Sealed(suite, s, b, plaintext);
    var chunks := Chunked(s.Ver(), b, plaintext);
    forall i | 0 <= i < |packets| ensures !packets[i].Broken? {
      SealedIsWhole(suite, s, (0 + i) % TWO_64, chunks[i]);
    }
  }

  /** Reading any packets after a genuine header. */
  method ReceiveAny(suite: Suite, o: Opener, mps: MsgpackStream, ghost m: Session, ghost history: set<Statement>)
    returns (data: bytes, err: Err)
    requires suite.Correct() && mps.Valid() && mps.count == 1
    requires Matches(suite, m.sealer, o) && HonestSigner(m, history) && m.Valid()
    requires AllTrusted(suite, m, o, history, 0, mps.packets)
    modifies mps
    ensures data <= m.plaintext && (err == None ==> data == m.plaintext)
  {
    hide Suite.Correct, Matches, HonestSigner, AllTrusted, Deliver;
    AuthenticatedPrefix(suite, m, o, history, mps.packets, mps.end);
    DeliverEnds(suite, o, 0, mps.packets, mps.end);
    data, err := OpenAll(suite, o, mps);
  }
}
