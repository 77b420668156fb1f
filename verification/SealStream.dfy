/** The sending streams: encryptStream (encrypt.go), signAttachedStream (sign_stream.go) and
    signcryptSealStream (signcrypt_seal.go). Their Write and Close methods differ only in what a
    `Sealer` says, so they are one class here. */
module SealStream {
  import opened Bytes
  import opened Radix
  import opened Nonces
  import opened Chunks
  import opened Packets

  /** How many blocks a counted stream can have: the last uint64 is refused as a block number. */
  const BLOCK_LIMIT := TWO_64 - 1

  /** The packets of chunks whose first block number is `k`, a uint64 that may wrap around. */
  function SealAll(suite: Suite, sealer: Sealer, k: nat, chunks: seq<Chunk>): (r: seq<Packet>)
    ensures |r| == |chunks|
  {
    seq(|chunks|, i requires 0 <= i < |chunks| => sealer.Seal(suite, (k + i) % TWO_64, chunks[i]))
  }

  /** The packets of a whole message. */
  function Sealed(suite: Suite, sealer: Sealer, b: nat, s: bytes): seq<Packet>
    requires b > 0
  {
    SealAll(suite, sealer, 0, Chunked(sealer.Ver(), b, s))
  }

  /** A message that needs more blocks than can be counted. */
  predicate Overflows(sealer: Sealer, b: nat, s: bytes)
    requires b > 0
  {
    sealer.Counted() && |Chunked(sealer.Ver(), b, s)| > BLOCK_LIMIT
  }

  /** What a call does in all: it returns, or panics. */
  datatype Outcome = Done(err: Err) | Panicked

  /** A Write that brings the input to `s` has to seal a block whose number is refused. */
  predicate WriteFails(sealer: Sealer, b: nat, s: bytes) {
    sealer.Counted() && |s| > TWO_64 * b
  }

  /** Close, after any Writes that brought the input to `s`. A Write that failed has lost a block from the
      buffer; V2 panics if there is then still more in it than the last block. */
  function CloseOutcome(sealer: Sealer, b: nat, s: bytes): Outcome
    requires b > 0
  {
    if sealer.Ver() == V2 && sealer.Counted() && |s| > (TWO_64 + 1) * b then Panicked
    else Done(if Overflows(sealer, b, s) then Rejected(PacketOverflow) else None)
  }

  /** What is taken of the Writes: all of them up to the first that fails, which is in the buffer too. */
  function Taken(sealer: Sealer, b: nat, s: bytes, pieces: seq<bytes>): bytes
    decreases |pieces|
  {
    if pieces == [] || WriteFails(sealer, b, s) then s else Taken(sealer, b, s + pieces[0], pieces[1..])
  }

  lemma SealAllAppend(suite: Suite, sealer: Sealer, k: nat, a: seq<Chunk>, b: seq<Chunk>)
    ensures SealAll(suite, sealer, k, a + b) == SealAll(suite, sealer, k, a) + SealAll(suite, sealer, k + |a|, b)
  {
    hide Sealer.Seal;
  }

  /** The next block, after `a`. */
  lemma SealAllSnoc(suite: Suite, sealer: Sealer, a: seq<Chunk>, c: Chunk, i: nat)
    requires i == |a| % TWO_64
    ensures SealAll(suite, sealer, 0, a + [c]) == SealAll(suite, sealer, 0, a) + [sealer.Seal(suite, i, c)]
  {
    hide Sealer.Seal;
  }

  /** What is still to be written at Close, V1: the buffer if there is anything in it, and an empty
      block. */
  lemma LastBlocksV1(suite: Suite, sealer: Sealer, b: nat, s: bytes, r: bytes, n: nat, front: seq<Packet>)
    requires sealer.Ver() == V1 && b > 0 && |s| == n * b && (n > 0 ==> r != []) && |r| <= b
    ensures var before, end := front + SealAll(suite, sealer, 0, FullChunks(b, s)), Chunk([], true);
      front + Sealed(suite, sealer, b, s + r) ==
        if r == [] then before + [sealer.Seal(suite, n % TWO_64, end)]
        else before + [sealer.Seal(suite, n % TWO_64, Chunk(r, false))] + [sealer.Seal(suite, (n + 1) % TWO_64, end)]
    ensures Overflows(sealer, b, s + r) <==> sealer.Counted() && n + (if r == [] then 1 else 2) > BLOCK_LIMIT
  {
    hide SealAll, FullChunks, Sealer.Seal;
    var full, c, end := FullChunks(b, s), Chunk(r, false), Chunk([], true);
    var before := SealAll(suite, sealer, 0, full);
    ChunkedAppend(V1, b, s, r, n);
    if r == [] {
      SealAllSnoc(suite, sealer, full, end, n % TWO_64);
      SeqAssoc(front, before, [sealer.Seal(suite, n % TWO_64, end)]);
    } else {
      var p, q := sealer.Seal(suite, n % TWO_64, c), sealer.Seal(suite, (n + 1) % TWO_64, end);
      SeqAssoc(front, before, [p]);
      SeqAssoc(front, before + [p], [q]);
      SealAllSnoc(suite, sealer, full, c, n % TWO_64);
      SealAllSnoc(suite, sealer, full + [c], end, (n + 1) % TWO_64);
      assert full + [c] + [end] == full + [c, end];
    }
  }

  /** V2: the buffer, flagged as the last block. */
  lemma LastBlockV2(suite: Suite, sealer: Sealer, b: nat, s: bytes, r: bytes, n: nat, front: seq<Packet>)
    requires sealer.Ver() == V2 && b > 0 && |s| == n * b && (n > 0 ==> r != []) && |r| <= b
    ensures front + Sealed(suite, sealer, b, s + r)
         == front + SealAll(suite, sealer, 0, FullChunks(b, s)) + [sealer.Seal(suite, n % TWO_64, Chunk(r, true))]
    ensures Overflows(sealer, b, s + r) <==> sealer.Counted() && n + 1 > BLOCK_LIMIT
  {
    hide SealAll, FullChunks, Sealer.Seal;
    ChunkedAppend(V2, b, s, r, n);
    SealAllSnoc(suite, sealer, FullChunks(b, s), Chunk(r, true), n % TWO_64);
    SeqAssoc(front, SealAll(suite, sealer, 0, FullChunks(b, s)), [sealer.Seal(suite, n % TWO_64, Chunk(r, true))]);
  }

  /** A full block sealed before the last one. */
  lemma OneMoreBlock(suite: Suite, sealer: Sealer, b: nat, s: bytes, r: bytes, n: nat, front: seq<Packet>)
    requires b > 0 && |s| == n * b && |r| > b
    ensures front + SealAll(suite, sealer, 0, FullChunks(b, s)) + [sealer.Seal(suite, n % TWO_64, Chunk(r[..b], false))]
         == front + SealAll(suite, sealer, 0, FullChunks(b, s + r[..b]))
    ensures |s + r[..b]| == (n + 1) * b
    ensures sealer.Counted() && n == BLOCK_LIMIT ==> Overflows(sealer, b, s + r)
  {
    hide SealAll, FullChunks, Chunked, Sealer.Seal;
    var t := r[..b];
    ChunkedAppend(sealer.Ver(), b, s, r, n);
    FullChunksAppend(b, s, t, n);
    SealAllSnoc(suite, sealer, FullChunks(b, s), Chunk(t, false), n % TWO_64);
    SeqAssoc(front, SealAll(suite, sealer, 0, FullChunks(b, s)), [sealer.Seal(suite, n % TWO_64, Chunk(t, false))]);
  }

  lemma Wraps(k: nat)
    ensures (k % TWO_64 + 1) % TWO_64 == (k + 1) % TWO_64
  {
  }

  // ---- one block ----

  /** Every matching receiver opens a sealed chunk at its place. */
  lemma MatchesOpen(suite: Suite, s: Sealer, i: nat, c: Chunk)
    requires suite.Correct() && i < TWO_64 && (s.Counted() ==> i < TWO_64 - 1)
    requires s.Ver() == V1 ==> c.isFinal == (c.data == [])
    ensures forall o :: Matches(suite, s, o) ==> o.Process(suite, i, s.Seal(suite, i, c)) == Accepted(c)
  {
    forall o | Matches(suite, s, o) ensures o.Process(suite, i, s.Seal(suite, i, c)) == Accepted(c) {
      OpensSealed(suite, s, o, i, c);
    }
  }

  /** encryptBlock, from the nonce on. */
  method EncryptChunk(suite: Suite, sealer: Sealer, i: nat, c: Chunk) returns (p: Packet)
    requires suite.Correct() && sealer.Encrypting? && i < TWO_64 - 1
    requires CheckChunkState(sealer.version, |c.data|, i, c.isFinal) == Fine
    ensures p == sealer.Seal(suite, i, c)
    ensures forall o :: Matches(suite, sealer, o) ==> o.Process(suite, i, p) == Accepted(c)
  {
    hide BE64, PayloadHashInput, PayloadAuthenticator;
    MatchesOpen(suite, sealer, i, c);
    var nonce := NonceForChunkSecretBox(i);
    var ctext := suite.seal(sealer.payloadKey, nonce, c.data);
    assert |ctext| >= OVERHEAD && CheckChunkState(sealer.version, |ctext| - OVERHEAD, i, c.isFinal) == Fine;
    var h := suite.hash(PayloadHashInput(sealer.version, sealer.headerHash, nonce, ctext, c.isFinal));
    var auths: seq<MAC> := [];
    for j := 0 to |sealer.macKeys|
      invariant |auths| == j
      invariant forall k :: 0 <= k < j ==> auths[k] == PayloadAuthenticator(suite, sealer.macKeys[k], h)
    {
      auths := auths + [PayloadAuthenticator(suite, sealer.macKeys[j], h)];
    }
    assert auths == Authenticators(suite, sealer.macKeys, h);
    match sealer.version
    case V1 => p := EncryptionBlockV1(auths, ctext);
    case V2 => p := EncryptionBlockV2(c.isFinal, auths, ctext);
  }

  /** signBlock, from the signature on: the packet is good for its own place, to whoever has the public key. */
  method SignChunk(suite: Suite, sealer: Sealer, i: nat, c: Chunk) returns (p: Packet)
    requires suite.Correct() && sealer.Signing? && i < TWO_64
    requires CheckChunkState(sealer.version, |c.data|, i, c.isFinal) == Fine
    ensures p == sealer.Seal(suite, i, c)
    ensures forall o :: Matches(suite, sealer, o) ==> o.Process(suite, i, p) == Accepted(c)
  {
    MatchesOpen(suite, sealer, i, c);
    var input := AttachedSignatureInput(suite, sealer.version, sealer.headerHash, c.data, i, c.isFinal);
    var sig := suite.sign(sealer.secretKey, input);
    match sealer.version
    case V1 => p := SignatureBlockV1(sig, c.data);
    case V2 => p := SignatureBlockV2(c.isFinal, sig, c.data);
  }

  /** signcryptBlock, from the nonce on. */
  method SigncryptChunk(suite: Suite, sealer: Sealer, i: nat, c: Chunk) returns (p: Packet)
    requires suite.Correct() && sealer.Signcrypting? && i < TWO_64 - 1
    ensures p == sealer.Seal(suite, i, c)
    ensures forall o :: Matches(suite, sealer, o) ==> o.Process(suite, i, p) == Accepted(c)
  {
    hide BE64;
    MatchesOpen(suite, sealer, i, c);
    var nonce := NonceForChunkSigncryption(sealer.headerHash, c.isFinal, i);
    var detachedSig: Digest;
    match sealer.signingKey {
      case Absent => detachedSig := seq(SIGNATURE_SIZE, _ => 0);
      case Present(key) =>
        detachedSig := suite.sign(key, SigncryptionSignatureInput(suite, sealer.headerHash, nonce, c.isFinal, c.data));
    }
    var ctext := suite.seal(sealer.payloadKey, nonce, detachedSig + c.data);
    assert |ctext| >= OVERHEAD && CheckChunkState(V2, |ctext| - OVERHEAD, i, c.isFinal) == Fine;
    p := SigncryptionBlock(ctext, c.isFinal);
  }

  class SealStream {
    const suite: Suite
    const sealer: Sealer
    const blockSize: nat
    var buffer: bytes
    var numBlocks: nat
    var err: Err
    var output: seq<Packet>

    // The packets that were written before the first block, what has been sealed, and how many blocks
    // it made.
    ghost const front: seq<Packet>
    ghost var done: bytes
    ghost var count: nat

    // The block that a failed Write took out of the buffer.
    ghost var lost: bytes

    /** Everything written so far. */
    ghost function Input(): bytes
      reads this
    {
      if lost == [] then done + buffer else done + lost + buffer
    }

    ghost function Emitted(): seq<Packet>
      reads this
      requires blockSize > 0
    {
      front + SealAll(suite, sealer, 0, FullChunks(blockSize, done))
    }

    /** What has been sealed are full blocks, none of them the last one. */
    ghost predicate Valid()
      reads this
    {
      && suite.Correct() && blockSize > 0
      && |done| == count * blockSize && numBlocks == count % TWO_64
      && (sealer.Counted() ==> count <= BLOCK_LIMIT)
      && output == Emitted() && lost == []
      && (count > 0 ==> buffer != [])
    }

    /** After a Write that failed: all numbers are used up, and a block is lost. */
    ghost predicate Stuck()
      reads this
    {
      && suite.Correct() && blockSize > 0 && sealer.Counted() && err == Rejected(PacketOverflow)
      && count == numBlocks == BLOCK_LIMIT && |done| == count * blockSize
      && output == Emitted() && |lost| == blockSize && buffer != []
    }

    /** Any state that Writes lead to. */
    ghost predicate Reached()
      reads this
    {
      if err == None then Ready() else Stuck()
    }

    /** Between calls a block's worth at most is held back. */
    ghost predicate Ready()
      reads this
    {
      Valid() && err == None && |buffer| <= blockSize
    }

    constructor (suite: Suite, sealer: Sealer, blockSize: nat, front: seq<Packet>)
      requires suite.Correct() && blockSize > 0
      ensures Ready() && Input() == []
      ensures this.suite == suite && this.sealer == sealer && this.blockSize == blockSize && this.front == front
    {
      this.suite, this.sealer, this.blockSize, this.front := suite, sealer, blockSize, front;
      buffer, numBlocks, err, output, done, count, lost := [], 0, None, front, [], 0, [];
    }

    /** Whether taking a block from the buffer passes the source's checks, which otherwise panic. */
    predicate TakeOk(isFinal: bool, taken: nat, left: nat) {
      if sealer.Signcrypting? then isFinal ==> left == 0 else BlockReadOk(sealer.version, isFinal, blockSize, taken, left)
    }

    /** encryptBlock, signBlock and signcryptBlock: seals the next block of the buffer. An error or a panic
        leaves the block taken out of it. */
    method SealBlock(isFinal: bool) returns (o: Outcome)
      requires suite.Correct() && blockSize > 0 && numBlocks < TWO_64
      requires CheckChunkState(sealer.Ver(), Min(blockSize, |buffer|), numBlocks, isFinal) == Fine
      modifies this`buffer, this`numBlocks, this`output
      ensures buffer == old(buffer)[Min(blockSize, |old(buffer)|)..]
      ensures o.Panicked? <==> !TakeOk(isFinal, Min(blockSize, |old(buffer)|), |buffer|)
      ensures o.Done? ==> o.err == if sealer.Counted() && old(numBlocks) == BLOCK_LIMIT then Rejected(PacketOverflow) else None
      ensures o != Done(None) ==> numBlocks == old(numBlocks) && output == old(output)
      ensures o == Done(None) ==>
        && numBlocks == (old(numBlocks) + 1) % TWO_64
        && output == old(output)
            + [sealer.Seal(suite, old(numBlocks), Chunk(old(buffer)[..Min(blockSize, |old(buffer)|)], isFinal))]
    {
      hide Sealer.Seal;
      var n := Min(blockSize, |buffer|);
      var c := Chunk(buffer[..n], isFinal);
      buffer := buffer[n..];
      if sealer.Signcrypting? {
        if isFinal && buffer != [] {
          return Panicked;
        }
      } else if !BlockReadOk(sealer.version, isFinal, blockSize, |c.data|, |buffer|) {
        return Panicked;
      }
      if sealer.Counted() && numBlocks >= BLOCK_LIMIT {
        return Done(Rejected(PacketOverflow));
      }
      var p;
      match sealer {
        case Encrypting(_, _, _, _) => p := EncryptChunk(suite, sealer, numBlocks, c);
        case Signing(_, _, _) => p := SignChunk(suite, sealer, numBlocks, c);
        case Signcrypting(_, _, _) => p := SigncryptChunk(suite, sealer, numBlocks, c);
      }
      output := output + [p];
      numBlocks := (numBlocks + 1) % TWO_64;
      return Done(None);
    }

    /** One turn of Write's loop: a full block, with more behind it. It does not panic. */
    method SealFull() returns (e: Err)
      requires Valid() && err == None && |buffer| > blockSize
      modifies this
      ensures err == e && Input() == old(Input())
      ensures e == None ==> Valid() && |buffer| == |old(buffer)| - blockSize
      ensures e != None ==> Stuck()
    {
      hide SealAll, Chunked, FullChunks, Suite.Correct, Sealer.Seal, Overflows;
      ghost var t := buffer[..blockSize];
      OneMoreBlock(suite, sealer, blockSize, done, buffer, count, front);
      Wraps(count);
      var o := SealBlock(false);
      e := o.err;
      err := e;
      assert old(buffer) == t + buffer;
      SeqAssoc(done, t, buffer);
      if e == None {
        done, count := done + t, count + 1;
      } else {
        lost := t;
      }
    }

    /** Write: takes the plaintext in, and seals all full blocks but the last. It fails exactly when their
        numbers run out, and from then on always. */
    method Write(plaintext: bytes) returns (n: nat, e: Err)
      requires Reached()
      modifies this
      ensures Reached() && e == err && n == if e == None then |plaintext| else 0
      ensures old(err) != None ==> e == old(err) && unchanged(this)
      ensures old(err) == None ==>
        && Input() == old(Input()) + plaintext
        && (e == None <==> !WriteFails(sealer, blockSize, old(Input()) + plaintext))
    {
      hide SealAll, Chunked, FullChunks, Suite.Correct;
      if err != None {
        return 0, err;
      }
      SeqAssoc(done, buffer, plaintext);
      buffer := buffer + plaintext;
      while |buffer| > blockSize
        invariant Valid() && err == None && Input() == old(Input()) + plaintext
        decreases |buffer|
      {
        e := SealFull();
        if e != None {
          assert |Input()| == |done| + |lost| + |buffer|;
          return 0, e;
        }
      }
      if sealer.Counted() {
        MulMonotone(count, BLOCK_LIMIT, blockSize);
      }
      return |plaintext|, None;
    }

    /** Close, for V1. */
    method CloseV1() returns (o: Outcome)
      requires Ready() && sealer.Ver() == V1
      modifies this`buffer, this`numBlocks, this`output
      ensures o == Done(if Overflows(sealer, blockSize, old(Input())) then Rejected(PacketOverflow) else None)
      ensures o == Done(None) ==> output == front + Sealed(suite, sealer, blockSize, old(Input()))
    {
      hide SealAll, FullChunks, Suite.Correct, Sealer.Seal, Sealed, Overflows;
      LastBlocksV1(suite, sealer, blockSize, done, buffer, count, front);
      Wraps(count);
      TakeAll(buffer);
      if buffer != [] {
        o := SealBlock(false);
        if o != Done(None) {
          return;
        }
      }
      assert buffer == [];
      o := SealBlock(true);
    }

    /** Close, for V2. */
    method CloseV2() returns (o: Outcome)
      requires Ready() && sealer.Ver() == V2
      modifies this`buffer, this`numBlocks, this`output
      ensures o == Done(if Overflows(sealer, blockSize, old(Input())) then Rejected(PacketOverflow) else None)
      ensures o == Done(None) ==> output == front + Sealed(suite, sealer, blockSize, old(Input()))
    {
      hide SealAll, FullChunks, Suite.Correct, Sealer.Seal, Sealed, Overflows;
      LastBlockV2(suite, sealer, blockSize, done, buffer, count, front);
      TakeAll(buffer);
      o := SealBlock(true);
      if o != Done(None) {
        return;
      }
      assert buffer == [];
    }

    /** Close, after a Write that failed, which it takes no notice of: it tries to seal what is left. */
    method CloseStuck() returns (o: Outcome)
      requires Stuck()
      modifies this`buffer, this`numBlocks, this`output
      ensures o == CloseOutcome(sealer, blockSize, old(Input())) && o != Done(None)
    {
      hide SealAll, FullChunks, Suite.Correct, Sealer.Seal, Chunked;
      assert |Input()| == |done| + |lost| + |buffer|;
      TooMany(sealer, blockSize, Input());
      o := SealBlock(sealer.Ver() == V2);
    }

    /** Close, in whatever state the Writes have left the stream: the packets written are a function of
        the plaintext, whatever Writes it came in. */
    method Close() returns (o: Outcome)
      requires Reached()
      modifies this`buffer, this`numBlocks, this`output
      ensures o == CloseOutcome(sealer, blockSize, old(Input()))
      ensures o == Done(None) ==> output == front + Sealed(suite, sealer, blockSize, old(Input()))
    {
      if err != None {
        o := CloseStuck();
        return;
      }
      if sealer.Counted() {
        MulMonotone(count, BLOCK_LIMIT, blockSize);
      }
      match sealer.Ver()
      case V1 => o := CloseV1();
      case V2 => o := CloseV2();
    }
  }

  /** More input than the numbered blocks can hold. */
  lemma TooMany(sealer: Sealer, b: nat, s: bytes)
    requires b > 0 && sealer.Counted() && |s| > TWO_64 * b
    ensures Overflows(sealer, b, s)
  {
    ChunkedCount(sealer.Ver(), b, s, BLOCK_LIMIT);
  }

  lemma {:induction false} ChunkedCount(version: Version, b: nat, s: bytes, n: nat)
    requires b > 0 && |s| > n * b
    ensures |Chunked(version, b, s)| > n
    decreases n
  {
    if n > 0 {
      MulMonotone(1, n, b);
      assert (n - 1) * b == n * b - b;
      ChunkedCount(version, b, s[b..], n - 1);
    }
  }

  /** A whole run: any Writes, then Close whether they failed or not. The outcome and the packets depend
      on the plaintext that was taken alone. */
  method SealRegardless(suite: Suite, sealer: Sealer, b: nat, front: seq<Packet>, pieces: seq<bytes>)
    returns (output: seq<Packet>, o: Outcome)
    requires suite.Correct() && b > 0
    ensures o == CloseOutcome(sealer, b, Taken(sealer, b, [], pieces))
    ensures o == Done(None) ==> output == front + Sealed(suite, sealer, b, Taken(sealer, b, [], pieces))
  {
    hide Suite.Correct, Sealed, WriteFails, CloseOutcome, SealStream.Valid;
    var s := new SealStream(suite, sealer, b, front);
    assert pieces[0..] == pieces;
    assert !WriteFails(sealer, b, []) by {
      NothingWritten(sealer, b);
    }
    for i := 0 to |pieces|
      invariant fresh(s) && s.Reached() && (s.err != None <==> WriteFails(sealer, b, s.Input()))
      invariant Taken(sealer, b, [], pieces) == Taken(sealer, b, s.Input(), pieces[i..])
    {
      assert pieces[i..][0] == pieces[i] && pieces[i..][1..] == pieces[i + 1..];
      var n, e := s.Write(pieces[i]);
    }
    o := s.Close();
    output := s.output;
  }

  lemma NothingWritten(sealer: Sealer, b: nat)
    ensures !WriteFails(sealer, b, [])
  {
  }

  /** A run that stops at the first error. The packets depend on the plaintext alone, and the run fails
      exactly when the message has more blocks than can be counted. */
  method SealMessage(suite: Suite, sealer: Sealer, b: nat, front: seq<Packet>, pieces: seq<bytes>)
    returns (output: seq<Packet>, e: Err)
    requires suite.Correct() && b > 0
    ensures e == if Overflows(sealer, b, Concat(pieces)) then Rejected(PacketOverflow) else None
    ensures e == None ==> output == front + Sealed(suite, sealer, b, Concat(pieces))
  {
    hide Suite.Correct, Sealed, Overflows, Concat, SealStream.Valid;
    var s := new SealStream(suite, sealer, b, front);
    ConcatNothing();
    assert pieces[..0] == [];
    for i := 0 to |pieces|
      invariant fresh(s) && s.Reached() && s.err == None && s.Input() == Concat(pieces[..i])
    {
      ConcatSnoc(pieces, i);
      var n;
      n, e := s.Write(pieces[i]);
      if e != None {
        TooMany(sealer, b, Concat(pieces[..i + 1]));
        OverflowGrows(sealer, b, Concat(pieces[..i + 1]), pieces, i + 1);
        return s.output, e;
      }
    }
    TakeAll(pieces);
    NoPanicYet(s);
    var o := s.Close();
    e := o.err;
    output := s.output;
  }

  lemma NoPanicYet(s: SealStream)
    requires s.Ready()
    ensures CloseOutcome(s.sealer, s.blockSize, s.Input()).Done?
  {
    hide Chunked, FullChunks, Suite.Correct, SealAll;
    if s.sealer.Counted() {
      MulMonotone(s.count, BLOCK_LIMIT, s.blockSize);
    }
  }

  lemma {:induction false} ChunkedGrows(version: Version, b: nat, s: bytes, t: bytes)
    requires b > 0
    ensures |Chunked(version, b, s)| <= |Chunked(version, b, s + t)|
    decreases |s|
  {
    if |s| > b {
      assert (s + t)[b..] == s[b..] + t;
      ChunkedGrows(version, b, s[b..], t);
    }
  }

  lemma OverflowGrows(sealer: Sealer, b: nat, s: bytes, pieces: seq<bytes>, i: nat)
    requires b > 0 && i <= |pieces| && s == Concat(pieces[..i]) && Overflows(sealer, b, s)
    ensures Overflows(sealer, b, Concat(pieces))
  {
    hide Concat, Chunked;
    assert pieces == pieces[..i] + pieces[i..];
    ConcatAppend(pieces[..i], pieces[i..]);
    ChunkedGrows(sealer.Ver(), b, s, Concat(pieces[i..]));
  }
}
