/** The receiving streams: msgpackStream (msgpack.go), the getNextChunk methods of decrypt.go,
    verify_stream.go and signcrypt_open.go, and chunkReader (chunk_reader.go). */
module OpenStream {
  import opened Bytes
  import opened Nonces
  import opened Chunks
  import opened Packets

  // ---- what a packet list delivers ----

  /** The bytes a stream delivers in all, and the error it ends with; EOF is a clean end. */
  datatype Delivery = Delivery(data: bytes, err: Err)

  /** A missing packet is an error before the final block. */
  function Unexpected(err: Err): Err {
    if err == EOF then UnexpectedEOF else err
  }

  /** assertEndOfStream, with `end` the error that reading past the last packet gives. */
  function EndOfStream(packets: seq<Packet>, end: Err): Err {
    if packets == [] then end else if packets[0].Broken? then packets[0].err else TrailingGarbage
  }

  /** One packet as getNextChunk sees it: decoded, processed and checked. */
  function Take(suite: Suite, o: Opener, i: nat, p: Packet): Next {
    if p.Broken? then Refused(Unexpected(p.err))
    else
      match o.Process(suite, i % TWO_64, p)
      case Crash => Crash
      case Refused(err) => Refused(err)
      case Accepted(c) =>
        if CheckChunkState(o.Ver(), |c.data|, i % TWO_64, c.isFinal) == UnexpectedEmpty
        then Refused(Rejected(UnexpectedEmptyBlock)) else Accepted(c)
  }

  /** What the packets from block `i` on deliver. */
  function Deliver(suite: Suite, o: Opener, i: nat, packets: seq<Packet>, end: Err): Delivery
    decreases |packets|
  {
    if packets == [] then Delivery([], Unexpected(end))
    else
      match Take(suite, o, i, packets[0])
      case Crash => Delivery([], Rejected(IndexPanic))
      case Refused(err) => Delivery([], err)
      case Accepted(c) =>
        if c.isFinal then Delivery(c.data, EndOfStream(packets[1..], end))
        else
          var d := Deliver(suite, o, i + 1, packets[1..], end);
          Delivery(c.data + d.data, d.err)
  }

  /** The ways in which a list of packets, or a packet that does not decode, can end. */
  ghost predicate Ends(packets: seq<Packet>, end: Err) {
    end != None && forall i :: 0 <= i < |packets| && packets[i].Broken? ==> packets[i].err != None
  }

  lemma EndsTail(packets: seq<Packet>, end: Err)
    requires Ends(packets, end)
    ensures end != None
    ensures packets != [] ==> Ends(packets[1..], end) && (packets[0].Broken? ==> packets[0].err != None)
  {
    forall i | 0 <= i < |packets| - 1 ensures packets[1..][i] == packets[i + 1] {
    }
  }

  /** No panic from the framing check: what a packet decodes to is never final against its emptiness in V1. */
  lemma NoPanic(suite: Suite, o: Opener, i: nat, p: Packet)
    requires suite.Correct() && i < TWO_64
    ensures o.Process(suite, i, p).Accepted? ==>
      CheckChunkState(o.Ver(), |o.Process(suite, i, p).c.data|, i, o.Process(suite, i, p).c.isFinal) != Panic
    ensures o.Process(suite, i, p).Refused? ==> o.Process(suite, i, p).err.Rejected?
  {
    hide BE64, PayloadHashInput, PayloadAuthenticator;
  }

  lemma {:induction false} DeliverEnds(suite: Suite, o: Opener, i: nat, packets: seq<Packet>, end: Err)
    requires suite.Correct() && Ends(packets, end)
    ensures Deliver(suite, o, i, packets, end).err != None
    decreases |packets|
  {
    hide Opener.Process, Suite.Correct;
    if packets != [] {
      assert packets[0].Broken? ==> packets[0].err != None;
      NoPanic(suite, o, i % TWO_64, packets[0]);
      DeliverEnds(suite, o, i + 1, packets[1..], end);
    }
  }

  // ---- clean ends ----

  /** The packets from block `i` on are these chunks and nothing more: each is accepted at its place, only
      the last one is final, and they are empty only where their version has it: V1 at the end and nowhere
      else, V2 in a block of number 0 that is the last one. */
  ghost predicate CleanRun(suite: Suite, o: Opener, i: nat, packets: seq<Packet>, end: Err, chunks: seq<Chunk>) {
    var n := |chunks|;
    && 0 < n <= |packets|
    && (forall k :: 0 <= k < n ==> CleanAt(suite, o, i + k, packets[k], chunks[k], k == n - 1))
    && (if n < |packets| then packets[n] == Broken(EOF) else end == EOF)
  }

  ghost predicate CleanAt(suite: Suite, o: Opener, i: nat, p: Packet, c: Chunk, last: bool) {
    && !p.Broken? && o.Process(suite, i % TWO_64, p) == Accepted(c) && (c.isFinal <==> last)
    && (match o.Ver()
        case V1 => c.data == [] <==> last
        case V2 => c.data == [] ==> last && i % TWO_64 == 0)
  }

  lemma CleanTake(suite: Suite, o: Opener, i: nat, p: Packet, c: Chunk, last: bool)
    requires suite.Correct()
    ensures CleanAt(suite, o, i, p, c, last) <==> Take(suite, o, i, p) == Accepted(c) && (c.isFinal <==> last)
  {
    hide Opener.Process, Suite.Correct;
    NoPanic(suite, o, i % TWO_64, p);
  }

  /** A stream ends cleanly exactly if its packets are such a run, and then it has delivered their bytes. */
  lemma {:induction false} CleanEnd(suite: Suite, o: Opener, i: nat, packets: seq<Packet>, end: Err) returns (chunks: seq<Chunk>)
    requires suite.Correct() && Deliver(suite, o, i, packets, end).err == EOF
    ensures CleanRun(suite, o, i, packets, end, chunks) && Deliver(suite, o, i, packets, end).data == Data(chunks)
    decreases |packets|
  {
    hide Suite.Correct, Take, CleanAt;
    RefusedNotEOF(suite, o, i, packets[0]);
    var c := Take(suite, o, i, packets[0]).c;
    CleanTake(suite, o, i, packets[0], c, c.isFinal);
    if c.isFinal {
      chunks := [c];
      assert Data([c]) == c.data + Data([]) == c.data;
    } else {
      var more := CleanEnd(suite, o, i + 1, packets[1..], end);
      chunks := [c] + more;
      assert chunks[1..] == more;
      RunAfter(suite, o, i, packets, end, chunks);
    }
  }

  lemma RefusedNotEOF(suite: Suite, o: Opener, i: nat, p: Packet)
    requires suite.Correct()
    ensures Take(suite, o, i, p).Refused? ==> Take(suite, o, i, p).err != EOF
  {
    hide Opener.Process, Suite.Correct;
    NoPanic(suite, o, i % TWO_64, p);
  }

  lemma RunAfter(suite: Suite, o: Opener, i: nat, packets: seq<Packet>, end: Err, chunks: seq<Chunk>)
    requires packets != [] && |chunks| > 1
    ensures CleanRun(suite, o, i, packets, end, chunks)
       <==> CleanAt(suite, o, i, packets[0], chunks[0], false) && CleanRun(suite, o, i + 1, packets[1..], end, chunks[1..])
  {
    hide CleanAt;
    var n := |chunks|;
    if CleanRun(suite, o, i, packets, end, chunks) {
      forall k | 0 <= k < n - 1 ensures CleanAt(suite, o, i + 1 + k, packets[1..][k], chunks[1..][k], k == n - 2) {
        assert CleanAt(suite, o, i + (k + 1), packets[k + 1], chunks[k + 1], k + 1 == n - 1);
      }
      assert CleanAt(suite, o, i + 0, packets[0], chunks[0], 0 == n - 1);
    }
    if CleanAt(suite, o, i, packets[0], chunks[0], false) && CleanRun(suite, o, i + 1, packets[1..], end, chunks[1..]) {
      forall k | 0 <= k < n ensures CleanAt(suite, o, i + k, packets[k], chunks[k], k == n - 1) {
        if k > 0 {
          assert CleanAt(suite, o, i + 1 + (k - 1), packets[1..][k - 1], chunks[1..][k - 1], k - 1 == n - 2);
        }
      }
    }
  }

  lemma {:induction false} RunEndsCleanly(suite: Suite, o: Opener, i: nat, packets: seq<Packet>, end: Err, chunks: seq<Chunk>)
    requires suite.Correct() && CleanRun(suite, o, i, packets, end, chunks)
    ensures Deliver(suite, o, i, packets, end) == Delivery(Data(chunks), EOF)
    decreases |packets|
  {
    hide Suite.Correct, Take, CleanAt;
    var c := chunks[0];
    assert CleanAt(suite, o, i + 0, packets[0], chunks[0], 0 == |chunks| - 1);
    CleanTake(suite, o, i, packets[0], c, |chunks| == 1);
    if |chunks| == 1 {
      assert chunks == [c] && Data([c]) == c.data + Data([]) == c.data;
    } else {
      RunAfter(suite, o, i, packets, end, chunks);
      RunEndsCleanly(suite, o, i + 1, packets[1..], end, chunks[1..]);
    }
  }

  // ---- the streams ----

  /** A decoder over a list of packets that counts what it reads. */
  class MsgpackStream {
    var packets: seq<Packet>
    var seqno: nat
    const end: Err

    // How many packets have been read.
    ghost var count: nat

    ghost predicate Valid()
      reads this
    {
      Ends(packets, end) && seqno == count % TWO_64
    }

    constructor (packets: seq<Packet>, end: Err)
      requires Ends(packets, end)
      ensures Valid() && count == 0 && this.packets == packets && this.end == end
    {
      this.packets, this.end, seqno, count := packets, end, 0, 0;
    }

    method Read() returns (p: Packet, ret: nat, err: Err)
      requires Valid()
      modifies this
      ensures Valid()
      ensures err == (if old(packets) == [] then end else if old(packets)[0].Broken? then old(packets)[0].err else None)
      ensures err == None ==>
        && p == old(packets)[0] && packets == old(packets)[1..]
        && ret == old(count) % TWO_64 && count == old(count) + 1
    {
      hide Ends;
      EndsTail(packets, end);
      p, ret := Foreign, 0;
      if packets == [] {
        return p, ret, end;
      }
      if packets[0].Broken? {
        return p, ret, packets[0].err;
      }
      p, ret, packets := packets[0], seqno, packets[1..];
      seqno, count := (seqno + 1) % TWO_64, count + 1;
      err := None;
    }
  }

  /** decryptStream, verifyStream or signcryptOpenStream, once the header has been read. */
  class ChunkSource {
    const suite: Suite
    const opener: Opener
    const mps: MsgpackStream

    ghost predicate Valid()
      reads this, mps
    {
      suite.Correct() && mps.Valid() && mps.count > 0
    }

    /** What is still to come. */
    ghost function Future(): Delivery
      reads this, mps
      requires Valid()
    {
      Deliver(suite, opener, mps.count - 1, mps.packets, mps.end)
    }

    constructor (suite: Suite, opener: Opener, mps: MsgpackStream)
      requires suite.Correct() && mps.Valid() && mps.count > 0
      ensures Valid() && this.suite == suite && this.opener == opener && this.mps == mps
    {
      this.suite, this.opener, this.mps := suite, opener, mps;
    }

    /** assertEndOfStream. */
    method AssertEndOfStream() returns (err: Err)
      requires Valid()
      modifies mps
      ensures err == EndOfStream(old(mps.packets), mps.end) && err != None
    {
      var p, seqno;
      p, seqno, err := mps.Read();
      if err == None {
        err := TrailingGarbage;
      }
    }

    /** getNextChunk: an empty chunk comes only with an error, and the error is the last thing. */
    method GetNextChunk() returns (chunk: bytes, err: Err)
      requires Valid()
      modifies mps
      ensures err == None ==>
        && Valid() && chunk != [] && |mps.packets| < |old(mps.packets)|
        && old(Future()) == Delivery(chunk + Future().data, Future().err)
      ensures err != None ==> old(Future()) == Delivery(chunk, err)
    {
      hide Suite.Correct, Opener.Process;
      var p, seqno;
      ghost var i := mps.count - 1;
      p, seqno, err := mps.Read();
      if err != None {
        return [], Unexpected(err);
      }
      BlockNumber(i);
      NoPanic(suite, opener, i % TWO_64, p);
      match opener.Process(suite, (seqno + TWO_64 - 1) % TWO_64, p)
      case Crash =>
        return [], Rejected(IndexPanic);
      case Refused(e) =>
        return [], e;
      case Accepted(c) =>
        match CheckChunkState(opener.Ver(), |c.data|, (seqno + TWO_64 - 1) % TWO_64, c.isFinal)
        case Panic =>
          assert false;
        case UnexpectedEmpty =>
          return [], Rejected(UnexpectedEmptyBlock);
        case Fine =>
          chunk := c.data;
          if c.isFinal {
            err := AssertEndOfStream();
          }
    }
  }

  /** The uint64 seqno - 1 is the number of the block. */
  lemma BlockNumber(i: nat)
    ensures ((i + 1) % TWO_64 + TWO_64 - 1) % TWO_64 == i % TWO_64
  {
  }

  // ---- chunkers ----

  /** What one call of a chunker returns. */
  datatype Step = Step(chunk: bytes, err: Err)

  /** What calls of a chunker may return: no empty chunk without an error, and after an error no call. */
  predicate Script(steps: seq<Step>) {
    && steps != []
    && (steps[0].err == None ==> steps[0].chunk != [] && Script(steps[1..]))
  }

  function Played(steps: seq<Step>): Delivery
    requires Script(steps)
  {
    if steps[0].err != None then Delivery(steps[0].chunk, steps[0].err)
    else Delivery(steps[0].chunk + Played(steps[1..]).data, Played(steps[1..]).err)
  }

  /** A chunker that returns whatever it is told to. */
  class ScriptedChunker {
    var steps: seq<Step>

    constructor (steps: seq<Step>)
      ensures this.steps == steps
    {
      this.steps := steps;
    }

    method GetNextChunk() returns (chunk: bytes, err: Err)
      requires Script(steps)
      modifies this
      ensures err == None ==>
        && Script(steps) && chunk != [] && |steps| < |old(steps)|
        && Played(old(steps)) == Delivery(chunk + Played(steps).data, Played(steps).err)
      ensures err != None ==> Played(old(steps)) == Delivery(chunk, err)
    {
      chunk, err := steps[0].chunk, steps[0].err;
      steps := steps[1..];
    }
  }

  /** The chunker interface: the streams of this module, and any other. */
  datatype Chunker = FromStream(stream: ChunkSource) | FromScript(scripted: ScriptedChunker) {

    ghost function Repr(): (r: set<object>)
      ensures FromStream? ==> r == {stream, stream.mps}
      ensures FromScript? ==> r == {scripted}
    {
      match this
      case FromStream(stream) => {stream, stream.mps}
      case FromScript(scripted) => {scripted}
    }

    ghost predicate Valid()
      reads Repr()
    {
      match this
      case FromStream(stream) => stream.Valid()
      case FromScript(scripted) => Script(scripted.steps)
    }

    /** What is still to come. */
    ghost function Future(): Delivery
      reads Repr()
      requires Valid()
    {
      match this
      case FromStream(stream) => stream.Future()
      case FromScript(scripted) => Played(scripted.steps)
    }

    /** How many calls there can still be. */
    ghost function Calls(): nat
      reads Repr()
    {
      match this
      case FromStream(stream) => |stream.mps.packets|
      case FromScript(scripted) => |scripted.steps|
    }

    method GetNextChunk() returns (chunk: bytes, err: Err)
      requires Valid()
      modifies Repr()
      ensures err == None ==>
        && Valid() && chunk != [] && Calls() < old(Calls())
        && old(Future()) == Delivery(chunk + Future().data, Future().err)
      ensures err != None ==> old(Future()) == Delivery(chunk, err)
    {
      hide ChunkSource.Valid, ChunkSource.Future, Played;
      match this
      case FromStream(stream) => chunk, err := stream.GetNextChunk();
      case FromScript(scripted) => chunk, err := scripted.GetNextChunk();
    }
  }

  class ChunkReader {
    const chunker: Chunker
    var prevChunk: bytes
    var prevErr: Err

    ghost predicate Valid()
      reads this, chunker.Repr()
    {
      prevErr == None ==> chunker.Valid()
    }

    /** Everything still to be read, and the error at its end. */
    ghost function Rest(): Delivery
      reads this, chunker.Repr()
      requires Valid()
    {
      if prevErr != None then Delivery(prevChunk, prevErr)
      else Delivery(prevChunk + chunker.Future().data, chunker.Future().err)
    }

    constructor (chunker: Chunker)
      requires chunker.Valid()
      ensures Valid() && Rest() == chunker.Future() && this.chunker == chunker
    {
      this.chunker, prevChunk, prevErr := chunker, [], None;
      new;
      assert this !in chunker.Repr();
    }

    /** Copies as much of the last chunk as fits behind the first `n` bytes of `p`. */
    method Drain(p: array<byte>, n: nat) returns (copied: nat)
      requires Valid() && n <= p.Length
      modifies this`prevChunk, p
      ensures Valid() && copied == Min(p.Length - n, |old(prevChunk)|) && |prevChunk| == |old(prevChunk)| - copied
      ensures copied <= |old(Rest()).data| && Rest() == Delivery(old(Rest()).data[copied..], old(Rest()).err)
      ensures p[..n + copied] == old(p[..n]) + old(Rest()).data[..copied]
      ensures forall i :: 0 <= i < p.Length && !(n <= i < n + copied) ==> p[i] == old(p[i])
    {
      hide Chunker.Valid, Chunker.Future, Chunker.Calls, Chunker.Repr;
      NotItsChunker(this);
      copied := Min(p.Length - n, |prevChunk|);
      Drained(prevChunk, if prevErr != None then [] else chunker.Future().data, copied);
      CopyEqualSize(p, n, n + copied, prevChunk[..copied]);
      assert p[..n + copied] == p[..n] + p[n..n + copied];
      prevChunk := prevChunk[copied..];
    }

    /** Asks the chunker for the next chunk. */
    method Refill()
      requires Valid() && prevChunk == [] && prevErr == None
      modifies this`prevChunk, this`prevErr, chunker.Repr()
      ensures Valid() && Rest() == old(Rest()) && (prevChunk != [] || prevErr != None)
      ensures prevErr == None ==> chunker.Calls() < old(chunker.Calls())
    {
      hide Chunker.Valid, Chunker.Future, Chunker.Calls, Chunker.Repr;
      NotItsChunker(this);
      EmptyFirst(chunker.Future().data);
      prevChunk, prevErr := chunker.GetNextChunk();
    }

    /** Read, exactly: it fills `p` from what is left, and reports the final error, again at every
        call, as soon as nothing is. The chunker is not asked again after its error. */
    method Read(p: array<byte>) returns (n: nat, err: Err)
      requires Valid()
      modifies this, chunker.Repr(), p
      ensures Valid()
      ensures n == Min(p.Length, |old(Rest()).data|) && p[..n] == old(Rest()).data[..n]
      ensures forall i :: n <= i < p.Length ==> p[i] == old(p[i])
      ensures Rest() == Delivery(old(Rest()).data[n..], old(Rest()).err)
      ensures err == if p.Length < |old(Rest()).data| then None else old(Rest()).err
    {
      hide ChunkReader.Valid, ChunkReader.Rest, Chunker.Repr, Chunker.Calls;
      NotItsChunker(this);
      n := 0;
      ghost var all := Rest();
      while true
        invariant Valid() && n <= p.Length && n <= |all.data|
        invariant p[..n] == all.data[..n] && forall i :: n <= i < p.Length ==> p[i] == old(p[i])
        invariant Rest() == Delivery(all.data[n..], all.err)
        decreases if prevErr == None then chunker.Calls() + 1 else 0
      {
        if prevChunk != [] {
          var copied := Drain(p, n);
          TakeMore(all.data, n, copied);
          n := n + copied;
          if prevChunk != [] {
            SomeLeft(this);
            return n, None;
          }
        }
        if prevErr != None {
          NothingLeft(this);
          return n, prevErr;
        }
        Refill();
      }
    }
  }

  lemma NotItsChunker(r: ChunkReader)
    ensures r !in r.chunker.Repr()
  {
  }

  lemma SomeLeft(r: ChunkReader)
    requires r.Valid() && r.prevChunk != []
    ensures r.Rest().data != []
  {
  }

  lemma NothingLeft(r: ChunkReader)
    requires r.Valid() && r.prevChunk == [] && r.prevErr != None
    ensures r.Rest() == Delivery([], r.prevErr)
  {
  }

  lemma Drained(prev: bytes, more: bytes, k: nat)
    requires k <= |prev|
    ensures (prev + more)[..k] == prev[..k] && (prev + more)[k..] == prev[k..] + more
  {
  }

  lemma TakeMore(data: bytes, n: nat, k: nat)
    requires n <= |data| && k <= |data[n..]|
    ensures data[..n + k] == data[..n] + data[n..][..k] && data[n + k..] == data[n..][k..]
  {
  }

  /** io.ReadAll, with reads of any positive sizes: all the data, and no error for a clean end. */
  method ReadAll(r: ChunkReader) returns (data: bytes, err: Err)
    requires r.Valid() && r.Rest().err != None
    modifies r, r.chunker.Repr()
    ensures data == old(r.Rest()).data && err == if old(r.Rest()).err == EOF then None else old(r.Rest()).err
  {
    hide ChunkReader.Valid, ChunkReader.Rest, Chunker.Repr;
    NotItsChunker(r);
    data := [];
    ghost var all := r.Rest();
    while true
      invariant r.Valid() && |data| <= |all.data| && data == all.data[..|data|]
      invariant r.Rest() == Delivery(all.data[|data|..], all.err)
      decreases |all.data| - |data|
    {
      var size: nat :| size > 0;
      var p := new byte[size];
      var n, e := r.Read(p);
      TakeMore(all.data, |data|, n);
      data := data + p[..n];
      if e != None {
        assert all.data[..|all.data|] == all.data;
        return data, if e == EOF then None else e;
      }
    }
  }

  lemma {:induction false} PlayedEnds(steps: seq<Step>)
    requires Script(steps)
    ensures Played(steps).err != None
  {
    if steps[0].err == None {
      PlayedEnds(steps[1..]);
    }
  }

  /** Any chunker at all: reading it to its end gives its chunks in order, up to its first error. */
  method ReadScript(steps: seq<Step>) returns (data: bytes, err: Err)
    requires Script(steps)
    ensures var d := Played(steps); data == d.data && err == if d.err == EOF then None else d.err
  {
    PlayedEnds(steps);
    var scripted := new ScriptedChunker(steps);
    var r := new ChunkReader(FromScript(scripted));
    data, err := ReadAll(r);
  }

  /** Reading a stream of packets to its end delivers what its packets say. */
  method OpenAll(suite: Suite, o: Opener, mps: MsgpackStream) returns (data: bytes, err: Err)
    requires suite.Correct() && mps.Valid() && mps.count == 1
    modifies mps
    ensures var d := Deliver(suite, o, 0, old(mps.packets), mps.end);
      data == d.data && err == if d.err == EOF then None else d.err
  {
    hide Deliver, Suite.Correct, Ends;
    DeliverEnds(suite, o, 0, mps.packets, mps.end);
    var source := new ChunkSource(suite, o, mps);
    var r := new ChunkReader(FromStream(source));
    data, err := ReadAll(r);
  }
}
