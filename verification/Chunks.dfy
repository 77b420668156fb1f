/** How a message is cut into chunks (the Write and Close methods of encrypt.go, sign_stream.go and
    signcrypt_seal.go), and the checks of that framing (common.go, encrypt.go). */
module Chunks {
  import opened Bytes
  import opened Nonces

  datatype Chunk = Chunk(data: bytes, isFinal: bool)

  /** What a sanity check does: nothing, an error, or a panic. */
  datatype Check = Fine | UnexpectedEmpty | Panic

  /** checkChunkState. */
  function CheckChunkState(version: Version, chunkLen: nat, blockIndex: nat, isFinal: bool): Check {
    match version
    case V1 => if (chunkLen == 0) != isFinal then Panic else Fine
    case V2 => if chunkLen == 0 && (blockIndex != 0 || !isFinal) then UnexpectedEmpty else Fine
  }

  /** checkEncryptBlockRead and checkSignBlockRead: true unless they panic. */
  predicate BlockReadOk(version: Version, isFinal: bool, blockSize: nat, plaintextLen: nat, bufLen: nat) {
    && plaintextLen <= blockSize
    && (plaintextLen < blockSize ==> bufLen == 0)
    && (match version
        case V1 => isFinal == (plaintextLen == 0)
        case V2 => isFinal ==> bufLen == 0)
  }

  // ---- the framing ----

  /** The chunks of a message of `b`-byte blocks: V1 ends with an empty final chunk, V2 flags the last
      one, which is empty only if the message is. */
  function Chunked(version: Version, b: nat, s: bytes): (r: seq<Chunk>)
    requires b > 0
    ensures r != []
    decreases |s|
  {
    if |s| > b then [Chunk(s[..b], false)] + Chunked(version, b, s[b..])
    else if version == V2 then [Chunk(s, true)]
    else if s == [] then [Chunk([], true)]
    else [Chunk(s, false), Chunk([], true)]
  }

  /** `s` cut into full chunks, none of them final. */
  function FullChunks(b: nat, s: bytes): seq<Chunk>
    requires b > 0
    decreases |s|
  {
    if |s| < b then [] else [Chunk(s[..b], false)] + FullChunks(b, s[b..])
  }

  /** The bytes that chunks carry. */
  function Data(chunks: seq<Chunk>): bytes {
    if chunks == [] then [] else chunks[0].data + Data(chunks[1..])
  }

  /** What a framing is, chunk by chunk: only the last one is final, all are full except the last
      non-empty one, and emptiness is as the version has it. */
  ghost predicate WellFramed(version: Version, b: nat, chunks: seq<Chunk>) {
    var n := |chunks|;
    && n > 0
    && (forall i :: 0 <= i < n ==> (chunks[i].isFinal <==> i == n - 1) && |chunks[i].data| <= b)
    && (match version
        case V1 => chunks[n - 1].data == [] && (n > 1 ==> chunks[n - 2].data != [])
                   && forall i :: 0 <= i < n - 2 ==> |chunks[i].data| == b
        case V2 => (n > 1 ==> chunks[n - 1].data != []) && forall i :: 0 <= i < n - 1 ==> |chunks[i].data| == b)
  }

  lemma {:induction false} ChunkedWellFramed(version: Version, b: nat, s: bytes)
    requires b > 0
    ensures WellFramed(version, b, Chunked(version, b, s)) && Data(Chunked(version, b, s)) == s
    decreases |s|
  {
    if |s| > b {
      var first, rest := Chunk(s[..b], false), Chunked(version, b, s[b..]);
      ChunkedWellFramed(version, b, s[b..]);
      ChunkedStart(version, b, s[b..]);
      WellFramedCons(version, b, first, rest);
    } else if version == V1 && s != [] {
      DataOfTwo(Chunk(s, false), Chunk([], true));
    }
  }

  lemma ChunkedStart(version: Version, b: nat, s: bytes)
    requires b > 0 && s != []
    ensures Chunked(version, b, s)[0].data != []
  {
  }

  lemma WellFramedCons(version: Version, b: nat, first: Chunk, rest: seq<Chunk>)
    requires b > 0 && WellFramed(version, b, rest) && !first.isFinal && |first.data| == b && rest[0].data != []
    ensures WellFramed(version, b, [first] + rest) && Data([first] + rest) == first.data + Data(rest)
  {
    var chunks := [first] + rest;
    assert chunks[1..] == rest;
    forall i | 0 <= i < |chunks| ensures chunks[i] == if i == 0 then first else rest[i - 1] {
    }
  }

  lemma DataOfTwo(a: Chunk, b: Chunk)
    ensures Data([a, b]) == a.data + b.data
  {
    assert [a, b][1..] == [b] && [b][1..] == [];
    assert Data([b]) == b.data + Data([]);
  }

  /** The conditions on a framing leave no choice: the chunks are a function of the bytes. */
  lemma {:induction false} FramingUnique(version: Version, b: nat, chunks: seq<Chunk>)
    requires b > 0 && WellFramed(version, b, chunks)
    ensures chunks == Chunked(version, b, Data(chunks))
    decreases |chunks|
  {
    var n, s, rest := |chunks|, Data(chunks), chunks[1..];
    assert chunks == [chunks[0]] + rest;
    if n > 1 {
      if version == V1 && n == 2 {
        assert chunks == [chunks[0], chunks[1]];
        DataOfTwo(chunks[0], chunks[1]);
        assert chunks[n - 1].data == [] && chunks[n - 2].data != [] && s == chunks[0].data;
      } else {
        assert forall i :: 0 <= i < |rest| ==> rest[i] == chunks[i + 1];
        FramingUnique(version, b, rest);
        DataNonEmpty(version, b, rest);
        assert s[..b] == chunks[0].data && s[b..] == Data(rest);
      }
    } else {
      assert rest == [] && s == chunks[0].data;
    }
  }

  lemma DataNonEmpty(version: Version, b: nat, chunks: seq<Chunk>)
    requires WellFramed(version, b, chunks) && (chunks[0].data != [])
    ensures Data(chunks) != []
  {
  }

  /** Full chunks ahead of a message: what Write emits early is what the whole message begins with, as
      long as something is held back. */
  lemma {:induction false} ChunkedAppend(version: Version, b: nat, s: bytes, r: bytes, n: nat)
    requires b > 0 && |s| == n * b && (n > 0 ==> r != [])
    ensures Chunked(version, b, s + r) == FullChunks(b, s) + Chunked(version, b, r)
    ensures |FullChunks(b, s)| == n
    decreases n
  {
    if n == 0 {
      assert s + r == r;
    } else {
      assert |s[b..]| == (n - 1) * b >= 0;
      ChunkedAppend(version, b, s[b..], r, n - 1);
      assert (s + r)[..b] == s[..b] && (s + r)[b..] == s[b..] + r;
    }
  }

  lemma {:induction false} FullChunksAppend(b: nat, s: bytes, t: bytes, n: nat)
    requires b > 0 && |s| == n * b && |t| == b
    ensures FullChunks(b, s + t) == FullChunks(b, s) + [Chunk(t, false)]
    decreases n
  {
    if n == 0 {
      assert s + t == t && t[..b] == t && t[b..] == [];
    } else {
      assert |s[b..]| == (n - 1) * b >= 0;
      FullChunksAppend(b, s[b..], t, n - 1);
      assert (s + t)[..b] == s[..b] && (s + t)[b..] == s[b..] + t;
    }
  }

  /** Every chunk of a framing passes the checks, on the sender's side and on the receiver's. */
  lemma ChunkedPassesChecks(version: Version, b: nat, s: bytes, i: nat)
    requires b > 0 && i < |Chunked(version, b, s)|
    ensures var c := Chunked(version, b, s)[i]; CheckChunkState(version, |c.data|, i, c.isFinal) == Fine
    ensures var c := Chunked(version, b, s)[i]; CheckChunkState(version, |c.data|, i % TWO_64, c.isFinal) == Fine
  {
    hide Chunked;
    ChunkedWellFramed(version, b, s);
  }

  lemma {:induction false} DataAppend(a: seq<Chunk>, b: seq<Chunk>)
    ensures Data(a + b) == Data(a) + Data(b)
  {
    if a == [] {
      assert a + b == b;
    } else {
      assert (a + b)[1..] == a[1..] + b;
      DataAppend(a[1..], b);
      SeqAssoc(a[0].data, Data(a[1..]), Data(b));
    }
  }
}
