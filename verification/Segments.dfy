/** Whole texts through the segment splitter (punctuated_reader.go, ReadUntilPunctuation). */
module Segments {
  import opened Bytes
  import opened IO
  import opened Punctuated

  /** The segments of a text that are closed by punctuation. */
  function SegmentsOf(t: bytes, p: byte): seq<bytes>
    decreases |t|
  {
    if HasNext(t, p) then [First(t, p)] + SegmentsOf(After(t, p), p) else []
  }

  /** What follows the first `n` segments. */
  function Remaining(t: bytes, p: byte, n: nat): bytes
    decreases n
  {
    if n == 0 then t else Remaining(After(t, p), p, n - 1)
  }

  lemma {:induction false} NextSegment(t: bytes, p: byte, n: nat)
    requires n <= |SegmentsOf(t, p)|
    ensures SegmentsOf(t, p)[n..] == SegmentsOf(Remaining(t, p, n), p)
    ensures Remaining(t, p, n + 1) == After(Remaining(t, p, n), p)
    decreases n
  {
    hide First, After, HasNext;
    if n > 0 {
      var rest := SegmentsOf(After(t, p), p);
      assert SegmentsOf(t, p) == [First(t, p)] + rest;
      NextSegment(After(t, p), p, n - 1);
      assert SegmentsOf(t, p)[n..] == rest[n - 1..];
    }
  }

  lemma NextFirst(t: bytes, p: byte, n: nat)
    requires n <= |SegmentsOf(t, p)| && HasNext(Remaining(t, p, n), p)
    ensures n < |SegmentsOf(t, p)| && SegmentsOf(t, p)[n] == First(Remaining(t, p, n), p)
    ensures SegmentsOf(t, p)[..n + 1] == SegmentsOf(t, p)[..n] + [First(Remaining(t, p, n), p)]
  {
    hide First, After, HasNext;
    NextSegment(t, p, n);
    assert SegmentsOf(t, p)[n..] != [];
    assert SegmentsOf(t, p)[n] == SegmentsOf(t, p)[n..][0];
  }

  /** Reading all segments, however the source splits the text: they come in order, each whole. Unless a
      segment, or what follows the last one, reaches the limit, all are read, and then the end of the
      source is unexpected; at one that reaches it the reader may give up. */
  method ReadAllSegments(text: bytes, punctuation: byte, lim: nat, pace: Option<Pace>)
    returns (segments: seq<bytes>, err: Err)
    ensures |segments| <= |SegmentsOf(text, punctuation)| && segments == SegmentsOf(text, punctuation)[..|segments|]
    ensures err == UnexpectedEOF || err == Overflow
    ensures err == UnexpectedEOF ==> segments == SegmentsOf(text, punctuation)
    ensures err == Overflow ==> |First(Remaining(text, punctuation, |segments|), punctuation)| >= lim
  {
    hide SegmentsOf, Remaining, First, After, HasNext, PunctuatedReader.Beat, PunctuatedReader.Pending;
    hide FoundAt, Segmented;
    var s := new Source(text, EOF, pace);
    var r := new PunctuatedReader(s, punctuation);
    segments := [];
    StartSegments(text, punctuation);
    while true
      invariant r.Valid() && r.punctuation == punctuation && r.r.end == EOF && fresh(r.Aliases())
      invariant fresh(r) && fresh(r.r) && fresh(r.buf)
      invariant |segments| <= |SegmentsOf(text, punctuation)| && segments == SegmentsOf(text, punctuation)[..|segments|]
      invariant r.Pending() == Remaining(text, punctuation, |segments|)
      decreases |SegmentsOf(text, punctuation)| - |segments|
    {
      ghost var t := r.Pending();
      var segment;
      segment, err := r.ReadUntilPunctuation(lim);
      WhatIsRead(t, segment, err, r.Pending(), punctuation, lim);
      NextSegment(text, punctuation, |segments|);
      if err != None {
        NoMore(t, punctuation);
        return;
      }
      NextFirst(text, punctuation, |segments|);
      segments := segments + [segment];
    }
  }

  lemma StartSegments(t: bytes, p: byte)
    ensures Remaining(t, p, 0) == t && SegmentsOf(t, p)[..0] == []
  {
  }

  lemma WhatIsRead(t: bytes, segment: bytes, err: Err, q: bytes, p: byte, lim: nat)
    requires Segmented(t, segment, err, q, p, lim, EOF)
    ensures err == None ==> HasNext(t, p) && segment == First(t, p) && q == After(t, p)
    ensures err == None || (err == Overflow && |First(t, p)| >= lim) || (err == UnexpectedEOF && !HasNext(t, p))
  {
  }

  lemma NoMore(t: bytes, p: byte)
    ensures !HasNext(t, p) ==> SegmentsOf(t, p) == []
  {
  }

  // ---- at the limit ----

  /** One byte at a time, but the last two bytes together. */
  function LastTwo(left: nat): nat {
    if left == 2 then 2 else 1
  }

  function OneByOne(left: nat): nat {
    1
  }

  /** A segment as long as the limit, closed by the last byte of the text: one byte at a time it is given
      up, and with the last two bytes together it is found. */
  lemma {:induction false} AtTheLimit(s: bytes, p: byte, len: nat, lim: nat)
    requires p !in s && s != [] && len + |s| == lim
    ensures Calm(OneByOne, s + [p], p) && Calm(LastTwo, s + [p], p)
    ensures !FoundAt(OneByOne, s + [p], len, lim, p) && FoundAt(LastTwo, s + [p], len, lim, p)
  {
    var t := s + [p];
    assert t[..1] == [s[0]] && t[1..] == s[1..] + [p] && s[0] in s;
    if |s| > 1 {
      assert p !in s[1..];
      AtTheLimit(s[1..], p, len + 1, lim);
      assert t[..1][..0] == [];
    } else {
      assert t[..2][..1] == [s[0]] && t[1..] == [p] && [p][..1][..0] == [] && [p][1..] == [];
      assert Calm(OneByOne, [], p) && Calm(LastTwo, [], p);
      assert Calm(OneByOne, [p], p) && Calm(LastTwo, [p], p);
    }
  }

  /** So the same text can be read or given up, as its source splits it. */
  method SplitDecides(s: bytes, punctuation: byte) returns (a: Err, b: Err)
    requires punctuation !in s && s != []
    ensures a == Overflow && b == None
  {
    hide Calm, FoundAt, PunctuatedReader.Pending;
    AtTheLimit(s, punctuation, 0, |s|);
    var text := s + [punctuation];
    var slow := new Source(text, EOF, Present(OneByOne));
    var r := new PunctuatedReader(slow, punctuation);
    ghost var p := r.Pending();
    var segment;
    segment, a := r.ReadUntilPunctuation(|s|);
    ClosedByLast(s, punctuation);
    var quick := new Source(text, EOF, Present(LastTwo));
    r := new PunctuatedReader(quick, punctuation);
    segment, b := r.ReadUntilPunctuation(|s|);
  }

  lemma ClosedByLast(s: bytes, p: byte)
    requires p !in s
    ensures HasNext(s + [p], p) && First(s + [p], p) == s
  {
    IndexOfUnique(s + [p], p, |s|);
  }
}
