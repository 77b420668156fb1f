/** The buffering BaseX encoder (encoding/basex/stream.go, type encoder). */
module BasexEncoder {
  import opened Bytes
  import opened IO
  import opened Radix
  import opened BasexLengths
  import opened BasexEncoding
  import opened BasexCodec
  import BasexArrays

  /** The whole blocks of `s`, and what is left over. */
  function Head(enc: Encoding, s: bytes): bytes {
    s[..RoundDown(|s|, enc.base256BlockLen)]
  }

  function Tail(enc: Encoding, s: bytes): (r: bytes)
    ensures |r| < enc.base256BlockLen && Head(enc, s) + r == s
  {
    s[RoundDown(|s|, enc.base256BlockLen)..]
  }

  class Encoder {
    const enc: Encoding
    const w: Buffer
    const buf: array<byte>
    const out: array<byte>
    var nbuf: nat

    // All bytes written so far, and what the writer held at the start.
    ghost var input: bytes
    ghost const before: bytes

    ghost predicate Wired()
      reads this
    {
      buf != out && buf.Length == enc.base256BlockLen && out.Length == 128 * BaseXBlockLen(enc)
    }

    /** Between calls less than a block is buffered, and all whole blocks have been emitted. */
    ghost predicate Valid()
      reads this, w, buf
    {
      && Wired() && nbuf < buf.Length
      && buf[..nbuf] == Tail(enc, input)
      && w.Written() == before + EncodeText(enc, Head(enc, input))
    }

    constructor (enc: Encoding, w: Buffer)
      ensures Valid() && this.enc == enc && this.w == w
      ensures input == [] && before == w.Written()
      ensures fresh(buf) && fresh(out)
    {
      hide EncodeText, BaseXBlockLen, Head, Tail;
      this.enc, this.w, nbuf := enc, w, 0;
      buf := new byte[enc.base256BlockLen];
      out := new byte[128 * BaseXBlockLen(enc)];
      input, before := [], w.Written();
      new;
      NothingYet(enc);
    }

    /** Whole blocks have gone out as `done`; `pending` has not. */
    ghost predicate Emitted(done: bytes)
      reads this, w
    {
      |done| % enc.base256BlockLen == 0 && w.Written() == before + EncodeText(enc, done)
    }

    method Write(p: bytes) returns (n: nat)
      requires Valid()
      modifies this`nbuf, this`input, w, buf, out
      ensures Valid() && n == |p| && w.drained == old(w.drained) && old(w.data) <= w.data
      ensures input == old(input) + p
    {
      hide EncodeText;
      var q := p;
      ghost var done := Head(enc, input);
      assert input + p == done + buf[..nbuf] + p;
      n := 0;
      if nbuf > 0 {
        n := FillBuffer(p);
        q := p[n..];
        assert old(buf[..nbuf]) + p == buf[..nbuf] + q;
        if nbuf < enc.base256BlockLen {
          input := input + p;
          SeqAssoc(done, old(buf[..nbuf]), p);
          HeadUnique(enc, done, buf[..nbuf]);
          return;
        }
        EmitBuffer(done);
        done := done + buf[..];
        nbuf := 0;
      }
      assert input + p == done + q;
      var m := WriteRest(q, done);
      n := n + m;
    }

    /** Write, with nothing buffered: the whole blocks of `q`, then its trailing fringe. */
    method WriteRest(q: bytes, ghost done: bytes) returns (n: nat)
      requires Wired() && Emitted(done)
      modifies this`nbuf, this`input, w, buf, out
      ensures Valid() && n == |q| && input == done + q && w.drained == old(w.drained) && old(w.data) <= w.data
    {
      hide EncodeText;
      n := WriteBlocks(q, done);
      var rest := q[n..];
      forall i | 0 <= i < |rest| {
        buf[i] := rest[i];
      }
      nbuf := |rest|;
      assert done + q == done + q[..n] + rest;
      input := done + q;
      n := n + |rest|;
      HeadUnique(enc, done + q[..|q| - nbuf], rest);
    }

    /** Write's large interior chunks: all whole blocks of `q`. */
    method WriteBlocks(q: bytes, ghost done: bytes) returns (n: nat)
      requires Wired() && Emitted(done)
      modifies w, out
      ensures n <= |q| && |q| - n < enc.base256BlockLen
      ensures Emitted(done + q[..n]) && w.drained == old(w.drained) && old(w.data) <= w.data
    {
      hide EncodeText;
      n := 0;
      assert done + q[..0] == done;
      while |q| - n >= enc.base256BlockLen
        invariant n <= |q| && Wired() && Emitted(done + q[..n]) && w.drained == old(w.drained) && old(w.data) <= w.data
      {
        var nn := InteriorSize(|q| - n);
        EmitChunk(done + q[..n], q[n..n + nn]);
        assert done + q[..n + nn] == done + q[..n] + q[n..n + nn];
        n := n + nn;
      }
    }

    /** Write's leading fringe: tops the buffer up from `p`. */
    method FillBuffer(p: bytes) returns (i: nat)
      requires Wired() && nbuf < buf.Length
      modifies this`nbuf, buf
      ensures i <= |p| && nbuf <= buf.Length && buf[..nbuf] == old(buf[..nbuf]) + p[..i]
      ensures nbuf < buf.Length ==> i == |p|
    {
      i := 0;
      while i < |p| && nbuf < enc.base256BlockLen
        invariant i <= |p| && nbuf <= buf.Length
        invariant buf[..nbuf] == old(buf[..nbuf]) + p[..i]
      {
        buf[nbuf] := p[i];
        nbuf := nbuf + 1;
        i := i + 1;
      }
    }

    method EmitBuffer(ghost done: bytes)
      requires Wired() && Emitted(done)
      modifies w, out
      ensures Emitted(done + buf[..]) && w.drained == old(w.drained) && old(w.data) <= w.data
    {
      EncodedLenStep(enc, buf.Length);
      MultiplePlus(|done|, enc.base256BlockLen);
      EncodeSplit(enc, done, buf[..]);
      BasexArrays.Encode(enc, out, buf[..]);
      w.Write(out[..BaseXBlockLen(enc)]);
      SeqAssoc(before, EncodeText(enc, done), EncodeText(enc, buf[..]));
    }

    /** The size of one interior chunk: as many whole blocks as the output buffer takes. */
    method InteriorSize(len: nat) returns (nn: nat)
      requires Wired() && len >= enc.base256BlockLen
      ensures 0 < nn <= len && nn % enc.base256BlockLen == 0 && EncodedLen(enc, nn) <= out.Length
    {
      BlockLenPositive(enc);
      DivModSnoc(128, 0, BaseXBlockLen(enc));
      nn := out.Length / BaseXBlockLen(enc) * enc.base256BlockLen;
      DivModSnoc(128, 0, enc.base256BlockLen);
      if nn > len {
        nn := RoundDown(len, enc.base256BlockLen);
      }
      WholeChunk(enc, nn, nn / enc.base256BlockLen);
      MulCancel(nn / enc.base256BlockLen, 129, enc.base256BlockLen);
      MulMonotone(nn / enc.base256BlockLen, 128, BaseXBlockLen(enc));
    }

    method EmitChunk(ghost done: bytes, chunk: bytes)
      requires Wired() && Emitted(done)
      requires |chunk| % enc.base256BlockLen == 0 && EncodedLen(enc, |chunk|) <= out.Length
      modifies w, out
      ensures Emitted(done + chunk) && w.drained == old(w.drained) && old(w.data) <= w.data
    {
      hide EncodeText, EncodedLen, BaseXBlockLen;
      WholeChunk(enc, |chunk|, |chunk| / enc.base256BlockLen);
      MultipleSum(|done|, |chunk|, enc.base256BlockLen);
      EncodeSplit(enc, done, chunk);
      BasexArrays.Encode(enc, out, chunk);
      w.Write(out[..|chunk| / enc.base256BlockLen * BaseXBlockLen(enc)]);
      SeqAssoc(before, EncodeText(enc, done), EncodeText(enc, chunk));
    }

    /** Close flushes the short last block: what was emitted in all is the one-shot encoding of the
        whole input. */
    method Close()
      requires Valid()
      modifies this`nbuf, w, out
      ensures nbuf == 0 && w.Written() == before + EncodeText(enc, input) && w.drained == old(w.drained) && old(w.data) <= w.data
    {
      EncodeSplit(enc, Head(enc, input), Tail(enc, input));
      SeqAssoc(before, EncodeText(enc, Head(enc, input)), EncodeText(enc, Tail(enc, input)));
      if nbuf > 0 {
        EncodedLenStep(enc, nbuf);
        BlockCharsWithin(enc, nbuf);
        BasexArrays.Encode(enc, out, buf[..nbuf]);
        w.Write(out[..EncodedLen(enc, nbuf)]);
        nbuf := 0;
      } else {
        EncodeEmpty(enc);
        assert Head(enc, input) == input;
      }
    }
  }

  lemma EncodeEmpty(enc: Encoding)
    ensures EncodeText(enc, []) == []
  {
    BlockLenPositive(enc);
  }

  lemma NothingYet(enc: Encoding)
    ensures Head(enc, []) == [] && Tail(enc, []) == [] && EncodeText(enc, []) == []
  {
    EncodeEmpty(enc);
  }

  lemma HeadUnique(enc: Encoding, a: bytes, b: bytes)
    requires |a| % enc.base256BlockLen == 0 && |b| < enc.base256BlockLen
    ensures Head(enc, a + b) == a && Tail(enc, a + b) == b
  {
    RoundDownSum(|a|, |b|, enc.base256BlockLen);
  }

  lemma {:induction false} WholeChunk(enc: Encoding, n: nat, m: nat)
    requires n % enc.base256BlockLen == 0 && m == n / enc.base256BlockLen
    ensures EncodedLen(enc, n) == m * BaseXBlockLen(enc) && n == m * enc.base256BlockLen
    decreases n
  {
    DivMod(n, enc.base256BlockLen, m, 0);
    if n == 0 {
      BasexArrays.EncodeNothing(enc);
    } else {
      MultipleStep(n, enc.base256BlockLen);
      WholeBlocksStep(n, enc.base256BlockLen, 1);
      WholeChunk(enc, n - enc.base256BlockLen, m - 1);
      EncodedLenStep(enc, n);
    }
  }

  /** Encoding is block-wise: whole blocks can be encoded ahead of the rest. */
  lemma {:induction false} EncodeSplit(enc: Encoding, a: bytes, b: bytes)
    requires |a| % enc.base256BlockLen == 0
    ensures EncodeText(enc, a + b) == EncodeText(enc, a) + EncodeText(enc, b)
    decreases |a|
  {
    EncodeEmpty(enc);
    if a == [] {
      assert a + b == b;
    } else {
      hide EncodeText;
      MultipleStep(|a|, enc.base256BlockLen);
      var head, tail := a[..enc.base256BlockLen], a[enc.base256BlockLen..];
      assert a == head + tail && a + b == head + (tail + b);
      EncodeSplit(enc, tail, b);
      BasexArrays.EncodeStep(enc, a, head, tail);
      BasexArrays.EncodeStep(enc, a + b, head, tail + b);
      SeqAssoc(EncodeBlock(enc, head), EncodeText(enc, tail), EncodeText(enc, b));
    }
  }

  /** However an input is cut into Writes, the stream encoder emits its one-shot encoding. */
  method EncodeStream(enc: Encoding, pieces: seq<bytes>) returns (text: bytes)
    ensures text == EncodeText(enc, Concat(pieces))
  {
    hide EncodeText, Concat, BaseXBlockLen, Head, Tail;
    assert Concat(pieces[..0]) == [] by {
      ConcatNothing();
    }
    var w := new Buffer();
    var e := new Encoder(enc, w);
    for i := 0 to |pieces|
      invariant e.Valid() && fresh(e) && fresh(w) && fresh(e.buf) && fresh(e.out)
      invariant e.enc == enc && e.w == w && e.before == [] && e.input == Concat(pieces[..i]) && w.drained == []
    {
      ConcatSnoc(pieces, i);
      var n := e.Write(pieces[i]);
    }
    TakeAll(pieces);
    e.Close();
    text := w.data;
    assert [] + text == text && [] + EncodeText(enc, Concat(pieces)) == EncodeText(enc, Concat(pieces));
  }
}
