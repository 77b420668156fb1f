/** The buffering BaseX decoder (encoding/basex/stream.go, type decoder). */
module BasexDecoder {
  import opened Bytes
  import opened Radix
  import opened BasexLengths
  import opened BasexEncoding
  import opened BasexCodec
  import opened Punctuated
  import opened Readers
  import IO
  import BasexArrays

  /** What NewDecoder reads from: a reader, behind the filter when the encoding has skip bytes. */
  datatype Upstream = Direct(r: Reader) | Filtered(f: FilteringReader) {

    ghost function Repr(): set<object> {
      match this
      case Direct(r) => r.Repr()
      case Filtered(f) => {f} + f.wrapped.Repr()
    }

    ghost predicate Ready()
      reads Repr()
    {
      match this
      case Direct(r) => r.Ready()
      case Filtered(f) => f.wrapped.Ready() && f !in f.wrapped.Repr()
    }

    ghost function Future(): Fate
      reads Repr()
      requires Ready()
    {
      match this
      case Direct(r) => ReadyReadable(r); r.Future()
      case Filtered(f) => ReadyReadable(f.wrapped); Filter(f.enc, f.wrapped.Future())
    }

    method Read(p: array<byte>, lo: nat, hi: nat) returns (n: nat, err: Err)
      requires Ready() && lo <= hi <= p.Length && p !in Repr()
      modifies Repr(), p
      ensures n <= hi - lo
      ensures forall i :: 0 <= i < p.Length && !(lo <= i < hi) ==> p[i] == old(p[i])
      ensures err == None || err == EOF ==>
        Ready() && Honours(old(Future()), p[lo..lo + n], err, Future(), hi - lo >= 2)
      ensures err == None && lo < hi ==> n > 0
      ensures err != None && err != EOF ==> !old(Future()).Sure(hi - lo >= 2)
    {
      hide Honours, Filter, Reader.Ready, Reader.Readable, Reader.Future;
      match this
      case Direct(r) =>
        ReadyReadable(r);
        n, err := r.Read(p, lo, hi);
      case Filtered(f) =>
        n, err := f.Read(p, lo, hi);
    }
  }

  // ---- decoding in pieces ----

  /** No byte of `s` is one that decoding would skip. */
  predicate NoSkip(enc: Encoding, s: bytes) {
    forall i :: 0 <= i < |s| ==> s[i] in enc.alphabet || s[i] !in enc.skip
  }

  lemma NoSkipConcat(enc: Encoding, a: bytes, b: bytes)
    ensures NoSkip(enc, a + b) <==> NoSkip(enc, a) && NoSkip(enc, b)
  {
    assert forall i :: 0 <= i < |a| ==> (a + b)[i] == a[i];
    assert forall i :: 0 <= i < |b| ==> (a + b)[|a| + i] == b[i];
  }

  lemma NoSkipStrip(enc: Encoding, s: bytes)
    requires NoSkip(enc, s) && FirstBad(enc, s) == |s|
    ensures Strip(enc, s) == s
  {
    StripLetters(enc, s);
  }

  /** Whole blocks can be decoded ahead of what follows them, as long as they decode. If they do not,
      nothing that follows repairs them, and what they do decode to stays a prefix. */
  lemma DecodeAhead(enc: Encoding, a: bytes, b: bytes)
    requires BaseXBlockLen(enc) > 0 && |a| % BaseXBlockLen(enc) == 0 && NoSkip(enc, a)
    ensures DecodeText(enc, a).err == None ==>
      && DecodeText(enc, a + b).data == DecodeText(enc, a).data + DecodeText(enc, b).data
      && (DecodeText(enc, a + b).err == None <==> DecodeText(enc, b).err == None)
    ensures DecodeText(enc, a).err != None ==>
      DecodeText(enc, a + b).err != None && DecodeText(enc, a).data <= DecodeText(enc, a + b).data
  {
    hide DecodeLetters, Strip, BaseXBlockLen, FirstBad;
    FirstBadConcat(enc, a, b);
    var k := FirstBad(enc, a);
    if k < |a| {
      assert (a + b)[..k] == a[..k];
    } else {
      var j := FirstBad(enc, b);
      NoSkipStrip(enc, a);
      DecodeLettersSplit(enc, a, []);
      assert a + [] == a;
      StripConcat(enc, a, b);
      DecodeLettersSplit(enc, a, Strip(enc, b));
      if j < |b| {
        assert (a + b)[..k + j] == a + b[..j];
        StripConcat(enc, a, b[..j]);
        var s := Strip(enc, b[..j]);
        WholePartAfter(enc, a, s);
        DecodeLettersSplit(enc, a, WholePart(enc, s));
      }
    }
  }

  lemma WholePartAfter(enc: Encoding, a: bytes, s: bytes)
    requires BaseXBlockLen(enc) > 0 && |a| % BaseXBlockLen(enc) == 0
    ensures WholePart(enc, a + s) == a + WholePart(enc, s)
  {
    var k := BaseXBlockLen(enc);
    var m := RoundDown(|s|, k);
    MultipleSum(|a|, m, k);
    RoundDownSum(|a| + m, |s| - m, k);
  }

  // ---- the decoder ----

  /** What a decoder will do in all: deliver `rest` if it ends cleanly, which it will if `must` (when
      `pairs` only if every read is big enough for two blocks) and only if `may`; deliver no more than
      `sure` if it ends with an error. */
  datatype Outlook = Outlook(rest: bytes, sure: bytes, must: bool, pairs: bool, may: bool, sound: bool) {

    predicate Certain(big: bool) {
      must && (pairs ==> big)
    }
  }

  /** The outlook when `pending` is buffered ahead of a reader with fate `f`, and `out` is decoded but
      not yet delivered: whole blocks are decoded as they come, a short one only at the end. */
  function DecodeOutlook(enc: Encoding, out: bytes, pending: bytes, f: Fate): Outlook {
    var text := pending + f.rest;
    var d := DecodeText(enc, text);
    Outlook(out + d.data, out + DecodeText(enc, WholePart(enc, text)).data,
            f.must && d.err == None, f.pairs, f.may && d.err == None, f.sound)
  }

  /** A read that delivers `got`. */
  predicate Advances(f: Outlook, got: bytes, g: Outlook, big: bool) {
    && f.rest == got + g.rest && (g.may ==> f.may) && (f.sound ==> g.sound)
    && (f.Certain(big) ==> g.must && (g.pairs ==> f.pairs))
    && (f.sure == got + g.sure || (g.must && !g.pairs))
  }

  /** The last read: a clean end with everything delivered, or an error with a prefix. */
  predicate Stops(f: Outlook, got: bytes, err: Err, big: bool) {
    if err == EOF then got == [] && f.rest == [] && f.may else !f.Certain(big) && got <= f.sure
  }

  class Decoder {
    const enc: Encoding
    const r: Upstream
    const buf: array<byte>
    const scratchbuf: array<byte>
    var err: Err
    var out: Slice
    var nbuf: nat

    ghost predicate Wired()
      reads this
    {
      && buf.Length == 8192 * enc.base256BlockLen && scratchbuf.Length == 8192 * BaseXBlockLen(enc)
      && buf != scratchbuf && buf !in r.Repr() && scratchbuf !in r.Repr() && this !in r.Repr()
      && nbuf <= buf.Length && out.Ok() && out.Arrays() <= {scratchbuf}
    }

    ghost predicate Valid()
      reads this, buf, scratchbuf, r.Repr()
    {
      && Wired()
      && (err == None ==>
            && nbuf < BaseXBlockLen(enc)
            && r.Ready() && NoSkip(enc, buf[..nbuf]) && NoSkip(enc, r.Future().rest))
    }

    ghost function Future(): Outlook
      reads this, buf, scratchbuf, r.Repr()
      requires Valid() && err == None
    {
      DecodeOutlook(enc, out.Get(), buf[..nbuf], r.Future())
    }

    constructor (enc: Encoding, r: Upstream)
      requires r.Ready() && NoSkip(enc, r.Future().rest)
      ensures Valid() && err == None && this.enc == enc && this.r == r
      ensures Future() == DecodeOutlook(enc, [], [], r.Future())
      ensures fresh(buf) && fresh(scratchbuf)
    {
      hide DecodeOutlook, NoSkip, Upstream.Ready, Upstream.Future;
      BlockLenPositive(enc);
      this.enc, this.r, err, out, nbuf := enc, r, None, Nil, 0;
      buf := new byte[8192 * enc.base256BlockLen];
      scratchbuf := new byte[8192 * BaseXBlockLen(enc)];
      new;
      assert this !in r.Repr() && buf !in r.Repr() && scratchbuf !in r.Repr();
      assert buf[..0] == [];
      assert NoSkip(enc, []) by {
        NothingToSkip(enc);
      }
    }

    /** A read into `size` bytes has room for two blocks. */
    ghost predicate Big(size: nat) {
      size >= 2 * enc.base256BlockLen
    }

    /** How far the buffer is filled for a destination of `len` bytes: at least one block. */
    method ReadLimit(len: nat) returns (nn: nat)
      requires Wired()
      ensures BaseXBlockLen(enc) <= nn <= buf.Length && (Big(len) ==> nn > BaseXBlockLen(enc))
    {
      BlockSizes(enc);
      TwoBlocks(len, enc.base256BlockLen, BaseXBlockLen(enc));
      var obl := BaseXBlockLen(enc);
      nn := WholeBlocks(len, enc.base256BlockLen, obl);
      if nn < obl {
        nn := obl;
      }
      if nn > buf.Length {
        nn := buf.Length;
      }
    }

    /** The text not yet decoded, as a fate. */
    ghost function Text(): Fate
      reads this, buf, r.Repr()
      requires Wired() && r.Ready()
    {
      TextFate(buf[..nbuf], r.Future())
    }

    /** Read's inner loop: reads until a block is buffered, or an error comes. */
    method Fill(nn: nat, ghost big: bool)
      requires Wired() && r.Ready() && err == None && BaseXBlockLen(enc) <= nn <= buf.Length
      requires nbuf < BaseXBlockLen(enc) && (big ==> nn > BaseXBlockLen(enc))
      modifies this`nbuf, this`err, buf, r.Repr()
      ensures Wired()
      ensures err == None || err == EOF ==> r.Ready()
      ensures err == None ==> nbuf >= BaseXBlockLen(enc) && Skips(old(Text()), Text(), big)
      ensures err == EOF ==>
        AtEnd(old(Text()), buf[..nbuf], r.Future())
      ensures err != None && err != EOF ==> !old(Text()).Sure(big)
    {
      hide Fate.Sure, TextFate, Skips, Honours, AtEnd, Upstream.Ready, Upstream.Future, BaseXBlockLen;
      ghost var f := Text();
      SkipsItself(f, big);
      while nbuf < BaseXBlockLen(enc) && err == None
        invariant Wired() && nbuf <= nn
        invariant err == None ==> r.Ready() && Skips(f, Text(), big)
        invariant err == EOF ==> r.Ready() && AtEnd(f, buf[..nbuf], r.Future())
        invariant err != None && err != EOF ==> !f.Sure(big)
        decreases err == None, nn - nbuf
      {
        ghost var pending, g := buf[..nbuf], r.Future();
        var n;
        n, err := r.Read(buf, nbuf, nn);
        TextSure(f, pending, g, big, nn - nbuf >= 2);
        if err == None || err == EOF {
          assert buf[..nbuf + n] == pending + buf[nbuf..nbuf + n];
          TextReads(f, pending, g, buf[nbuf..nbuf + n], err, r.Future(), big, nn - nbuf >= 2);
        }
        nbuf := nbuf + n;
      }
    }

    /** Copies as much decoded output as fits, and keeps the rest. */
    method TakeOut(p: array<byte>, lo: nat, hi: nat) returns (ret: nat)
      requires out.Ok() && out.Arrays() <= {scratchbuf} && lo <= hi <= p.Length && p != scratchbuf
      modifies this`out, p
      ensures out.Ok() && out.Arrays() <= {scratchbuf} && ret <= hi - lo
      ensures forall i :: 0 <= i < p.Length && !(lo <= i < lo + ret) ==> p[i] == old(p[i])
      ensures p[lo..lo + ret] + out.Get() == old(out.Get())
      ensures lo < hi && old(out.Get()) != [] ==> ret > 0
    {
      ghost var data := out.Get();
      ret := Copy(p, lo, hi, out);
      SubGet(out, ret, out.Len());
      out := out.Sub(ret, out.Len());
      assert data == data[..ret] + data[ret..];
    }

    /** Decodes buf[..k] into p[lo..hi], or, when it may not fit, into the scratch buffer, whose rest
        waits for later reads. */
    method DecodeBuffered(p: array<byte>, lo: nat, hi: nat, k: nat) returns (ret: nat)
      requires Wired() && out.Nil? && k <= nbuf && lo <= hi <= p.Length && p != buf && p != scratchbuf
      modifies this`err, this`out, p, scratchbuf
      ensures Wired() && ret <= hi - lo
      ensures forall i :: 0 <= i < p.Length && !(lo <= i < hi) ==> p[i] == old(p[i])
      ensures p[lo..lo + ret] + out.Get() == DecodeText(enc, buf[..k]).data && err == DecodeText(enc, buf[..k]).err
      ensures lo < hi && DecodeText(enc, buf[..k]).data != [] ==> ret > 0
    {
      hide DecodeText, BaseXBlockLen, DecodedLen, Upstream.Repr;
      DecodedLenShrinks(enc, k);
      BlockSizes(enc);
      if DecodedLen(enc, k) > hi - lo {
        var n;
        n, err := BasexArrays.Decode(enc, scratchbuf, 0, buf[..k]);
        out := Part(scratchbuf, 0, n);
        ret := TakeOut(p, lo, hi);
      } else {
        ret, err := BasexArrays.Decode(enc, p, lo, buf[..k]);
      }
    }

    /** Moves what was not decoded to the start of the buffer. */
    method Shift(k: nat)
      requires k <= nbuf <= buf.Length
      modifies this`nbuf, buf
      ensures nbuf == old(nbuf) - k && buf[..nbuf] == old(buf[k..nbuf])
    {
      nbuf := nbuf - k;
      forall i | 0 <= i < nbuf {
        buf[i] := buf[k + i];
      }
    }

    /** Decodes buf[..k] and drops it from the buffer. */
    method DecodeFront(p: array<byte>, lo: nat, hi: nat, k: nat) returns (ret: nat)
      requires Wired() && out.Nil? && k <= nbuf && lo <= hi <= p.Length && p != buf && p != scratchbuf
      modifies this`err, this`out, this`nbuf, buf, scratchbuf, p
      ensures Wired() && ret <= hi - lo
      ensures forall i :: 0 <= i < p.Length && !(lo <= i < hi) ==> p[i] == old(p[i])
      ensures p[lo..lo + ret] + out.Get() == DecodeText(enc, old(buf[..k])).data
      ensures err == DecodeText(enc, old(buf[..k])).err
      ensures lo < hi && DecodeText(enc, old(buf[..k])).data != [] ==> ret > 0
      ensures nbuf == old(nbuf) - k && buf[..nbuf] == old(buf[k..nbuf])
    {
      hide DecodeText, BaseXBlockLen, Upstream.Repr;
      ret := DecodeBuffered(p, lo, hi, k);
      ghost var got, left := p[lo..lo + ret], out.Get();
      Shift(k);
      assert out.Get() == left && p[lo..lo + ret] == got;
    }

    /** Read: however the upstream reader splits its data and whatever the sizes of the reads, an
        accepted text comes out as its one-shot decoding and then a clean end of stream; a rejected
        one as a prefix of it and then an error. */
    method Read(p: array<byte>, lo: nat, hi: nat) returns (ret: nat, e: Err)
      requires Valid() && lo <= hi <= p.Length && p != buf && p != scratchbuf && p !in r.Repr()
      modifies this`err, this`out, this`nbuf, buf, scratchbuf, r.Repr(), p
      ensures Valid() && err == e && ret <= hi - lo
      ensures forall i :: 0 <= i < p.Length && !(lo <= i < hi) ==> p[i] == old(p[i])
      ensures old(err) != None ==> ret == 0 && e == old(err)
      ensures old(err) == None && e == None ==> Advances(old(Future()), p[lo..lo + ret], Future(), Big(hi - lo))
      ensures old(err) == None && e != None ==> Stops(old(Future()), p[lo..lo + ret], e, Big(hi - lo))
      ensures old(err) == None && e == EOF ==> r.Ready() && (old(Future()).sound ==> r.Future().done)
      ensures e == None && lo < hi ==> ret > 0
    {
      hide DecodeOutlook, NoSkip, Upstream.Repr, Upstream.Ready, Upstream.Future, BaseXBlockLen, Advances, Stops;
      if err != None {
        return 0, err;
      }
      if out.Slice? {
        ret := CopyLeftover(p, lo, hi);
        return ret, None;
      }
      ret, e := ReadBlocks(p, lo, hi);
    }

    /** Read, when leftover output from an earlier call comes first. */
    method CopyLeftover(p: array<byte>, lo: nat, hi: nat) returns (ret: nat)
      requires Valid() && err == None && out.Slice?
      requires lo <= hi <= p.Length && p != buf && p != scratchbuf && p !in r.Repr()
      modifies this`out, p
      ensures Valid() && ret <= hi - lo
      ensures forall i :: 0 <= i < p.Length && !(lo <= i < hi) ==> p[i] == old(p[i])
      ensures Advances(old(Future()), p[lo..lo + ret], Future(), Big(hi - lo))
      ensures lo < hi ==> ret > 0
    {
      hide DecodeOutlook, NoSkip, Upstream.Ready, Upstream.Future, Advances, BaseXBlockLen;
      ghost var data := out.Get();
      ghost var u := r.Future();
      ret := TakeOut(p, lo, hi);
      assert this !in r.Repr() && r.Future() == u;
      LeftoverYields(enc, data, p[lo..lo + ret], out.Get(), buf[..nbuf], u, Big(hi - lo));
    }

    /** Read, when nothing is left over. */
    method ReadBlocks(p: array<byte>, lo: nat, hi: nat) returns (ret: nat, e: Err)
      requires Valid() && err == None && out.Nil?
      requires lo <= hi <= p.Length && p != buf && p != scratchbuf && p !in r.Repr()
      modifies this`err, this`out, this`nbuf, buf, scratchbuf, r.Repr(), p
      ensures Valid() && err == e && ret <= hi - lo
      ensures forall i :: 0 <= i < p.Length && !(lo <= i < hi) ==> p[i] == old(p[i])
      ensures e == None ==> Advances(old(Future()), p[lo..lo + ret], Future(), Big(hi - lo))
      ensures e != None ==> Stops(old(Future()), p[lo..lo + ret], e, Big(hi - lo))
      ensures e == EOF ==> r.Ready() && (old(Future()).sound ==> r.Future().done)
      ensures e == None && lo < hi ==> ret > 0
    {
      hide DecodeText, NoSkip, Upstream.Ready, Upstream.Future, Skips, AtEnd, BaseXBlockLen, Advances, DecodeOutlook, TextFate, Stops;
      ghost var f := Text();
      TextNoSkip(enc, buf[..nbuf], r.Future());
      assert Future() == DecodeOutlook(enc, [], [], f) by {
        FateOfText(enc, buf[..nbuf], r.Future());
      }
      var nn := ReadLimit(hi - lo);
      Fill(nn, Big(hi - lo));
      if err != None && (err != EOF || nbuf == 0) {
        FillFailed(enc, f, err, buf[..nbuf], if err == EOF then r.Future() else f, Big(hi - lo));
        assert p[lo..lo] == [];
        return 0, err;
      }
      ret := DecodeAndShift(p, lo, hi, err == EOF, f);
      e := err;
    }

    /** Read, once the buffer is filled: decodes its whole blocks, or at the end of the input all of it. */
    method DecodeAndShift(p: array<byte>, lo: nat, hi: nat, eof: bool, ghost f: Fate) returns (ret: nat)
      requires Wired() && r.Ready() && out.Nil? && nbuf > 0 && NoSkip(enc, f.rest) && lo <= hi <= p.Length
      requires if eof then AtEnd(f, buf[..nbuf], r.Future()) else
        nbuf >= BaseXBlockLen(enc) && Skips(f, Text(), Big(hi - lo))
      requires p != buf && p != scratchbuf && p !in r.Repr()
      modifies this`err, this`out, this`nbuf, buf, scratchbuf, p
      ensures Valid() && ret <= hi - lo
      ensures forall i :: 0 <= i < p.Length && !(lo <= i < hi) ==> p[i] == old(p[i])
      ensures err == None ==> Advances(DecodeOutlook(enc, [], [], f), p[lo..lo + ret], Future(), Big(hi - lo))
      ensures err != None ==> err != EOF && Stops(DecodeOutlook(enc, [], [], f), p[lo..lo + ret], err, Big(hi - lo))
      ensures err == None && lo < hi ==> ret > 0
    {
      BlockLenPositive(enc);
      hide DecodeText, NoSkip, Upstream.Ready, Upstream.Future, Skips, AtEnd, BaseXBlockLen, Advances, DecodeOutlook, TextFate, Stops;
      var k := if eof then nbuf else RoundDown(nbuf, BaseXBlockLen(enc));
      ghost var a, b, u := buf[..k], buf[k..nbuf], r.Future();
      assert buf[..nbuf] == a + b;
      PartsNoSkip(enc, f, eof, a, b, u, Big(hi - lo));
      ret := DecodeFront(p, lo, hi, k);
      assert this !in r.Repr() && r.Future() == u;
      DecodeYields(enc, f, eof, a, b, u, p[lo..lo + ret], out.Get(), Big(hi - lo));
    }
  }

  /** What is buffered goes ahead of what is still to be read. */
  function TextFate(pending: bytes, f: Fate): Fate {
    f.(rest := pending + f.rest)
  }

  /** The input is at its end, and `pending` is all that is left of it. */
  predicate AtEnd(f: Fate, pending: bytes, u: Fate) {
    f.rest == pending && f.may && u.rest == [] && u.must && !u.pairs && (f.sound ==> u.sound && u.done)
  }

  /** A read into the buffer has room for two bytes whenever the whole fill has room for two blocks. */
  lemma TextSure(f: Fate, pending: bytes, g: Fate, big: bool, two: bool)
    requires Skips(f, TextFate(pending, g), big) && (big ==> two)
    ensures !g.Sure(two) ==> !f.Sure(big)
  {
  }

  lemma TextReads(f: Fate, pending: bytes, g: Fate, got: bytes, err: Err, h: Fate, big: bool, two: bool)
    requires Skips(f, TextFate(pending, g), big) && Honours(g, got, err, h, two) && (err == None || err == EOF)
    requires big ==> two
    ensures err == None ==> Skips(f, TextFate(pending + got, h), big)
    ensures err == EOF ==> AtEnd(f, pending + got, h)
  {
    SeqAssoc(pending, got, h.rest);
  }

  lemma NothingToSkip(enc: Encoding)
    ensures NoSkip(enc, [])
  {
  }

  // ---- buffer sizes ----

  lemma {:induction false} PowOfTwo(n: nat)
    ensures Pow(2, 8 * n) == Pow(256, n)
  {
    if n > 0 {
      PowOfTwo(n - 1);
      var m := 8 * n - 8;
      assert Pow(2, m + 8) == 2 * Pow(2, m + 7) == 4 * Pow(2, m + 6) == 8 * Pow(2, m + 5);
      assert Pow(2, m + 5) == 2 * Pow(2, m + 4) == 4 * Pow(2, m + 3) == 8 * Pow(2, m + 2) == 32 * Pow(2, m);
    }
  }

  lemma {:induction false} PowBaseMonotone(a: nat, b: nat, e: nat)
    requires a <= b
    ensures Pow(a, e) <= Pow(b, e)
  {
    if e > 0 {
      PowBaseMonotone(a, b, e - 1);
      calc {
        a * Pow(a, e - 1);
      <= { MulMonotone(a, b, Pow(a, e - 1)); }
        b * Pow(a, e - 1);
      <= { MulMonotone(Pow(a, e - 1), Pow(b, e - 1), b); }
        b * Pow(b, e - 1);
      }
    }
  }

  lemma TwoBlocks(len: nat, ibl: nat, obl: nat)
    requires ibl > 0 && obl > 0
    ensures len >= 2 * ibl ==> WholeBlocks(len, ibl, obl) > obl
  {
    if len >= 2 * ibl {
      WholeBlocksStep(len, ibl, obl);
      WholeBlocksStep(len - ibl, ibl, obl);
    }
  }

  /** A block has at least as many characters as bytes, and at most eight times as many. */
  lemma BlockSizes(enc: Encoding)
    ensures enc.base256BlockLen <= BaseXBlockLen(enc) <= 8 * enc.base256BlockLen
  {
    var n, c := enc.base256BlockLen, BaseXBlockLen(enc);
    BlockLenPositive(enc);
    BlockBytesAtMostChars(Base(enc), c);
    PowOfTwo(n);
    PowBaseMonotone(2, Base(enc), 8 * n);
    if 8 * n < c {
      PowMonotone(Base(enc), 8 * n, c - 1);
    }
  }

  lemma {:induction false} DecodedLenShrinks(enc: Encoding, n: nat)
    ensures DecodedLen(enc, n) <= n
    decreases n
  {
    BlockLenPositive(enc);
    BlockSizes(enc);
    DecodedLenStep(enc, n);
    if n <= BaseXBlockLen(enc) {
      BlockBytesAtMostChars(Base(enc), n);
    } else {
      DecodedLenShrinks(enc, n - BaseXBlockLen(enc));
    }
  }

  // ---- one Read, on fates ----

  lemma LeftoverYields(enc: Encoding, data: bytes, got: bytes, left: bytes, pending: bytes, f: Fate, big: bool)
    requires data == got + left
    ensures Advances(DecodeOutlook(enc, data, pending, f), got, DecodeOutlook(enc, left, pending, f), big)
  {
    SeqAssoc(got, left, DecodeText(enc, pending + f.rest).data);
    SeqAssoc(got, left, DecodeText(enc, WholePart(enc, pending + f.rest)).data);
  }

  lemma TextNoSkip(enc: Encoding, pending: bytes, f: Fate)
    requires NoSkip(enc, pending) && NoSkip(enc, f.rest)
    ensures NoSkip(enc, TextFate(pending, f).rest)
  {
    NoSkipConcat(enc, pending, f.rest);
  }

  lemma FateOfText(enc: Encoding, pending: bytes, f: Fate)
    ensures DecodeOutlook(enc, [], pending, f) == DecodeOutlook(enc, [], [], TextFate(pending, f))
  {
    assert [] + (pending + f.rest) == pending + f.rest;
  }

  lemma FillFailed(enc: Encoding, f: Fate, err: Err, pending: bytes, u: Fate, big: bool)
    requires err != None && err != EOF ==> !f.Sure(big)
    requires err == EOF ==> AtEnd(f, pending, u) && pending == []
    requires err != None
    ensures Stops(DecodeOutlook(enc, [], [], f), [], err, big)
    ensures err == EOF && DecodeOutlook(enc, [], [], f).sound ==> u.done
  {
    BasexArrays.DecodeEmptyText(enc);
    assert [] + f.rest == f.rest;
  }

  /** Decoding the blocks `a` buffered at the front of a text leads to the fate of what follows. */
  lemma DecodeYields(enc: Encoding, f: Fate, eof: bool, a: bytes, b: bytes, u: Fate, got: bytes, out: bytes, big: bool)
    requires NoSkip(enc, f.rest) && BaseXBlockLen(enc) > 0
    requires if eof then b == [] && AtEnd(f, a, u)
             else |a| % BaseXBlockLen(enc) == 0 && Skips(f, TextFate(a + b, u), big)
    requires got + out == DecodeText(enc, a).data
    ensures DecodeText(enc, a).err == None ==>
      Advances(DecodeOutlook(enc, [], [], f), got, DecodeOutlook(enc, out, b, u), big)
    ensures DecodeText(enc, a).err != EOF
    ensures DecodeText(enc, a).err != None ==> Stops(DecodeOutlook(enc, [], [], f), got, DecodeText(enc, a).err, big)
  {
    hide DecodeText, NoSkip, BaseXBlockLen, WholePart;
    assert [] + f.rest == f.rest;
    DecodeNeverEOF(enc, a);
    if eof {
      BasexArrays.DecodeEmptyText(enc);
      assert b + u.rest == [];
      WholeData(enc, a);
    } else {
      var rest := b + u.rest;
      SeqAssoc(a, b, u.rest);
      NoSkipConcat(enc, a, rest);
      DecodeAhead(enc, a, rest);
      SeqAssoc(got, out, DecodeText(enc, rest).data);
      WholePartAfter(enc, a, rest);
      DecodeAhead(enc, a, WholePart(enc, rest));
      SeqAssoc(got, out, DecodeText(enc, WholePart(enc, rest)).data);
    }
  }

  /** A text that does not decode has no more data than its whole blocks. */
  lemma WholeData(enc: Encoding, s: bytes)
    requires NoSkip(enc, s) && BaseXBlockLen(enc) > 0
    ensures DecodeText(enc, s).err != None ==> DecodeText(enc, WholePart(enc, s)).data == DecodeText(enc, s).data
  {
    hide DecodeLetters, Strip, FirstBad, BaseXBlockLen;
    var w := WholePart(enc, s);
    var r := s[|w|..];
    assert s == w + r;
    NoSkipConcat(enc, w, r);
    DecodeAhead(enc, w, r);
    if DecodeText(enc, w).err == None {
      ShortRest(enc, r);
    } else {
      FirstBadConcat(enc, w, r);
      var k := FirstBad(enc, w);
      if k < |w| {
        assert s[..k] == w[..k];
      } else {
        NoSkipStrip(enc, w);
        LettersOutcome(enc, w);
        NothingValid(enc);
      }
    }
  }

  lemma NothingValid(enc: Encoding)
    ensures IsValidEncodingLength(enc, 0)
  {
    BlockLenPositive(enc);
  }

  lemma ShortRest(enc: Encoding, r: bytes)
    requires |r| < BaseXBlockLen(enc) && NoSkip(enc, r)
    ensures DecodeText(enc, r).err != None ==> DecodeText(enc, r).data == []
  {
    var k := FirstBad(enc, r);
    var l := Strip(enc, r[..k]);
    RoundDownSum(0, |l|, BaseXBlockLen(enc));
    BasexArrays.DecodeEmpty(enc);
    if k == |r| {
      NoSkipStrip(enc, r);
    }
  }

  lemma PartsNoSkip(enc: Encoding, f: Fate, eof: bool, a: bytes, b: bytes, u: Fate, big: bool)
    requires NoSkip(enc, f.rest) && a != [] && BaseXBlockLen(enc) > 0
    requires if eof then b == [] && AtEnd(f, a, u) else Skips(f, TextFate(a + b, u), big)
    ensures NoSkip(enc, a) && NoSkip(enc, b) && NoSkip(enc, u.rest)
    ensures DecodeText(enc, a).err == None ==> DecodeText(enc, a).data != []
  {
    if !eof {
      SeqAssoc(a, b, u.rest);
      NoSkipConcat(enc, a, b + u.rest);
      NoSkipConcat(enc, b, u.rest);
    }
    if FirstBad(enc, a) == |a| {
      NoSkipStrip(enc, a);
      if DecodeLetters(enc, a).err == None {
        AcceptedNonEmpty(enc, a);
      }
    }
  }

  lemma DecodeNeverEOF(enc: Encoding, s: bytes)
    ensures DecodeText(enc, s).err != EOF
  {
    LettersOutcome(enc, Strip(enc, s));
  }

  // ---- reading everything ----

  /** io.ReadAll, with reads of any positive sizes; `big` asks for room for two blocks. */
  method ReadAll(d: Decoder, big: bool) returns (data: bytes, err: Err)
    requires d.Valid() && d.err == None
    modifies d`err, d`out, d`nbuf, d.buf, d.scratchbuf, d.r.Repr()
    ensures d.Valid() && d.err == if err == None then EOF else err
    ensures err == None ==> data == old(d.Future()).rest && old(d.Future()).may
    ensures err != None ==> !old(d.Future()).Certain(big) && data <= old(d.Future()).sure
    ensures err == None ==> d.r.Ready() && (old(d.Future()).sound ==> d.r.Future().done)
  {
    hide Advances, Stops, Decoder.Valid, Decoder.Future, Decoder.Wired, Upstream.Ready, Upstream.Future;
    ghost var f := d.Future();
    data := [];
    ReadNothing(f, big);
    while true
      invariant d.Valid() && d.err == None && Advances(f, data, d.Future(), big)
      decreases |d.Future().rest|
    {
      var least := if big then 2 * d.enc.base256BlockLen else 0;
      assert least + 1 > 0 && least + 1 >= least;
      var size: nat :| size > 0 && size >= least;
      ghost var g := d.Future();
      var p := new byte[size];
      var n, e := d.Read(p, 0, size);
      var got := p[0..n];
      if e != None {
        AdvancesThenStops(f, data, g, got, e, big, d.Big(size));
        return data + got, if e == EOF then None else e;
      }
      AdvancesTwice(f, data, g, got, d.Future(), big, d.Big(size));
      data := data + got;
    }
  }

  lemma ReadNothing(f: Outlook, big: bool)
    ensures Advances(f, [], f, big)
  {
  }

  lemma AdvancesTwice(f: Outlook, a: bytes, g: Outlook, b: bytes, h: Outlook, big: bool, bigger: bool)
    requires Advances(f, a, g, big) && Advances(g, b, h, bigger) && (big ==> bigger)
    ensures Advances(f, a + b, h, big) && (b != [] ==> |h.rest| < |g.rest|)
  {
    SeqAssoc(a, b, h.rest);
    SeqAssoc(a, b, h.sure);
  }

  lemma AdvancesThenStops(f: Outlook, a: bytes, g: Outlook, b: bytes, err: Err, big: bool, bigger: bool)
    requires Advances(f, a, g, big) && Stops(g, b, err, bigger) && (big ==> bigger)
    ensures err == EOF ==> a + b == f.rest && f.may && (f.sound ==> g.sound)
    ensures err != EOF ==> !f.Certain(big) && a + b <= f.sure
  {
  }

  /** The streaming decoder against the one-shot one: for every split of the source and all sizes of
      reads it accepts the same texts, with the same data; of a rejected text it delivers no more than
      a prefix of what the one-shot decoder does. */
  method DecodeStream(enc: Encoding, text: bytes) returns (data: bytes, err: Err)
    ensures err == None <==> DecodeText(enc, text).err == None
    ensures err == None ==> data == DecodeText(enc, text).data
    ensures err != None ==> data <= DecodeText(enc, text).data
  {
    hide DecodeText, NoSkip, DecodeOutlook, Behind, Decoder.Valid;
    var s := new IO.Source(text, EOF, Absent);
    OutlookOfText(enc, SourceFate(text, EOF));
    var d := NewDecoder(enc, FromSource(s));
    data, err := ReadAll(d, false);
  }

  /** The fate of a reader as the decoder sees it. */
  function Behind(enc: Encoding, f: Fate): Fate {
    if enc.skip != {} then Filter(enc, f) else f
  }

  /** NewDecoder: filters the reader when the encoding has skip bytes. */
  method NewDecoder(enc: Encoding, r: Reader) returns (d: Decoder)
    requires r.Ready() && r.Readable()
    ensures d.Valid() && d.err == None && d.enc == enc
    ensures d.Future() == DecodeOutlook(enc, [], [], Behind(enc, old(r.Future())))
    ensures fresh(d) && fresh(d.buf) && fresh(d.scratchbuf) && fresh(d.r.Repr() - r.Repr())
    ensures d.r == Direct(r) || (d.r.Filtered? && d.r.f.wrapped == r)
  {
    hide DecodeText, NoSkip, Filter, DecodeOutlook, Reader.Ready, Reader.Readable, Reader.Future;
    ghost var u := r.Future();
    ReadyReadable(r);
    OutlookOfText(enc, u);
    var up: Upstream;
    if enc.skip != {} {
      var f := new FilteringReader(r, enc);
      assert f !in r.Repr() && r.Ready() && r.Future() == u;
      up := Filtered(f);
    } else {
      up := Direct(r);
    }
    ghost var h := up.Future();
    assert h == Behind(enc, u);
    d := new Decoder(enc, up);
  }

  /** Decoding behind the filter is one-shot decoding of what the reader delivers. */
  lemma OutlookOfText(enc: Encoding, f: Fate)
    ensures var u, d := Behind(enc, f), DecodeText(enc, f.rest);
      var o := DecodeOutlook(enc, [], [], u);
      && NoSkip(enc, u.rest)
      && o.must == (d.err == None && (f.must || (f.lucky && EndsSkipped(enc, f.rest))))
      && o.may == (d.err == None && (f.may || (f.fault && EndsSkipped(enc, f.rest))))
      && (f.must && !f.pairs ==> !o.pairs) && o.sound == f.sound
      && (d.err == None ==> o.rest == d.data) && (d.err != None ==> o.sure == d.data)
  {
    hide DecodeLetters, DecodeText, WholePart;
    BlockLenPositive(enc);
    var text := f.rest;
    var k := FirstBad(enc, text);
    if enc.skip == {} {
      assert [] + text == text;
      WholeData(enc, text);
    } else {
      var s := Strip(enc, text[..k]);
      assert [] + s == s && (k == |text| ==> text[..k] == text);
      DecodeOfLetters(enc, s);
      DecodeOfLetters(enc, WholePart(enc, s));
      WholeData(enc, s);
      DecodeTextUnfold(enc, text);
    }
  }

  lemma DecodeOfLetters(enc: Encoding, s: bytes)
    requires forall b :: b in s ==> b in enc.alphabet
    ensures DecodeText(enc, s) == DecodeLetters(enc, s) && NoSkip(enc, s)
    ensures forall b :: b in WholePart(enc, s) ==> b in enc.alphabet
  {
    FirstBadUnique(enc, s, |s|);
    StripLetters(enc, s);
  }

  lemma DecodeTextUnfold(enc: Encoding, s: bytes)
    ensures var k := FirstBad(enc, s);
      DecodeText(enc, s) == if k < |s|
        then Decoded(DecodeLetters(enc, WholePart(enc, Strip(enc, s[..k]))).data, Corrupt(k))
        else DecodeLetters(enc, Strip(enc, s))
  {
  }
}
