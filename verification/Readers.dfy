/** The io.Reader interface, as the sum of the readers that implement it here, and the filter in
    front of the BaseX decoder (encoding/basex/stream.go, type filteringReader). */
module Readers {
  import opened Bytes
  import opened IO
  import opened BasexEncoding
  import opened BasexCodec
  import opened Framed

  /** What a reader will do in all: deliver `rest`, then report a clean end of stream if `must` (when
      `pairs` only if every read has room for two bytes), and only if `may`. Between the two, how the
      data is split decides. If an error that comes along with the last bytes is dropped, it may end
      cleanly after it only if `fault`; it will if `lucky`, as long as the reads have room for two bytes,
      and then the error comes with exactly one byte. `sound` says that what it has recorded about its
      input so far is right, `done` that the record is complete. */
  datatype Fate = Fate(rest: bytes, must: bool, pairs: bool, may: bool, fault: bool, lucky: bool, sound: bool, done: bool) {

    /** A clean end is certain for a read; `big` says that it has room for two bytes. */
    predicate Sure(big: bool) {
      must && (pairs ==> big)
    }

    /** It stays certain in `g`. */
    predicate StaysSure(g: Fate, big: bool) {
      Sure(big) ==> g.must && (g.pairs ==> pairs)
    }
  }

  /** What one Read does to a reader's fate. */
  predicate Honours(f: Fate, got: bytes, err: Err, g: Fate, big: bool) {
    && (f.sound ==> g.sound)
    && (match err
        case None =>
          && f.rest == got + g.rest && f.StaysSure(g, big) && (g.may ==> f.may) && (g.fault ==> f.fault)
          && (f.lucky && big ==> g.lucky && g.rest != [])
        case EOF =>
          got == [] && f.rest == [] && f.may && g.rest == [] && g.must && !g.pairs && (f.sound ==> g.done)
        case _ =>
          && !f.Sure(big) && f.rest == got && g.rest == [] && (g.may ==> f.fault)
          && (f.lucky && big ==> |got| == 1 && g.must && !g.pairs))
  }

  datatype Reader = FromSource(s: Source) | FromFrame(f: FramedDecoderStream) {

    ghost function Repr(): (r: set<object>)
      ensures FromSource? ==> r == {s}
    {
      match this
      case FromSource(s) => {s}
      case FromFrame(f) => {f, f.r, f.r.r, f.r.buf}
    }

    /** Ready for any read: no pending byte is in an array outside Repr. */
    ghost predicate Ready()
      reads Repr()
    {
      match this
      case FromSource(s) => s.Valid()
      case FromFrame(f) => f.Settled() && f.Valid()
    }

    /** Ready, or past the end of a framed body, where a read touches no array of the caller's. */
    ghost predicate Readable()
      reads Repr(), if FromFrame? then f.r.Aliases() else {}
    {
      match this
      case FromSource(s) => s.Valid()
      case FromFrame(f) => f.Valid() && (f.Settled() || f.state == FdsEndOfStream)
    }

    ghost function Future(): Fate
      reads Repr(), if FromFrame? then f.r.Aliases() else {}
      requires Readable()
    {
      match this
      case FromSource(s) => SourceFate(s.rest, s.end)
      case FromFrame(f) => FrameFate(f.rules, f.Now())
    }

    method Read(out: array<byte>, lo: nat, hi: nat) returns (n: nat, err: Err)
      requires Readable() && lo <= hi <= out.Length && out !in Repr()
      modifies Repr(), out
      ensures n <= hi - lo
      ensures forall i :: 0 <= i < out.Length && !(lo <= i < hi) ==> out[i] == old(out[i])
      ensures err == None || err == EOF ==> Ready() && Readable()
      ensures err == None || err == EOF || n > 0 ==>
        Readable() && Honours(old(Future()), out[lo..lo + n], err, Future(), hi - lo >= 2)
      ensures err == None && lo < hi ==> n > 0
      ensures err != None && err != EOF ==> Lost(old(Future()), n, hi - lo >= 2)
    {
      hide FrameFate, Honours, Lost, Rules.Reads, Rules.MayEnd;
      match this
      case FromSource(s) =>
        ghost var rest := s.rest;
        n, err := s.Read(out, lo, hi);
        SourceHonours(rest, n, err, s.end, hi - lo >= 2);
      case FromFrame(f) =>
        n, err := ReadFrame(f, out, lo, hi);
    }
  }

  method ReadFrame(f: FramedDecoderStream, out: array<byte>, lo: nat, hi: nat) returns (n: nat, err: Err)
    requires f.Valid() && (f.Settled() || f.state == FdsEndOfStream)
    requires lo <= hi <= out.Length && out != f.r.buf
    modifies f, f.r, f.r.r, f.r.buf, out
    ensures n <= hi - lo
    ensures forall i :: 0 <= i < out.Length && !(lo <= i < hi) ==> out[i] == old(out[i])
    ensures err == None || err == EOF ==> f.Settled()
    ensures err == None || err == EOF || n > 0 ==>
      && f.Valid() && (f.Settled() || f.state == FdsEndOfStream)
      && Honours(FrameFate(f.rules, old(f.Now())), out[lo..lo + n], err, FrameFate(f.rules, f.Now()), hi - lo >= 2)
    ensures err == None && lo < hi ==> n > 0
    ensures err != None && err != EOF ==> Lost(FrameFate(f.rules, old(f.Now())), n, hi - lo >= 2)
  {
    hide FrameFate, Honours, Lost, Rules.Reads, Rules.MayEnd, Rules.Lucky;
    ghost var v := f.Now();
    n, err := f.Read(out, lo, hi);
    if err == None || err == EOF || n > 0 {
      FrameHonours(f.rules, v, out[lo..lo + n], err, f.Now(), hi - lo >= 2);
    }
    if err != None && err != EOF {
      FrameFailed(f.rules, v, n, hi - lo >= 2);
    }
  }

  /** What an error that came along with `n` bytes says of the fate before. */
  predicate Lost(f: Fate, n: nat, big: bool) {
    !f.Sure(big) && (n == 0 && big ==> !f.lucky)
  }

  function SourceFate(rest: bytes, end: Err): Fate {
    Fate(rest, end == EOF, false, end == EOF, false, false, true, true)
  }

  ghost function FrameFate(rules: Rules, v: View): Fate {
    var sound := rules.Tracks(v);
    Fate(rules.Rest(v), rules.MayEnd(v, Must), false, rules.MayEnd(v, May), rules.MayEnd(v, Fault), rules.Lucky(v),
         sound, sound && v.state == FdsEndOfStream)
  }

  lemma FrameFailed(rules: Rules, v: View, n: nat, big: bool)
    requires !rules.MayEnd(v, Must) && (n == 0 && big ==> !rules.Lucky(v))
    ensures Lost(FrameFate(rules, v), n, big)
  {
    hide Rules.MayEnd, Rules.Lucky;
  }

  lemma FrameHonours(rules: Rules, v: View, got: bytes, err: Err, w: View, big: bool)
    requires rules.Reads(v, got, err, w, big)
    ensures Honours(FrameFate(rules, v), got, err, FrameFate(rules, w), big)
    ensures err != None ==> w.state == FdsEndOfStream
  {
    LuckyRest(rules, w);
    hide Rules.MayEnd, Rules.Lucky, Rules.Tracks;
  }

  /** A body that comes in pairs has bytes. */
  lemma LuckyRest(rules: Rules, v: View)
    ensures rules.Lucky(v) ==> rules.Rest(v) != []
  {
    hide Rules.Slips, Rules.FooterOk;
  }

  lemma SourceHonours(rest: bytes, n: nat, err: Err, end: Err, big: bool)
    requires n <= |rest| && (err == None || (err == end && rest == []))
    ensures Honours(SourceFate(rest, end), rest[..n], err, SourceFate(rest[n..], end), big)
    ensures err != None && err != EOF ==> Lost(SourceFate(rest, end), n, big)
  {
  }

  lemma ReadyReadable(r: Reader)
    ensures r.Ready() ==> r.Readable()
    ensures r.Ready() && r.FromFrame? ==> r.f.r.Aliases() <= r.Repr()
  {
  }

  // ---- filtering ----

  /** The last byte is one that the filter skips. */
  predicate EndsSkipped(enc: Encoding, s: bytes) {
    s != [] && GetByteType(enc, s[|s| - 1]) == Skip
  }

  /** The fate of a reader behind the filter: its letters, up to the first bad byte. When the data ends
      with skip bytes an error that comes with them alone is dropped. */
  function Filter(enc: Encoding, f: Fate): Fate {
    var k, slips := FirstBad(enc, f.rest), EndsSkipped(enc, f.rest);
    Letters(f, Strip(enc, f.rest[..k]), k < |f.rest|, slips)
  }

  function Letters(f: Fate, letters: bytes, bad: bool, slips: bool): Fate {
    if bad then Fate(letters, false, false, false, false, false, f.sound, f.done)
    else Fate(letters, f.must || (f.lucky && slips), !f.must || f.pairs, f.may || (f.fault && slips),
              false, false, f.sound, f.done)
  }

  lemma LettersHonour(f: Fate, got: bytes, g: Fate, a: bytes, b: bytes, bad: bool, slips: bool, big: bool)
    requires Honours(f, got, None, g, big) && (g.rest == [] ==> !bad)
    ensures Honours(Letters(f, a + b, bad, slips), a, None, Letters(g, b, bad, slips && g.rest != []), big)
  {
  }

  /** Filtering distributes over a piece without bad bytes. */
  lemma FilterConcat(enc: Encoding, got: bytes, rest: bytes)
    requires FirstBad(enc, got) == |got|
    ensures FirstBad(enc, got + rest) == |got| + FirstBad(enc, rest)
    ensures Strip(enc, (got + rest)[..FirstBad(enc, got + rest)])
         == Strip(enc, got) + Strip(enc, rest[..FirstBad(enc, rest)])
    ensures Strip(enc, got + rest) == Strip(enc, got) + Strip(enc, rest)
  {
    hide Strip, FirstBad;
    FirstBadConcat(enc, got, rest);
    var k := FirstBad(enc, rest);
    assert (got + rest)[..|got| + k] == got + rest[..k];
    StripConcat(enc, got, rest[..k]);
    StripConcat(enc, got, rest);
  }

  /** From `f` to `g` nothing was delivered; an error may have been dropped. */
  predicate Skips(f: Fate, g: Fate, big: bool) {
    f.rest == g.rest && f.StaysSure(g, big) && (g.may ==> f.may) && (f.sound ==> g.sound)
  }

  lemma FilterNone(enc: Encoding, f: Fate, got: bytes, g: Fate, big: bool)
    requires Honours(f, got, None, g, big) && FirstBad(enc, got) == |got|
    ensures Honours(Filter(enc, f), Strip(enc, got), None, Filter(enc, g), big)
    ensures Strip(enc, got) == [] ==> Skips(Filter(enc, f), Filter(enc, g), big)
    ensures got != [] ==> |g.rest| < |f.rest|
  {
    hide Strip, FirstBad, EndsSkipped;
    FilterNothing(enc);
    LastOf(enc, got, g.rest);
    FilterConcat(enc, got, g.rest);
    LettersHonour(f, got, g, Strip(enc, got), Strip(enc, g.rest[..FirstBad(enc, g.rest)]),
                  FirstBad(enc, g.rest) < |g.rest|, EndsSkipped(enc, f.rest), big);
    HonoursSkips(Filter(enc, f), Strip(enc, got), Filter(enc, g), big);
  }

  lemma HonoursSkips(f: Fate, got: bytes, g: Fate, big: bool)
    requires Honours(f, got, None, g, big)
    ensures got == [] ==> Skips(f, g, big)
  {
  }

  lemma FilterEnd(enc: Encoding, f: Fate, g: Fate, big: bool)
    requires Honours(f, [], EOF, g, big)
    ensures Honours(Filter(enc, f), [], EOF, Filter(enc, g), big) && Strip(enc, []) == []
  {
    hide Strip, FirstBad;
    FilterNothing(enc);
  }

  /** An error is passed on with the letters that came along, and is dropped if only skip bytes did. */
  lemma FilterError(enc: Encoding, f: Fate, got: bytes, err: Err, g: Fate, big: bool)
    requires Honours(f, got, err, g, big) && FirstBad(enc, got) == |got| && err != None && err != EOF
    ensures Strip(enc, got) != [] ==> !Filter(enc, f).Sure(big)
    ensures Strip(enc, got) == [] && got != [] ==> Skips(Filter(enc, f), Filter(enc, g), big)
    ensures got != [] ==> |g.rest| < |f.rest|
  {
    hide Strip, FirstBad, EndsSkipped;
    FilterNothing(enc);
    LastOf(enc, got, []);
    assert got + [] == got && got[..|got|] == got;
    OneByte(enc, got);
  }

  /** Where a joined piece ends; a piece of skip bytes alone ends with one. */
  lemma LastOf(enc: Encoding, got: bytes, rest: bytes)
    requires FirstBad(enc, got) == |got|
    ensures EndsSkipped(enc, got + rest) == EndsSkipped(enc, if rest == [] then got else rest)
    ensures got != [] && Strip(enc, got) == [] ==> EndsSkipped(enc, got)
    ensures !EndsSkipped(enc, [])
  {
    if got != [] {
      FilterStep(enc, got, |got| - 1);
      assert got[..|got| - 1 + 1] == got;
    }
  }

  lemma OneByte(enc: Encoding, s: bytes)
    ensures |s| == 1 && EndsSkipped(enc, s) ==> Strip(enc, s) == []
  {
  }

  /** A bad byte, or an error that came with nothing, ends every hope of a clean end. */
  lemma FilterFails(enc: Encoding, f: Fate, got: bytes, err: Err, g: Fate, big: bool)
    requires got == [] ==> err != None && err != EOF && Lost(f, 0, big)
    requires got != [] ==> Honours(f, got, err, g, big) && FirstBad(enc, got) < |got|
    ensures !Filter(enc, f).Sure(big)
  {
    hide Strip, FirstBad;
    if got != [] {
      FirstBadConcat(enc, got, g.rest);
    }
  }

  lemma FilterNothing(enc: Encoding)
    ensures Strip(enc, []) == [] && FirstBad(enc, []) == 0
  {
  }

  class FilteringReader {
    const wrapped: Reader
    const enc: Encoding
    var nRead: nat

    constructor (wrapped: Reader, enc: Encoding)
      ensures this.wrapped == wrapped && this.enc == enc && nRead == 0
    {
      this.wrapped, this.enc, nRead := wrapped, enc, 0;
    }

    /** The filter's scan: keeps the letters of p[lo..lo + n] in place, closing the gaps; counts every
        valid byte; stops at a bad one. */
    method Compact(p: array<byte>, lo: nat, n: nat) returns (offset: nat, bad: bool)
      requires lo + n <= p.Length
      modifies this, p
      ensures offset <= n
      ensures forall i :: 0 <= i < p.Length && !(lo <= i < lo + n) ==> p[i] == old(p[i])
      ensures var k := FirstBad(enc, old(p[lo..lo + n]));
        bad == (k < n) && nRead == old(nRead) + k
      ensures !bad ==> p[lo..lo + offset] == Strip(enc, old(p[lo..lo + n]))
      ensures offset == 0 ==> unchanged(p)
    {
      hide Strip, FirstBad;
      ghost var s, kept := p[lo..lo + n], [];
      offset, bad := 0, false;
      var i := 0;
      FilterStart(enc, s);
      while i < n
        invariant offset <= i <= n && FirstBad(enc, s) >= i && nRead == old(nRead) + i
        invariant |kept| == offset && kept == Strip(enc, s[..i])
        invariant forall j :: 0 <= j < offset ==> p[lo + j] == kept[j]
        invariant forall j :: i <= j < n ==> p[lo + j] == s[j]
        invariant forall j :: 0 <= j < p.Length && !(lo <= j < lo + n) ==> p[j] == old(p[j])
        invariant !bad && (offset == 0 ==> unchanged(p))
      {
        var b := p[lo + i];
        FilterStep(enc, s, i);
        var typ := GetByteType(enc, b);
        if typ == Invalid {
          bad := true;
          return;
        }
        nRead := nRead + 1;
        if typ == Normal {
          if i != offset {
            p[lo + offset] := b;
          }
          kept := kept + [b];
          offset := offset + 1;
        }
        i := i + 1;
      }
      assert s[..n] == s && p[lo..lo + offset] == kept;
    }

    /** One turn of Read's loop: a read, and the scan of what it brought. When that holds no letter
        the array is untouched, so another read may follow even after an error. */
    method Pull(p: array<byte>, lo: nat, hi: nat) returns (n: nat, offset: nat, bad: bool, err: Err)
      requires wrapped.Readable() && lo <= hi <= p.Length && p !in wrapped.Repr() && this !in wrapped.Repr()
      modifies this, wrapped.Repr(), p
      ensures offset <= n <= hi - lo
      ensures forall i :: 0 <= i < p.Length && !(lo <= i < hi) ==> p[i] == old(p[i])
      ensures !bad && (err == None || err == EOF) ==>
        && wrapped.Ready() && wrapped.Readable()
        && Honours(Filter(enc, old(wrapped.Future())), p[lo..lo + offset], err, Filter(enc, wrapped.Future()), hi - lo >= 2)
      ensures !bad && n > 0 && offset == 0 ==>
        && wrapped.Readable()
        && |wrapped.Future().rest| < |old(wrapped.Future()).rest|
        && Skips(Filter(enc, old(wrapped.Future())), Filter(enc, wrapped.Future()), hi - lo >= 2)
      ensures err == None && lo < hi ==> n > 0
      ensures bad || (err != None && err != EOF && (n == 0 || offset > 0)) ==>
        !Filter(enc, old(wrapped.Future())).Sure(hi - lo >= 2)
    {
      hide Honours, Skips, Lost, Filter, FirstBad, Strip, Reader.Ready, Reader.Readable, Reader.Future, Fate.Sure;
      ghost var f := wrapped.Future();
      n, err := wrapped.Read(p, lo, hi);
      offset, bad := 0, false;
      assert wrapped.FromFrame? ==> this !in wrapped.f.r.Aliases();
      ReadyReadable(wrapped);
      if n > 0 {
        ghost var got, g := p[lo..lo + n], wrapped.Future();
        PulledSome(enc, f, got, err, g, hi - lo >= 2);
        offset, bad := Compact(p, lo, n);
        assert n > 0 && !bad ==> |Strip(enc, got)| == offset;
      } else if err == None || err == EOF {
        FilterStart(enc, []);
        FilterNothing(enc);
        assert p[lo..lo + n] == [];
        if err == None {
          FilterNone(enc, f, [], wrapped.Future(), hi - lo >= 2);
        } else {
          FilterEnd(enc, f, wrapped.Future(), hi - lo >= 2);
        }
      } else {
        FilterFails(enc, f, [], err, f, hi - lo >= 2);
      }
    }

    /** Read: the wrapped reader's letters, never an empty result unless the wrapped one is empty. A
        buffer of skip bytes alone is dropped together with the error that came along with it. */
    method Read(p: array<byte>, lo: nat, hi: nat) returns (n: nat, err: Err)
      requires wrapped.Ready() && lo <= hi <= p.Length && p !in wrapped.Repr() && this !in wrapped.Repr()
      modifies this, wrapped.Repr(), p
      ensures n <= hi - lo
      ensures forall i :: 0 <= i < p.Length && !(lo <= i < hi) ==> p[i] == old(p[i])
      ensures err == None || err == EOF ==>
        && wrapped.Ready()
        && Honours(Filter(enc, old(wrapped.Future())), p[lo..lo + n], err, Filter(enc, wrapped.Future()), hi - lo >= 2)
      ensures err == None && lo < hi ==> n > 0
      ensures err != None && err != EOF ==> !Filter(enc, old(wrapped.Future())).Sure(hi - lo >= 2)
    {
      hide Honours, Skips, Filter, Reader.Ready, Reader.Readable, Reader.Future, Fate.Sure;
      ReadyReadable(wrapped);
      ghost var f := Filter(enc, wrapped.Future());
      FilterPlain(enc);
      SkipsItself(f, hi - lo >= 2);
      while true
        invariant wrapped.Readable() && Skips(f, Filter(enc, wrapped.Future()), hi - lo >= 2)
        invariant forall i :: 0 <= i < p.Length && !(lo <= i < hi) ==> p[i] == old(p[i])
        decreases |wrapped.Future().rest|
      {
        ghost var g := Filter(enc, wrapped.Future());
        var got, offset, bad, e := Pull(p, lo, hi);
        ReadyReadable(wrapped);
        SkipsSure(f, g, hi - lo >= 2);
        if bad {
          return 0, Corrupt(nRead);
        }
        if got == 0 || offset > 0 {
          if e == None || e == EOF {
            SkipsThenHonours(f, g, p[lo..lo + offset], e, Filter(enc, wrapped.Future()), hi - lo >= 2);
          }
          return offset, e;
        }
        SkipsTwice(f, g, Filter(enc, wrapped.Future()), hi - lo >= 2);
      }
    }
  }

  lemma PulledSome(enc: Encoding, f: Fate, got: bytes, err: Err, g: Fate, big: bool)
    requires Honours(f, got, err, g, big) && got != []
    ensures FirstBad(enc, got) < |got| ==> !Filter(enc, f).Sure(big)
    ensures FirstBad(enc, got) == |got| ==>
      && (err == None || err == EOF ==> Honours(Filter(enc, f), Strip(enc, got), err, Filter(enc, g), big))
      && (err != None && err != EOF && Strip(enc, got) != [] ==> !Filter(enc, f).Sure(big))
      && (Strip(enc, got) == [] ==> Skips(Filter(enc, f), Filter(enc, g), big))
      && |g.rest| < |f.rest|
  {
    hide Honours, Skips, Filter, FirstBad, Strip, Fate.Sure;
    NotEOF(f, got, err, g, big);
    if FirstBad(enc, got) < |got| {
      FilterFails(enc, f, got, err, g, big);
    } else if err == None {
      FilterNone(enc, f, got, g, big);
    } else {
      FilterError(enc, f, got, err, g, big);
    }
  }

  lemma NotEOF(f: Fate, got: bytes, err: Err, g: Fate, big: bool)
    requires Honours(f, got, err, g, big) && got != []
    ensures err != EOF
  {
  }

  /** Nothing is left for a second filter to drop. */
  lemma FilterPlain(enc: Encoding)
    ensures forall f :: !Filter(enc, f).fault && !Filter(enc, f).lucky
  {
  }

  lemma SkipsItself(f: Fate, big: bool)
    ensures Skips(f, f, big)
  {
  }

  lemma SkipsSure(f: Fate, g: Fate, big: bool)
    requires Skips(f, g, big)
    ensures !g.Sure(big) ==> !f.Sure(big)
  {
  }

  lemma SkipsTwice(f: Fate, g: Fate, h: Fate, big: bool)
    requires Skips(f, g, big) && Skips(g, h, big)
    ensures Skips(f, h, big)
  {
  }

  lemma SkipsThenHonours(f: Fate, g: Fate, got: bytes, err: Err, h: Fate, big: bool)
    requires Skips(f, g, big) && !h.fault && !g.lucky && !f.lucky && Honours(g, got, err, h, big)
    requires err == None || err == EOF
    ensures Honours(f, got, err, h, big)
  {
  }

  lemma FilterStart(enc: Encoding, s: bytes)
    ensures Strip(enc, s[..0]) == []
  {
    assert s[..0] == [];
  }

  lemma FilterStep(enc: Encoding, s: bytes, i: nat)
    requires i < |s| && FirstBad(enc, s) >= i
    ensures FirstBad(enc, s) > i <==> GetByteType(enc, s[i]) != Invalid
    ensures GetByteType(enc, s[i]) == Normal ==> Strip(enc, s[..i + 1]) == Strip(enc, s[..i]) + [s[i]]
    ensures GetByteType(enc, s[i]) == Skip ==> Strip(enc, s[..i + 1]) == Strip(enc, s[..i])
  {
    assert s[..i + 1] == s[..i] + [s[i]];
    StripSnoc(enc, s[..i], s[i]);
  }
}
