/** Opening armor (armor.go, armorOpen), and the armor round trip. */
module ArmorOpen {
  import opened Bytes
  import opened BasexEncoding
  import opened BasexCodec
  import opened Punctuated
  import opened Frame
  import opened Framed
  import opened Readers
  import opened BasexDecoder
  import opened IO
  import Armor

  datatype Opened = Opened(body: bytes, brand: bytes, header: bytes, footer: bytes)

  /** The segments of an armored text and what follows them. */
  function HeaderOf(text: bytes, p: byte): bytes {
    First(text, p)
  }

  function BodyOf(text: bytes, p: byte): bytes {
    First(After(text, p), p)
  }

  function FooterOf(text: bytes, p: byte): bytes {
    First(After(After(text, p), p), p)
  }

  function TrailerOf(text: bytes, p: byte): bytes {
    After(After(After(text, p), p), p)
  }

  /** `o` is what the segments of a text say. */
  ghost predicate Says(rules: Rules, text: bytes, o: Opened) {
    var p := rules.params.punctuation;
    && DecodeText(rules.params.encoding, BodyOf(text, p)) == Decoded(o.body, None)
    && rules.HeaderBrand(HeaderOf(text, p)) == Present(o.brand)
    && rules.ToASCII(HeaderOf(text, p)) == Present(o.header) && rules.ToASCII(FooterOf(text, p)) == Present(o.footer)
  }

  /** What an armored text should open to: what its first three segments say, if they are good. With
      `strict` the text must be good for every split of the source; without, it is good for some split, or
      would be but for one error that a skip byte at the end of the body lets pass. */
  ghost predicate OpensTo(rules: Rules, text: bytes, o: Opened, strict: bool) {
    && Says(rules, text, o)
    && if strict then rules.HeaderOk(text, EOF, Must)
       else rules.HeaderOk(text, EOF, May) || (Slippery(rules, text) && rules.HeaderOk(text, EOF, Fault))
  }

  /** The body ends with a byte that the filter drops. */
  predicate Slippery(rules: Rules, text: bytes) {
    EndsSkipped(rules.params.encoding, BodyOf(text, rules.params.punctuation))
  }

  /** What a text opens to when its source is read at a pace, with its trailer's fault let pass. */
  ghost predicate SlipsTo(rules: Rules, text: bytes, o: Opened, pace: Pace) {
    && Says(rules, text, o) && Slippery(rules, text)
    && Calm(pace, text, rules.params.punctuation) && rules.HeaderOk(text, EOF, Slip(pace))
  }

  /** newArmorDecoderStream and ReadAll: the decoded body, and the frame reader behind it. */
  method ReadBody(text: bytes, rules: Rules, pace: Option<Pace>, big: bool)
    returns (f: FramedDecoderStream, body: bytes, err: Err)
    ensures f.rules == rules && fresh(f) && fresh(f.r) && fresh(f.r.r) && fresh(f.r.buf)
    ensures var fate, enc := TextFate(rules, text, pace), rules.params.encoding;
      var d, slips := DecodeText(enc, fate.rest), EndsSkipped(enc, fate.rest);
      if err == None then
        && (fate.may || (slips && fate.fault)) && d == Decoded(body, None)
        && f.Valid() && f.Settled() && FrameFate(rules, f.Now()).done && f.text == text
      else d.err != None || (!fate.must && !(big && slips && fate.lucky))
  {
    hide Decoder.Valid, DecodeText, DecodeOutlook, NoSkip, Behind, FrameFate, FramedDecoderStream.Valid;
    hide PunctuatedReader.Valid, Upstream.Ready, Upstream.Future, Reader.Ready, Reader.Readable, Reader.Future;
    var enc := rules.params.encoding;
    f := NewFrameReader(text, rules, pace);
    var r := FromFrame(f);
    ghost var u := r.Future();
    OutlookOfText(enc, u);
    var d := NewDecoder(enc, r);
    ghost var o := d.Future();
    assert o == DecodeOutlook(enc, [], [], Behind(enc, u));
    body, err := ReadAll(d, big);
    if err == None {
      FrameBehind(d.r, f);
      DecodedWhole(enc, u.rest, body);
    }
  }

  /** newFramedDecoderStream over a source that holds the text. */
  method NewFrameReader(text: bytes, rules: Rules, pace: Option<Pace>) returns (f: FramedDecoderStream)
    ensures f.rules == rules && f.text == text && fresh(f) && fresh(f.r) && fresh(f.r.r) && fresh(f.r.buf)
    ensures FromFrame(f).Ready() && FromFrame(f).Readable() && FromFrame(f).Future() == TextFate(rules, text, pace)
    ensures TextFate(rules, text, pace).sound && !TextFate(rules, text, pace).pairs
  {
    hide FrameFate;
    var s := new Source(text, EOF, pace);
    var pr := new PunctuatedReader(s, rules.params.punctuation);
    f := new FramedDecoderStream(pr, rules);
    ReadyReadable(FromFrame(f));
    TextSound(rules, text, pace);
  }

  lemma TextSound(rules: Rules, text: bytes, pace: Option<Pace>)
    ensures TextFate(rules, text, pace).sound && !TextFate(rules, text, pace).pairs
  {
  }

  lemma DecodedWhole(enc: Encoding, s: bytes, body: bytes)
    requires DecodeText(enc, s).err == None && body == DecodeText(enc, s).data
    ensures DecodeText(enc, s) == Decoded(body, None)
  {
  }

  /** What a decoder's upstream knows of the frame it reads from. */
  lemma FrameBehind(up: Upstream, f: FramedDecoderStream)
    requires up.Ready() && (up == Direct(FromFrame(f)) || (up.Filtered? && up.f.wrapped == FromFrame(f)))
    ensures f.Valid() && f.Settled() && FrameFate(f.rules, f.Now()).done == up.Future().done
  {
    hide FrameFate, FirstBad, Strip;
  }

  ghost function TextFate(rules: Rules, text: bytes, pace: Option<Pace>): Fate {
    FrameFate(rules, View(text, FdsHeader, [], [], [], text, EOF, BeatOf(pace, text, rules.params.punctuation)))
  }

  /** armorOpen, for every way in which the source splits the text and ReadAll sizes its reads. */
  method Open(text: bytes, rules: Rules) returns (o: Option<Opened>)
    ensures o.Present? ==> OpensTo(rules, text, o.value, false)
    ensures o.Absent? ==> forall x :: !OpensTo(rules, text, x, true)
  {
    hide OpensTo;
    o := OpenAt(text, rules, Absent, false);
  }

  /** The same with a source that has its pace, if one is given. With reads that are big enough, the
      pace decides whether a fault is let pass. */
  method OpenAt(text: bytes, rules: Rules, pace: Option<Pace>, big: bool) returns (o: Option<Opened>)
    ensures o.Present? ==> OpensTo(rules, text, o.value, false)
    ensures o.Absent? ==> forall x :: !OpensTo(rules, text, x, true)
    ensures o.Absent? && pace.Present? && big ==> forall x :: !SlipsTo(rules, text, x, pace.value)
  {
    hide DecodeText, FrameFate, TextFate, Calm, EndsSkipped, Rules.HeaderBrand, Rules.ToASCII;
    hide OpensTo, SlipsTo, Says, HeaderOf, FooterOf;
    var f, body, err := ReadBody(text, rules, pace, big);
    if err != None {
      NotRead(rules, text, pace, big);
      return Absent;
    }
    FinalView(rules, f.Now());
    var header := f.GetHeader();
    var footer := f.GetFooter();
    if header.Absent? || footer.Absent? {
      NotASCII(rules, text);
      return Absent;
    }
    AllRead(rules, text, pace, Opened(body, f.frameBrand, header.value, footer.value));
    return Present(Opened(body, f.frameBrand, header.value, footer.value));
  }

  lemma OpenedOrNot(rules: Rules, text: bytes, pace: Option<Pace>)
    ensures var u, p := TextFate(rules, text, pace), rules.params.punctuation;
      && u.rest == BodyOf(text, p) && u.sound
      && u.must == rules.HeaderOk(text, EOF, Must) && u.may == rules.HeaderOk(text, EOF, May)
      && u.fault == rules.HeaderOk(text, EOF, Fault)
      && (pace.Present? && Calm(pace.value, text, p) ==> u.lucky == rules.HeaderOk(text, EOF, Slip(pace.value)))
  {
    hide Rules.HeaderOk;
  }

  lemma NotRead(rules: Rules, text: bytes, pace: Option<Pace>, big: bool)
    requires var u := TextFate(rules, text, pace);
      || DecodeText(rules.params.encoding, u.rest).err != None
      || (!u.must && !(big && EndsSkipped(rules.params.encoding, u.rest) && u.lucky))
    ensures forall x :: !OpensTo(rules, text, x, true)
    ensures pace.Present? && big ==> forall x :: !SlipsTo(rules, text, x, pace.value)
  {
    hide Rules.HeaderOk, DecodeText, EndsSkipped, Calm, TextFate, Rules.HeaderBrand, Rules.ToASCII, BodyOf;
    OpenedOrNot(rules, text, pace);
  }

  lemma NotASCII(rules: Rules, text: bytes)
    requires var p := rules.params.punctuation;
      rules.ToASCII(HeaderOf(text, p)).Absent? || rules.ToASCII(FooterOf(text, p)).Absent?
    ensures forall x :: !Says(rules, text, x) && !OpensTo(rules, text, x, true)
    ensures forall x, pace :: !SlipsTo(rules, text, x, pace)
  {
    hide Rules.HeaderOk, DecodeText, Slippery, Calm, Rules.ToASCII, BodyOf, HeaderOf, FooterOf;
  }

  lemma AllRead(rules: Rules, text: bytes, pace: Option<Pace>, o: Opened)
    requires var u, enc, p := TextFate(rules, text, pace), rules.params.encoding, rules.params.punctuation;
      && (u.may || (EndsSkipped(enc, u.rest) && u.fault))
      && DecodeText(enc, u.rest) == Decoded(o.body, None)
      && rules.HeaderBrand(HeaderOf(text, p)) == Present(o.brand)
      && rules.ToASCII(HeaderOf(text, p)) == Present(o.header) && rules.ToASCII(FooterOf(text, p)) == Present(o.footer)
    ensures OpensTo(rules, text, o, false)
  {
    hide Rules.HeaderOk, DecodeText, EndsSkipped, Calm, TextFate, Rules.HeaderBrand, Rules.ToASCII, BodyOf;
    OpenedOrNot(rules, text, pace);
  }

  lemma FinalView(rules: Rules, v: View)
    requires FrameFate(rules, v).done
    ensures var p := rules.params.punctuation;
      && v.state == FdsEndOfStream && v.header == HeaderOf(v.text, p) && rules.HeaderBrand(v.header) == Present(v.brand)
      && v.footer == FooterOf(v.text, p)
  {
  }
}
