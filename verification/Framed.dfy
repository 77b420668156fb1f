/** The header, body and footer state machine around an armored body (armor.go,
    type framedDecoderStream). */
module Framed {
  import opened Bytes
  import opened IO
  import opened Punctuated
  import opened BasexEncoding
  import opened Frame

  datatype ArmorParams = ArmorParams(bytesPerWord: nat, wordsPerLine: nat, punctuation: byte, encoding: Encoding)

  type HeaderChecker = bytes -> Option<bytes>
  type FrameChecker = (bytes, bytes) -> Option<bytes>

  datatype State = FdsHeader | FdsBody | FdsFooter | FdsEndOfStream

  const FRAME_LIM := 8192

  /** How an input may lead to a clean end of stream: for every split of the source; for some split; for
      some split if the one error that comes along with the last bytes of the body is dropped; or, with
      that error dropped, for the split that a pace makes, if every read has room for two bytes. */
  datatype Mode = Must | May | Fault | Slip(pace: Pace)

  // ---- what a framed text is ----

  /** What the armor is checked against: the alphabet and skip bytes, the punctuation, and the
      checkers, either of which may be missing. */
  datatype Rules = Rules(params: ArmorParams, headerChecker: Option<HeaderChecker>, frameChecker: Option<FrameChecker>) {

    predicate AllValid(s: bytes) {
      forall i :: 0 <= i < |s| ==> IsValidByte(params.encoding, s[i])
    }

    function ToASCII(s: bytes): Option<bytes> {
      if AllValid(s) then Present(TrimSpace(s)) else Absent
    }

    /** The brand that the header checker finds; Absent when it rejects the header. */
    function HeaderBrand(header: bytes): Option<bytes> {
      if headerChecker.Absent? then Present([])
      else if ToASCII(header).Absent? then Absent
      else headerChecker.value(ToASCII(header).value)
    }

    predicate FrameAccepted(header: bytes, footer: bytes) {
      frameChecker.Present? ==>
        && ToASCII(header).Present? && ToASCII(footer).Present?
        && frameChecker.value(ToASCII(header).value, ToASCII(footer).value).Present?
    }

    /** Only skipped bytes and letters follow the footer. */
    predicate TrailerOk(t: bytes, end: Err) {
      end == EOF && AllValid(t) && params.punctuation !in t
    }

    /** All that is wrong with a trailer is in t[i..j], or is the punctuation that follows it. */
    predicate FaultIn(t: bytes, i: nat, j: nat, end: Err) {
      && i <= j <= |t| && j - i <= 4096 && AllValid(t[..i]) && params.punctuation !in t[..j]
      && (TrailerOk(t[j..], end) || (j < |t| && t[j] == params.punctuation && TrailerOk(t[j + 1..], end)))
    }

    /** All that is wrong with a trailer can be in one read of it. */
    ghost predicate OneFault(t: bytes, end: Err) {
      exists i, j :: FaultIn(t, i, j, end)
    }

    /** A pace puts all that is wrong with a trailer into one read of it. */
    predicate Slips(t: bytes, end: Err, pace: Pace)
      decreases |t|
    {
      && t != []
      && var k := Step(pace, |t|, 4096);
         if t[k - 1] == params.punctuation || !AllValid(t[..k]) then TrailerOk(t[k..], end) else Slips(t[k..], end, pace)
    }

    /** A pace delivers the bytes of a body one by one, but the last one together with the punctuation. */
    predicate Paired(t: bytes, pace: Pace)
      decreases |t|
    {
      && |t| > 1 && t[0] != params.punctuation
      && if t[1] == params.punctuation then AtMost(pace, |t|) == 2 else AtMost(pace, |t|) == 1 && Paired(t[1..], pace)
    }

    // Whether what is left of the input may lead to a clean end of stream.

    /** A frame shorter than the limit is found under every split, one beyond the limit by less than a
        read under some. */
    predicate Fits(frame: bytes, mode: Mode) {
      if mode.May? || mode.Fault? then |frame| <= MostFound(FRAME_LIM) else |frame| < FRAME_LIM
    }

    ghost predicate Trailer(t: bytes, end: Err, mode: Mode) {
      match mode
      case Must => TrailerOk(t, end)
      case May => TrailerOk(t, end)
      case Fault => OneFault(t, end)
      case Slip(pace) => Slips(t, end, pace)
    }

    ghost predicate FooterOk(header: bytes, t: bytes, end: Err, mode: Mode) {
      && HasNext(t, params.punctuation) && Fits(First(t, params.punctuation), mode)
      && FrameAccepted(header, First(t, params.punctuation))
      && Trailer(After(t, params.punctuation), end, mode)
    }

    ghost predicate BodyOk(header: bytes, t: bytes, end: Err, mode: Mode) {
      && HasNext(t, params.punctuation) && (mode.Slip? ==> Paired(t, mode.pace))
      && FooterOk(header, After(t, params.punctuation), end, mode)
    }

    ghost predicate HeaderOk(t: bytes, end: Err, mode: Mode) {
      && HasNext(t, params.punctuation) && Fits(First(t, params.punctuation), mode)
      && HeaderBrand(First(t, params.punctuation)).Present?
      && BodyOk(First(t, params.punctuation), After(t, params.punctuation), end, mode)
    }

    /** The body bytes still to be delivered. */
    function Rest(v: View): bytes {
      match v.state
      case FdsHeader => First(After(v.pending, params.punctuation), params.punctuation)
      case FdsBody => First(v.pending, params.punctuation)
      case _ => []
    }

    ghost predicate MayEnd(v: View, mode: Mode) {
      match v.state
      case FdsHeader => HeaderOk(v.pending, v.end, mode)
      case FdsBody => BodyOk(v.header, v.pending, v.end, mode)
      case FdsFooter => FooterOk(v.header, v.pending, v.end, mode)
      case FdsEndOfStream => Trailer(v.pending, v.end, mode)
    }

    /** The split that is under way drops the trailer's fault. */
    ghost predicate Slipping(v: View) {
      v.pace.Present? && MayEnd(v, Slip(v.pace.value))
    }

    /** The same, with bytes of the body still to come. */
    ghost predicate Lucky(v: View) {
      (v.state == FdsHeader || v.state == FdsBody) && Slipping(v)
    }

    /** What has been read so far is what `text` says: its first segment is the header, with its brand,
        the second one ends where the rest does, and the third one is the footer. */
    predicate Tracks(v: View) {
      var p := params.punctuation;
      var body, foot := After(v.text, p), After(After(v.text, p), p);
      if v.state == FdsHeader then v.pending == v.text
      else
        && HasNext(v.text, p) && v.header == First(v.text, p) && HeaderBrand(v.header) == Present(v.brand)
        && (match v.state
            case FdsBody => HasNext(v.pending, p) == HasNext(body, p) && After(v.pending, p) == foot
            case FdsFooter => HasNext(body, p) && v.pending == foot
            case _ => HasNext(body, p) && HasNext(foot, p) && v.footer == First(foot, p)
                      && FrameAccepted(v.header, v.footer))
    }

    /** Going from `v` to `w` delivers `got` and neither spoils a good input nor repairs a bad one. `big`
        says that the read had room for two bytes. */
    ghost predicate Moves(v: View, got: bytes, w: View, big: bool) {
      && Rest(v) == got + Rest(w)
      && (MayEnd(v, Must) ==> MayEnd(w, Must)) && (MayEnd(w, May) ==> MayEnd(v, May))
      && (MayEnd(w, Fault) ==> MayEnd(v, Fault)) && (big && Slipping(v) ==> Slipping(w))
      && (Tracks(v) ==> Tracks(w))
    }

    /** No split of the input leads to a clean end, nor does the one that is under way. */
    ghost predicate Fails(v: View) {
      !MayEnd(v, Must) && !Slipping(v)
    }

    /** What one Read may do. An error can come along with the last bytes of a body; another read may
        follow it, and will then find no more than what is left of the trailer. */
    ghost predicate Reads(v: View, got: bytes, err: Err, w: View, big: bool) {
      match err
      case None =>
        && Rest(v) == got + Rest(w)
        && (MayEnd(v, Must) ==> MayEnd(w, Must)) && (MayEnd(w, May) ==> MayEnd(v, May))
        && (MayEnd(w, Fault) ==> MayEnd(v, Fault)) && (big && Lucky(v) ==> Lucky(w))
        && (Tracks(v) ==> Tracks(w))
      case EOF =>
        && got == [] && Rest(v) == [] && MayEnd(v, May)
        && w.state == FdsEndOfStream && MayEnd(w, Must) && (Tracks(v) ==> Tracks(w))
      case _ =>
        && !MayEnd(v, Must) && Rest(v) == got
        && w.state == FdsEndOfStream && (MayEnd(w, May) ==> MayEnd(v, Fault)) && (Tracks(v) ==> Tracks(w))
        && (big && Lucky(v) ==> |got| == 1 && MayEnd(w, Must))
    }
  }

  /** The whole text of the source, what has been read of it, the pending bytes, how the source ends, and
      its pace as long as it is one piece at a time. */
  datatype View = View(text: bytes, state: State, header: bytes, footer: bytes, brand: bytes, pending: bytes, end: Err,
                       ghost pace: Option<Pace>)

  class FramedDecoderStream {
    const rules: Rules
    const r: PunctuatedReader
    var header: bytes
    var footer: bytes
    var frameBrand: bytes
    var state: State
    ghost const text: bytes

    ghost predicate Valid()
      reads this, r, r.Aliases()
    {
      r.Valid() && r.punctuation == rules.params.punctuation
    }

    /** No pending byte lives in an array of the caller's. */
    ghost predicate Settled()
      reads r
    {
      r.Aliases() <= {r.buf}
    }

    ghost function Now(): View
      reads this, r, r.r, r.Aliases()
      requires Valid()
    {
      View(text, state, header, footer, frameBrand, r.Pending(), r.r.end, r.Beat())
    }

    constructor (r: PunctuatedReader, rules: Rules)
      requires r.Valid() && r.punctuation == rules.params.punctuation && r.Aliases() == {}
      ensures Valid() && Settled() && this.r == r && this.rules == rules
      ensures Now() == View(r.Pending(), FdsHeader, [], [], [], r.Pending(), r.r.end, r.Beat()) && rules.Tracks(Now())
    {
      text := r.Pending();
      this.rules, this.r, header, footer, frameBrand, state := rules, r, [], [], [], FdsHeader;
    }

    /** Reads and checks the header. */
    method LoadHeader() returns (err: Err)
      requires Valid() && Settled() && state == FdsHeader
      modifies this`header, this`frameBrand, this`state, r, r.r, r.buf
      ensures err != EOF
      ensures err != None ==> rules.Fails(old(Now())) && state == FdsHeader
      ensures err == None ==>
        Valid() && Settled() && state == FdsBody && rules.Moves(old(Now()), [], Now(), true)
    {
      hide Segmented, Rules.Fails, Rules.Moves, Rules.HeaderBrand, Rules.FrameAccepted, PunctuatedReader.Beat;
      ghost var v := Now();
      var h;
      h, err := r.ReadUntilPunctuation(FRAME_LIM);
      ghost var q, beat := r.Pending(), r.Beat();
      HeaderStage(rules, v, h, err, q, beat);
      if err != None {
        return;
      }
      var brand := rules.HeaderBrand(h);
      if brand.Absent? {
        return BadFrame;
      }
      header, frameBrand, state := h, brand.value, FdsBody;
      assert Now() == View(v.text, FdsBody, h, v.footer, brand.value, q, v.end, beat);
    }

    /** The body case of Read. At the closing punctuation the state moves on; the source's own end is
        then unexpected. */
    method ReadBody(out: array<byte>, lo: nat, hi: nat) returns (n: nat, err: Err)
      requires Valid() && Settled() && state == FdsBody
      requires lo <= hi <= out.Length && out != r.buf
      modifies this`state, r, r.r, out
      ensures n <= hi - lo
      ensures forall i :: 0 <= i < out.Length && !(lo <= i < hi) ==> out[i] == old(out[i])
      ensures err != EOF
      ensures err != None ==> rules.Fails(old(Now()))
      ensures err == None ==>
        && Valid() && (state == FdsBody || state == FdsFooter)
        && rules.Moves(old(Now()), out[lo..lo + n], Now(), hi - lo >= 2)
        && (state == FdsBody ==> Settled() && (lo < hi ==> n > 0))
        && (state == FdsFooter && hi - lo >= 2 && rules.Slipping(old(Now())) ==> n == 1)
    {
      hide Delivered, Rules.Fails, Rules.Moves, Rules.Slipping, PunctuatedReader.Valid, PunctuatedReader.Pending;
      hide PunctuatedReader.Beat, OnBeat;
      ghost var v := Now();
      SourceEnds(r);
      n, err := r.Read(out, lo, hi);
      SourceEnds(r);
      BodyStage(rules, v, out[lo..lo + n], err, r.Pending(), r.Beat(), hi - lo);
      assert this !in r.Aliases();
      if err == Punctuated {
        err, state := None, FdsFooter;
      } else if err == EOF {
        return 0, UnexpectedEOF;
      } else if err != None {
        return 0, err;
      }
    }

    /** Reads and checks the footer. */
    method LoadFooter() returns (err: Err)
      requires Valid() && state == FdsFooter
      modifies this`footer, this`state, r, r.r, r.buf
      ensures err != EOF
      ensures err != None ==> rules.Fails(old(Now()))
      ensures err == None ==>
        Valid() && state == FdsEndOfStream && rules.Moves(old(Now()), [], Now(), true)
    {
      hide Segmented, Rules.Fails, Rules.Moves, Rules.HeaderBrand, Rules.FrameAccepted, PunctuatedReader.Beat;
      hide PunctuatedReader.Pending;
      ghost var v := Now();
      var f;
      f, err := r.ReadUntilPunctuation(FRAME_LIM);
      ghost var q, beat := r.Pending(), r.Beat();
      FooterStage(rules, v, f, err, q, beat);
      if err != None {
        return;
      }
      if !rules.FrameAccepted(header, f) {
        return BadFrame;
      }
      assert this !in r.Aliases();
      footer, state := f, FdsEndOfStream;
      assert Now() == View(v.text, FdsEndOfStream, v.header, f, v.brand, q, v.end, beat);
    }

    /** The footer and end-of-stream cases of Read, after `n` bytes of the body. */
    method Finish(n: nat) returns (m: nat, err: Err)
      requires Valid() && (state == FdsFooter || state == FdsEndOfStream)
      modifies this`footer, this`state, r, r.r, r.buf
      ensures m == n || (m == 0 && err != None)
      ensures err == None ==> n > 0
      ensures err == EOF ==> n == 0
      ensures err == None || err == EOF ==>
        && Valid() && Settled() && state == FdsEndOfStream
        && rules.MayEnd(old(Now()), May) && rules.MayEnd(Now(), Must)
        && (rules.Tracks(old(Now())) ==> rules.Tracks(Now()))
      ensures err != None && err != EOF ==> !rules.MayEnd(old(Now()), Must)
      ensures m > 0 ==>
        && Valid() && state == FdsEndOfStream && (rules.Tracks(old(Now())) ==> rules.Tracks(Now()))
        && (err != None ==> rules.MayEnd(Now(), May) ==> rules.MayEnd(old(Now()), Fault))
      ensures rules.Slipping(old(Now())) && n > 0 ==>
        err != None && err != EOF && m == n && rules.MayEnd(Now(), Must)
    {
      hide Rules.MayEnd, Rules.Moves, Rules.TrailerOk, Rules.Tracks, Rules.Slips, Rules.OneFault, PunctuatedReader.Beat;
      ghost var v := Now();
      if state == FdsFooter {
        err := LoadFooter();
        FailsMeans(rules, v);
        if err != None {
          return 0, err;
        }
      }
      ghost var w := Now();
      err := ConsumeUntilEOF(r, rules);
      m := n;
      TrailerStage(rules, v, w, err, Now());
      if err == EOF && n > 0 {
        err := None;
      }
    }

    /** Read once the header is known. */
    method ReadOn(out: array<byte>, lo: nat, hi: nat) returns (n: nat, err: Err)
      requires Valid() && state != FdsHeader && (state == FdsBody ==> Settled())
      requires lo <= hi <= out.Length && out != r.buf
      modifies this, r, r.r, r.buf, out
      ensures n <= hi - lo
      ensures forall i :: 0 <= i < out.Length && !(lo <= i < hi) ==> out[i] == old(out[i])
      ensures err == None || err == EOF ==> Valid() && Settled()
      ensures err == None || err == EOF || n > 0 ==>
        Valid() && rules.Reads(old(Now()), out[lo..lo + n], err, Now(), hi - lo >= 2)
      ensures err == None && lo < hi ==> n > 0
      ensures err != None && err != EOF ==>
        !rules.MayEnd(old(Now()), Must) && (n == 0 && hi - lo >= 2 ==> !rules.Lucky(old(Now())))
    {
      hide Rules.MayEnd, Rules.Moves, Rules.Reads, Rules.Slipping, Rules.Fails, PunctuatedReader.Beat;
      hide PunctuatedReader.Pending, Rules.Tracks;
      ghost var v := Now();
      FailsMeans(rules, v);
      n, err := 0, None;
      if state == FdsBody {
        n, err := ReadBody(out, lo, hi);
        if err != None {
          return 0, err;
        }
      }
      ghost var got, x := out[lo..lo + n], Now();
      assert Valid() && n <= hi - lo;
      Moved(rules, v, got, x, hi - lo >= 2);
      if state == FdsFooter || state == FdsEndOfStream {
        n, err := Finish(n);
        if err == None || err == EOF || n > 0 {
          MovedToEnd(rules, v, got, x, err, Now(), hi - lo >= 2);
        }
      }
    }

    /** Read: bytes of the body only, then a clean end of stream if the frame is good. Before a
        successful Read returns, everything that aliases the caller's array has been drained. */
    method Read(out: array<byte>, lo: nat, hi: nat) returns (n: nat, err: Err)
      requires Valid() && (state == FdsHeader || state == FdsBody ==> Settled())
      requires lo <= hi <= out.Length && out != r.buf
      modifies this, r, r.r, r.buf, out
      ensures n <= hi - lo
      ensures forall i :: 0 <= i < out.Length && !(lo <= i < hi) ==> out[i] == old(out[i])
      ensures err == None || err == EOF ==> Valid() && Settled()
      ensures err == None || err == EOF || n > 0 ==>
        Valid() && rules.Reads(old(Now()), out[lo..lo + n], err, Now(), hi - lo >= 2)
      ensures err == None && lo < hi ==> n > 0
      ensures err != None && err != EOF ==>
        !rules.MayEnd(old(Now()), Must) && (n == 0 && hi - lo >= 2 ==> !rules.Lucky(old(Now())))
    {
      hide Rules.MayEnd, Rules.Moves, Rules.Reads, Rules.Slipping, Rules.Lucky, Rules.Fails, PunctuatedReader.Beat;
      ghost var v := Now();
      if state == FdsHeader {
        err := LoadHeader();
        FailsMeans(rules, v);
        if err != None {
          return 0, err;
        }
      }
      ghost var w := Now();
      n, err := ReadOn(out, lo, hi);
      if err == None || err == EOF || n > 0 {
        HeaderThenReads(rules, v, w, out[lo..lo + n], err, Now(), hi - lo >= 2);
      }
      HeaderThenFails(rules, v, w);
    }

    /** The header, trimmed; it is read first if it has not been. */
    method GetHeader() returns (r: Option<bytes>)
      requires Valid() && (state == FdsHeader ==> Settled())
      modifies this`header, this`frameBrand, this`state, this.r, this.r.r, this.r.buf
      ensures old(state) != FdsHeader ==> Valid() && Now() == old(Now()) && r == rules.ToASCII(header)
      ensures old(state) == FdsHeader ==>
        if state == FdsBody
        then Valid() && Settled() && rules.Moves(old(Now()), [], Now(), true) && r == rules.ToASCII(header)
        else r.Absent? && !rules.MayEnd(old(Now()), Must)
    {
      hide Rules.MayEnd, Rules.Moves, Rules.Slipping, Rules.Fails, PunctuatedReader.Beat;
      if state == FdsHeader {
        FailsMeans(rules, Now());
        var err := LoadHeader();
        if err != None {
          return Absent;
        }
      }
      r := rules.ToASCII(header);
    }

    /** The footer, trimmed, once it has been read: then it is the text's third segment. */
    method GetFooter() returns (r: Option<bytes>)
      requires Valid()
      ensures state == FdsHeader || state == FdsBody ==> r.Absent?
      ensures state == FdsEndOfStream && rules.Tracks(Now()) ==>
        var p := rules.params.punctuation; r == rules.ToASCII(First(After(After(text, p), p), p))
      ensures state == FdsFooter || state == FdsEndOfStream ==> r == rules.ToASCII(footer)
    {
      r := if state == FdsHeader || state == FdsBody then Absent else rules.ToASCII(footer);
    }
  }

  lemma SourceEnds(r: PunctuatedReader)
    requires r.Valid()
    ensures r.r.end == EOF || r.r.end.Failed?
    ensures r.thisSegment.Ok() && r.nextSegment.Ok()
    ensures r.Beat().Present? ==> r.Beat() == r.r.pace
  {
  }

  // ---- the stages, on views ----

  lemma FailsMeans(rules: Rules, v: View)
    ensures rules.Fails(v) ==> !rules.MayEnd(v, Must) && !rules.Slipping(v) && !rules.Lucky(v)
  {
  }

  lemma HeaderStage(rules: Rules, v: View, h: bytes, err: Err, q: bytes, beat: Option<Pace>)
    requires v.state == FdsHeader && (v.pace.Present? ==> beat == v.pace)
    requires Segmented(v.pending, h, err, q, rules.params.punctuation, FRAME_LIM, v.end)
    ensures err != EOF
    ensures err != None || rules.HeaderBrand(h).Absent? ==> rules.Fails(v)
    ensures err == None && rules.HeaderBrand(h).Present? ==>
      rules.Moves(v, [], View(v.text, FdsBody, h, v.footer, rules.HeaderBrand(h).value, q, v.end, beat), true)
  {
    hide Rules.BodyOk, First, After, HasNext, Rules.HeaderBrand, Rules.FrameAccepted;
    EmptyFirst(First(q, rules.params.punctuation));
  }

  lemma BodyStage(rules: Rules, v: View, got: bytes, err: Err, q: bytes, beat: Option<Pace>, size: nat)
    requires v.state == FdsBody && (v.end == EOF || v.end.Failed?)
    requires Delivered(v.pending, got, err, q, rules.params.punctuation, v.end)
    requires v.pace.Present? ==>
      beat == v.pace && OnBeat(v.pace.value, v.pending, size, got, err, rules.params.punctuation)
    ensures err == None ==> rules.Moves(v, got, v.(pending := q, pace := beat), size >= 2)
    ensures err == Punctuated ==>
      && rules.Moves(v, got, v.(state := FdsFooter, pending := q, pace := beat), size >= 2)
      && (size >= 2 && rules.Slipping(v) ==> |got| == 1)
    ensures err != None && err != Punctuated ==> err == v.end && rules.Fails(v)
  {
    hide Rules.FooterOk, OnBeat, Rules.Paired, First, After, HasNext, Delivered, Rules.HeaderBrand, Rules.FrameAccepted;
    BodyStep(v.pending, got, err, q, rules.params.punctuation, v.end);
    if size >= 2 && rules.Slipping(v) {
      PairedStep(rules, v.pending, v.pace.value, size, got, err, q, v.end);
    }
  }

  /** A body whose bytes come one by one, but for the last. */
  lemma PairedStep(rules: Rules, t: bytes, pace: Pace, size: nat, got: bytes, err: Err, q: bytes, end: Err)
    requires rules.Paired(t, pace) && size >= 2 && OnBeat(pace, t, size, got, err, rules.params.punctuation)
    requires Delivered(t, got, err, q, rules.params.punctuation, end)
    ensures |got| == 1 && (err == None || err == Punctuated)
    ensures err == None ==> rules.Paired(q, pace)
  {
    assert t[..1] == [t[0]] && t[1..][0] == t[1];
    if err == None {
      assert q == t[1..];
    }
  }

  lemma FooterStage(rules: Rules, v: View, f: bytes, err: Err, q: bytes, beat: Option<Pace>)
    requires v.state == FdsFooter && (v.pace.Present? ==> beat == v.pace)
    requires Segmented(v.pending, f, err, q, rules.params.punctuation, FRAME_LIM, v.end)
    ensures err != EOF
    ensures err != None || !rules.FrameAccepted(v.header, f) ==> rules.Fails(v)
    ensures err == None && rules.FrameAccepted(v.header, f) ==>
      rules.Moves(v, [], View(v.text, FdsEndOfStream, v.header, f, v.brand, q, v.end, beat), true)
  {
    hide Rules.Trailer, First, After, HasNext, Rules.HeaderBrand, Rules.FrameAccepted;
  }

  lemma TrailerStage(rules: Rules, v: View, w: View, err: Err, x: View)
    requires v == w || rules.Moves(v, [], w, true)
    requires w.state == FdsEndOfStream && x == w.(pending := x.pending, pace := x.pace)
    requires err == EOF <==> rules.TrailerOk(w.pending, w.end)
    requires err == EOF ==> x.pending == []
    requires err != EOF && rules.TrailerOk(x.pending, w.end) ==> rules.OneFault(w.pending, w.end)
    requires w.pace.Present? && rules.Slips(w.pending, w.end, w.pace.value) ==> err != EOF && rules.TrailerOk(x.pending, w.end)
    ensures err != EOF ==> !rules.MayEnd(v, Must) && (rules.MayEnd(x, May) ==> rules.MayEnd(v, Fault))
    ensures err == EOF ==> rules.MayEnd(v, May) && rules.MayEnd(x, Must)
    ensures rules.Tracks(v) ==> rules.Tracks(x)
    ensures rules.Slipping(v) ==> err != EOF && rules.MayEnd(x, Must)
  {
    hide Rules.OneFault, Rules.Slips;
  }

  lemma Moved(rules: Rules, v: View, got: bytes, x: View, big: bool)
    requires (v == x && got == []) || rules.Moves(v, got, x, big)
    ensures rules.Moves(v, got, x, big) && (x.state == FdsBody ==> rules.Reads(v, got, None, x, big))
    ensures (rules.MayEnd(v, Must) ==> rules.MayEnd(x, Must)) && (big && rules.Slipping(v) ==> rules.Slipping(x))
  {
    hide Rules.MayEnd, Rules.Tracks, Rules.Rest;
  }

  lemma MovedToEnd(rules: Rules, v: View, got: bytes, x: View, err: Err, y: View, big: bool)
    requires rules.Moves(v, got, x, big) && (x.state == FdsFooter || x.state == FdsEndOfStream)
    requires y.state == FdsEndOfStream && (rules.Tracks(x) ==> rules.Tracks(y))
    requires if err == None || err == EOF then rules.MayEnd(x, May) && rules.MayEnd(y, Must)
             else !rules.MayEnd(x, Must) && (rules.MayEnd(y, May) ==> rules.MayEnd(x, Fault))
    requires rules.Slipping(x) && got != [] ==> err != None && err != EOF && rules.MayEnd(y, Must)
    requires big && rules.Lucky(v) ==> |got| == 1
    ensures err != EOF || got == [] ==> rules.Reads(v, got, err, y, big)
  {
    hide Rules.OneFault, Rules.Slips, Rules.TrailerOk;
    MayIsFault(rules, x);
  }

  /** A good trailer has no more than one fault. */
  lemma MayIsFault(rules: Rules, v: View)
    ensures rules.MayEnd(v, May) ==> rules.MayEnd(v, Fault)
  {
    var p := rules.params.punctuation;
    var foot := if v.state == FdsHeader then After(After(v.pending, p), p) else After(v.pending, p);
    var t := match v.state
      case FdsHeader => After(foot, p)
      case FdsBody => After(foot, p)
      case FdsFooter => foot
      case FdsEndOfStream => v.pending;
    assert t[..0] == [] && t[0..] == t;
    assert rules.TrailerOk(t, v.end) ==> rules.FaultIn(t, 0, 0, v.end);
  }

  lemma HeaderThenReads(rules: Rules, v: View, w: View, got: bytes, err: Err, x: View, big: bool)
    requires v == w || (rules.Moves(v, [], w, true) && w.state == FdsBody)
    requires rules.Reads(w, got, err, x, big)
    ensures rules.Reads(v, got, err, x, big)
  {
    hide Rules.MayEnd, Rules.Tracks, Rules.Rest;
    EmptyFirst(rules.Rest(w));
  }

  lemma HeaderThenFails(rules: Rules, v: View, w: View)
    requires v == w || (rules.Moves(v, [], w, true) && w.state == FdsBody)
    ensures !rules.MayEnd(w, Must) ==> !rules.MayEnd(v, Must)
    ensures rules.Lucky(v) ==> rules.Lucky(w)
  {
  }

  /** One read of the body, in terms of the segment it belongs to. */
  lemma BodyStep(p: bytes, got: bytes, err: Err, q: bytes, punctuation: byte, end: Err)
    requires Delivered(p, got, err, q, punctuation, end)
    ensures err == None ==>
      && First(p, punctuation) == got + First(q, punctuation)
      && HasNext(p, punctuation) == HasNext(q, punctuation) && After(p, punctuation) == After(q, punctuation)
    ensures err == Punctuated ==>
      First(p, punctuation) == got && HasNext(p, punctuation) && After(p, punctuation) == q
    ensures err != None && err != Punctuated ==> err == end && p == [] && !HasNext(p, punctuation)
  {
    if err == None {
      var i := IndexOf(q, punctuation);
      assert p[..|got| + i] == got + q[..i];
      IndexOfUnique(p, punctuation, |got| + i);
    } else if err == Punctuated {
      assert p[..|got|] == got;
      IndexOfUnique(p, punctuation, |got|);
    }
  }

  /** Of the trailer `p`, `i` bytes have been read and found good, and `q` is left. */
  ghost predicate Consumed(rules: Rules, p: bytes, i: nat, q: bytes) {
    i <= |p| && q == p[i..] && rules.AllValid(p[..i]) && rules.params.punctuation !in p[..i]
  }

  /** One read past the footer: what it says about the trailer. */
  lemma TrailerStep(rules: Rules, p: bytes, i: nat, before: bytes, got: bytes, err: Err, q: bytes, end: Err)
    requires Consumed(rules, p, i, before) && |got| <= 4096
    requires Delivered(before, got, err, q, rules.params.punctuation, end) && (end == EOF || end.Failed?)
    ensures err == None && rules.AllValid(got) ==> Consumed(rules, p, i + |got|, q)
    ensures err == None && !rules.AllValid(got) ==> !rules.TrailerOk(p, end)
    ensures err == Punctuated ==> !rules.TrailerOk(p, end)
    ensures err == EOF <==> err != None && rules.TrailerOk(p, end)
    ensures err == EOF ==> q == []
    ensures err != None && err != Punctuated && err != EOF ==> !rules.TrailerOk(q, end)
    ensures err == Punctuated || (err == None && !rules.AllValid(got)) ==>
      rules.TrailerOk(q, end) ==> rules.OneFault(p, end)
  {
    var punct, j := rules.params.punctuation, i + |got|;
    assert p == p[..i] + p[i..];
    if err == None || err == Punctuated {
      assert p[i..][..|got|] == got && p[..j] == p[..i] + got;
      assert forall l :: 0 <= l < |got| ==> p[i + l] == got[l];
      if err == Punctuated {
        assert p[j] == punct && p[j + 1..] == q;
      } else {
        assert p[j..] == q;
      }
      assert rules.TrailerOk(q, end) ==> rules.FaultIn(p, i, j, end);
    } else {
      assert p == p[..i];
    }
  }

  /** The same for a paced trailer whose fault is put into one read. */
  lemma SlipStep(rules: Rules, t: bytes, pace: Pace, got: bytes, err: Err, q: bytes, end: Err)
    requires rules.Slips(t, end, pace) && OnBeat(pace, t, 4096, got, err, rules.params.punctuation)
    requires Delivered(t, got, err, q, rules.params.punctuation, end)
    ensures err == None || err == Punctuated
    ensures err == None && rules.AllValid(got) ==> rules.Slips(q, end, pace)
    ensures err == Punctuated || !rules.AllValid(got) ==> rules.TrailerOk(q, end)
  {
    var k := Step(pace, |t|, 4096);
    if t[k - 1] == rules.params.punctuation {
      assert t == t[..k - 1] + [t[k - 1]] + t[k..];
      assert q == t[k..];
    } else {
      assert q == t[k..] && rules.params.punctuation !in got && t[..k][k - 1] == t[k - 1];
    }
  }

  /** consumeUntilEOF: reads to the end of the source. It ends cleanly exactly if what follows the footer
      is valid; after an error, what is left is valid only if that error was the trailer's one fault. (A
      read into the whole buffer brings something or an error, so the source's check for nothing never
      applies.) */
  method ConsumeUntilEOF(r: PunctuatedReader, rules: Rules) returns (err: Err)
    requires r.Valid() && r.punctuation == rules.params.punctuation
    modifies r, r.r
    ensures r.Valid() && err != None
    ensures err == EOF <==> rules.TrailerOk(old(r.Pending()), r.r.end)
    ensures err == EOF ==> r.Pending() == [] && r.Aliases() == {}
    ensures err != EOF && rules.TrailerOk(r.Pending(), r.r.end) ==> rules.OneFault(old(r.Pending()), r.r.end)
    ensures old(r.Beat()).Present? && rules.Slips(old(r.Pending()), r.r.end, old(r.Beat()).value) ==>
      err != EOF && rules.TrailerOk(r.Pending(), r.r.end)
  {
    hide Delivered, OnBeat, Rules.TrailerOk, Rules.AllValid, Rules.Slips, Rules.OneFault, Consumed;
    hide PunctuatedReader.Beat, PunctuatedReader.Pending;
    ghost var p, i, beat := r.Pending(), 0, r.Beat();
    ghost var slips := beat.Present? && rules.Slips(p, r.r.end, beat.value);
    SourceEnds(r);
    var buf := new byte[4096];
    TrailerStart(rules, p);
    while true
      invariant r.Valid() && fresh(buf) && buf != r.buf && buf !in r.Aliases()
      invariant Consumed(rules, p, i, r.Pending())
      invariant slips ==> r.Beat() == beat && rules.Slips(r.Pending(), r.r.end, beat.value)
      decreases |r.Pending()|
    {
      ghost var before := r.Pending();
      var n, e := r.Read(buf, 0, buf.Length);
      ghost var got := buf[0..n];
      TrailerStep(rules, p, i, before, got, e, r.Pending(), r.r.end);
      if slips {
        SlipStep(rules, before, beat.value, got, e, r.Pending(), r.r.end);
      }
      if e != None {
        if e == EOF {
          NothingPending(r);
        }
        return e;
      }
      if !rules.AllValid(buf[0..n]) {
        return TrailingGarbage;
      }
      StillPending(before, got, r.Pending(), r.punctuation, r.r.end);
      i := i + n;
    }
  }

  lemma TrailerStart(rules: Rules, p: bytes)
    ensures Consumed(rules, p, 0, p)
  {
    assert p[..0] == [] && p[0..] == p;
  }

  lemma NothingPending(r: PunctuatedReader)
    requires r.Valid() && r.Pending() == []
    ensures r.Aliases() == {}
  {
  }

  lemma StillPending(p: bytes, got: bytes, q: bytes, punctuation: byte, end: Err)
    requires Delivered(p, got, None, q, punctuation, end)
    ensures |p| == |got| + |q|
  {
  }
}
