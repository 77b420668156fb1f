/** What follows an armored message (armor.go, consumeUntilEOF; encoding/basex/stream.go, filteringReader):
    when bytes that do not belong there are reported, and when they are not. */
module TrailingGarbage {
  import opened Bytes
  import opened IO
  import opened Radix
  import opened BasexLengths
  import opened BasexEncoding
  import opened BasexCodec
  import opened Punctuated
  import opened Frame
  import opened Framed
  import opened Readers
  import opened ArmorOpen
  import opened Armor62
  import Armor

  // ---- when garbage is reported ----

  /** A text that opens under any split has nothing wrong behind its footer, or its body ends with a skip
      byte and all that is wrong fits into one read. */
  lemma OpensWithGarbage(rules: Rules, text: bytes, o: Opened)
    requires OpensTo(rules, text, o, false)
    ensures var t := TrailerOf(text, rules.params.punctuation);
      rules.TrailerOk(t, EOF) || (Slippery(rules, text) && rules.OneFault(t, EOF))
  {
    hide Rules.TrailerOk, Rules.OneFault, Says, First, After, HasNext, Rules.HeaderBrand, Rules.FrameAccepted, EndsSkipped;
  }

  /** If the body is empty or ends with a letter, garbage is reported for every split. */
  method OpenUnlessGarbage(text: bytes, rules: Rules) returns (o: Option<Opened>)
    requires !Slippery(rules, text) && !rules.TrailerOk(TrailerOf(text, rules.params.punctuation), EOF)
    ensures o.Absent?
  {
    hide OpensTo, Slippery, TrailerOf, Rules.TrailerOk;
    o := Open(text, rules);
    if o.Present? {
      OpensWithGarbage(rules, text, o.value);
    }
  }

  // ---- when it is not ----

  /** All that is wrong with a trailer is in the `k` bytes after the first `i`, at most one read; nothing
      before the last of them is punctuation. */
  predicate FaultAt(rules: Rules, t: bytes, i: nat, k: nat) {
    && 1 <= k <= 4096 && i + k <= |t|
    && rules.AllValid(t[..i]) && rules.params.punctuation !in t[..i + k - 1]
    && (t[i + k - 1] == rules.params.punctuation || !rules.AllValid(t[i..i + k]))
    && rules.TrailerOk(t[i + k..], EOF)
  }

  /** The pace that delivers one byte at a time, but two when `a` bytes are left, and `k` when `c` are. */
  function PaceOf(a: nat, c: nat, k: nat): Pace {
    (left: nat) => if left == a then 2 else if left == c then k else 1
  }

  /** A piece of a paced text ends where the punctuation is. */
  lemma {:induction false} CalmAlong(s: bytes, a: nat, c: nat, k: nat, p: byte)
    requires a >= 2 && 1 <= k <= c < a
    requires |s| >= a ==> s[|s| - a] != p
    requires |s| >= c ==> p !in s[|s| - c..|s| - c + k - 1]
    ensures Calm(PaceOf(a, c, k), s, p)
  {
    if s != [] {
      var n := Step(PaceOf(a, c, k), |s|, |s|);
      if |s| == a {
        assert s[..n][..n - 1] == [s[0]];
      } else if |s| == c {
        assert s[..n][..n - 1] == s[|s| - c..|s| - c + k - 1];
      } else {
        assert s[..n][..n - 1] == [];
      }
      if |s| > c {
        assert s[1..][|s| - 1 - c..|s| - 1 - c + k - 1] == s[|s| - c..|s| - c + k - 1];
      }
      CalmAlong(s[1..], a, c, k, p);
    }
  }

  /** The body's last byte comes together with the punctuation. */
  lemma {:induction false} PairedAlong(rules: Rules, s: bytes, c: nat, k: nat)
    requires var p := rules.params.punctuation; HasNext(s, p) && First(s, p) != [] && c < |After(s, p)| + 2
    ensures var p := rules.params.punctuation; rules.Paired(s, PaceOf(|After(s, p)| + 2, c, k))
    decreases |s|
  {
    var p := rules.params.punctuation;
    var m := IndexOf(s, p);
    assert |s| == m + 1 + |After(s, p)|;
    if s[1] != p {
      IndexOfUnique(s[1..], p, m - 1);
      assert After(s[1..], p) == After(s, p);
      PairedAlong(rules, s[1..], c, k);
    } else {
      IndexOfUnique(s, p, 1);
    }
  }

  /** The trailer's fault comes in one piece. */
  lemma {:induction false} SlipsAlong(rules: Rules, t: bytes, i: nat, k: nat, a: nat)
    requires FaultAt(rules, t, i, k) && a > |t|
    ensures rules.Slips(t, EOF, PaceOf(a, |t| - i, k))
    decreases i
  {
    hide FaultAt, Rules.TrailerOk, Rules.AllValid;
    FaultStep(rules, t, i, k);
    if i > 0 {
      SlipsAlong(rules, t[1..], i - 1, k, a);
    }
  }

  lemma FaultStep(rules: Rules, t: bytes, i: nat, k: nat)
    requires FaultAt(rules, t, i, k)
    ensures 1 <= k <= 4096 && i + k <= |t|
    ensures i > 0 ==> FaultAt(rules, t[1..], i - 1, k) && rules.AllValid(t[..1]) && t[0] != rules.params.punctuation
    ensures i == 0 ==>
      (t[k - 1] == rules.params.punctuation || !rules.AllValid(t[..k])) && rules.TrailerOk(t[k..], EOF)
  {
    hide Rules.TrailerOk;
    if i > 0 {
      assert t[..1] == t[..i][..1] && t[0] == t[..i + k - 1][0];
      assert t[1..][..i - 1] == t[..i][1..] && t[1..][..i - 1 + k - 1] == t[..i + k - 1][1..];
      assert t[1..][i - 1..i - 1 + k] == t[i..i + k] && t[1..][i - 1 + k..] == t[i + k..];
    } else {
      assert t[..k] == t[0..0 + k] && t[k..] == t[0 + k..];
    }
  }

  /** The frames of a text are complete, within the limit and belong together. */
  ghost predicate WellFramed(rules: Rules, text: bytes) {
    var p := rules.params.punctuation;
    && HasNext(text, p) && HasNext(After(text, p), p) && HasNext(After(After(text, p), p), p)
    && |HeaderOf(text, p)| < FRAME_LIM && |FooterOf(text, p)| < FRAME_LIM
    && rules.FrameAccepted(HeaderOf(text, p), FooterOf(text, p))
  }

  /** A text is its header, its body, its footer and its trailer. */
  lemma TextOf(rules: Rules, text: bytes)
    requires WellFramed(rules, text)
    ensures var p := rules.params.punctuation;
      text == Pieces(HeaderOf(text, p), BodyOf(text, p), FooterOf(text, p), TrailerOf(text, p)).Text(p)
  {
    var p := rules.params.punctuation;
    SegmentWhole(text, p);
    SegmentWhole(After(text, p), p);
    SegmentWhole(After(After(text, p), p), p);
  }

  lemma SegmentWhole(t: bytes, p: byte)
    requires HasNext(t, p)
    ensures t == First(t, p) + [p] + After(t, p)
  {
  }

  /** The pace for a fault in the trailer's `k` bytes after the first `i`. */
  function SlipPace(text: bytes, p: byte, i: nat, k: nat): Pace
    requires i <= |TrailerOf(text, p)|
  {
    PaceOf(|After(After(text, p), p)| + 2, |TrailerOf(text, p)| - i, k)
  }

  /** Every well-framed text whose body ends with a skip byte has a pace at which it opens despite a fault. */
  lemma SlipsAtPace(rules: Rules, text: bytes, o: Opened, i: nat, k: nat)
    requires Says(rules, text, o) && WellFramed(rules, text) && Slippery(rules, text)
    requires i <= |TrailerOf(text, rules.params.punctuation)|
    requires FaultAt(rules, TrailerOf(text, rules.params.punctuation), i, k)
    ensures SlipsTo(rules, text, o, SlipPace(text, rules.params.punctuation, i, k))
  {
    hide Says, Rules.Slips, Rules.Paired, Rules.HeaderBrand, Rules.FrameAccepted, FaultAt, First, After, HasNext;
    var p := rules.params.punctuation;
    var body, rest, t := After(text, p), After(After(text, p), p), TrailerOf(text, p);
    SegmentWhole(rest, p);
    CalmText(rules, text, i, k);
    PairedAlong(rules, body, |t| - i, k);
    SlipsAlong(rules, t, i, k, |rest| + 2);
    SaysBrand(rules, text, o);
  }

  lemma SaysBrand(rules: Rules, text: bytes, o: Opened)
    requires Says(rules, text, o)
    ensures rules.HeaderBrand(HeaderOf(text, rules.params.punctuation)).Present?
  {
  }

  lemma CalmText(rules: Rules, text: bytes, i: nat, k: nat)
    requires WellFramed(rules, text) && Slippery(rules, text) && i <= |TrailerOf(text, rules.params.punctuation)|
    requires FaultAt(rules, TrailerOf(text, rules.params.punctuation), i, k)
    ensures Calm(SlipPace(text, rules.params.punctuation, i, k), text, rules.params.punctuation)
  {
    hide Rules.FrameAccepted, Rules.TrailerOk, Calm, First, After, HasNext;
    var p := rules.params.punctuation;
    TextOf(rules, text);
    SegmentWhole(After(After(text, p), p), p);
    CalmPieces(Pieces(HeaderOf(text, p), BodyOf(text, p), FooterOf(text, p), TrailerOf(text, p)), p, i, k);
  }

  lemma CalmPieces(a: Pieces, p: byte, i: nat, k: nat)
    requires a.body != [] && p !in a.body && 1 <= k && i + k <= |a.trailer| && p !in a.trailer[..i + k - 1]
    ensures Calm(PaceOf(|a.footer| + 1 + |a.trailer| + 2, |a.trailer| - i, k), a.Text(p), p)
  {
    hide Calm, Pieces.Text;
    FromBodyEnd(a, p);
    FromTrailer(a, p, i, i + k - 1);
    assert a.trailer[i..i + k - 1] == a.trailer[..i + k - 1][i..];
    CalmAlong(a.Text(p), |a.footer| + 1 + |a.trailer| + 2, |a.trailer| - i, k, p);
  }

  lemma FromBodyEnd(a: Pieces, p: byte)
    requires a.body != []
    ensures var n, s := |a.footer| + 1 + |a.trailer| + 2, a.Text(p);
      |s| >= n && s[|s| - n] == a.body[|a.body| - 1]
  {
    var front := a.header + [p];
    assert a.Text(p) == front + (a.body + [p] + (a.footer + [p] + a.trailer));
  }

  lemma FromTrailer(a: Pieces, p: byte, i: nat, j: nat)
    requires i <= j <= |a.trailer|
    ensures var n, s := |a.trailer|, a.Text(p); |s| >= n && s[|s| - (n - i)..|s| - (n - i) + (j - i)] == a.trailer[i..j]
  {
    var front := a.header + [p] + a.body + [p] + a.footer + [p];
    assert a.Text(p) == front + a.trailer;
    assert (front + a.trailer)[|front| + i..|front| + j] == a.trailer[i..j];
  }

  /** There is a split under which such a text opens, garbage and all. */
  method OpenDespiteGarbage(text: bytes, rules: Rules, ghost o: Opened, i: nat, k: nat) returns (r: Option<Opened>)
    requires Says(rules, text, o) && WellFramed(rules, text) && Slippery(rules, text)
    requires FaultAt(rules, TrailerOf(text, rules.params.punctuation), i, k)
    ensures r == Present(o)
  {
    hide Says, SlipsTo, WellFramed, Rules.HeaderOk;
    SlipsAtPace(rules, text, o, i, k);
    r := OpenAt(text, rules, Present(SlipPace(text, rules.params.punctuation, i, k)), true);
    if r.Present? {
      OpensOnce(rules, text, o, r.value);
    }
  }

  // ---- the two together ----

  /** For a well-framed text the condition is exact, but for a fault that fills a whole read and has the
      punctuation behind it. */
  lemma GarbageIff(rules: Rules, text: bytes, o: Opened)
    requires Says(rules, text, o) && WellFramed(rules, text)
    ensures var t := TrailerOf(text, rules.params.punctuation);
      OpensTo(rules, text, o, false) <==> rules.TrailerOk(t, EOF) || (Slippery(rules, text) && rules.OneFault(t, EOF))
  {
    hide Rules.TrailerOk, Rules.OneFault, First, After, HasNext, Rules.HeaderBrand, Rules.FrameAccepted, Slippery;
    hide Says;
    SaysBrand(rules, text, o);
  }

  /** A fault that one read can hold is one fault. */
  lemma FaultIsOne(rules: Rules, t: bytes, i: nat, k: nat)
    requires FaultAt(rules, t, i, k)
    ensures rules.OneFault(t, EOF) && !rules.TrailerOk(t, EOF)
  {
    var p := rules.params.punctuation;
    if t[i + k - 1] == p {
      assert t[i + k - 1] in t;
      assert rules.FaultIn(t, i, i + k - 1, EOF);
    } else {
      assert t[..i + k] == t[..i + k - 1] + [t[i + k - 1]];
      assert rules.FaultIn(t, i, i + k, EOF);
    }
  }

  /** Conversely one fault is in one read, or fills it with the punctuation left over. */
  lemma OneFaultAt(rules: Rules, t: bytes) returns (i: nat, k: nat)
    requires rules.OneFault(t, EOF) && !rules.TrailerOk(t, EOF)
    ensures FaultAt(rules, t, i, k) || (k == 4096 && rules.FaultIn(t, i, i + k, EOF) && t[i + k] == rules.params.punctuation)
  {
    var p := rules.params.punctuation;
    var x: nat, j: nat :| rules.FaultIn(t, x, j, EOF);
    i := x;
    k := j - i;
    if rules.TrailerOk(t[j..], EOF) {
      assert t == t[..i] + t[i..j] + t[j..] && t[..j] == t[..i] + t[i..j];
      assert rules.AllValid(t[i..j]) ==> rules.AllValid(t);
      assert p !in t[..j] && p !in t[j..];
      assert t[..i + k - 1] == t[..j][..i + k - 1];
    } else if k < 4096 {
      k := k + 1;
      assert t[..i + k - 1] == t[..j] && t[i + k..] == t[j + 1..];
    }
  }

  // ---- sealed messages ----

  /** A sealed message's body ends with a skip byte if its characters are whole words. */
  lemma SealedSlips(params: Armor.Params, plaintext: bytes)
    requires CarriesFrames(params)
    ensures var chars := EncodeText(params.encoding, plaintext);
      EndsSkipped(params.encoding, [SPACE] + Armor.Body(params, chars, 0)) <==> |chars| % params.bytesPerWord == 0
  {
    hide EncodeText, Armor.Body;
    var chars := EncodeText(params.encoding, plaintext);
    EncodeTextShape(params.encoding, plaintext);
    if chars != [] {
      Armor.BodyEnds(params, chars, 0);
      assert chars[|chars| - 1] in chars;
    } else {
      Armor.BodyPeel(params, chars, 0);
      DivModSnoc(0, 0, params.bytesPerWord);
    }
  }

  /** What is appended to a sealed message comes behind its footer. */
  lemma Appended(params: Armor.Params, typ: MessageType, brand: bytes, plaintext: bytes, tail: bytes) returns (o: Opened)
    requires CarriesFrames(params) && GoodBrand(brand) && typ != Signcryption
    ensures var rules, text := Checked(params, typ), Sealed(params, typ, brand, plaintext) + tail;
      && o == Opened(plaintext, brand, MakeFrame(BEGIN, typ, brand), MakeFrame(END, typ, brand))
      && Says(rules, text, o) && WellFramed(rules, text) && TrailerOf(text, params.punctuation) == [Armor.NEWLINE] + tail
      && (Slippery(rules, text) <==> |EncodeText(params.encoding, plaintext)| % params.bytesPerWord == 0)
  {
    hide Says, Rules.BodyOk, MakeFrame, EncodeText, IsFrame, TrimSpace, First, After, HasNext, Rules.AllValid, Sealed;
    hide HeaderOf, BodyOf, FooterOf, TrailerOf, EndsSkipped, Armor.Body;
    var p := params.punctuation;
    var a := SealedIsArmor(params, typ, brand, plaintext);
    var b := a.(trailer := a.trailer + tail);
    assert b.Text(p) == a.Text(p) + tail;
    o := Opened(plaintext, brand, TrimSpace(a.header), TrimSpace(a.footer));
    ReflowOpens(params, typ, brand, plaintext, a);
    assert a.header in [a.header, a.body, a.footer, a.trailer] && a.body in [a.header, a.body, a.footer, a.trailer];
    assert a.footer in [a.header, a.body, a.footer, a.trailer];
    PieceSegments(a, p);
    PieceSegments(b, p);
    SameSegments(Checked(params, typ), a.Text(p), b.Text(p), o);
    SealedSlips(params, plaintext);
  }

  /** What a text says, and whether it is well framed, is up to its first three segments. */
  lemma SameSegments(rules: Rules, s: bytes, t: bytes, o: Opened)
    requires OpensTo(rules, s, o, true)
    requires var p := rules.params.punctuation;
      && HeaderOf(s, p) == HeaderOf(t, p) && BodyOf(s, p) == BodyOf(t, p) && FooterOf(s, p) == FooterOf(t, p)
      && HasNext(t, p) && HasNext(After(t, p), p) && HasNext(After(After(t, p), p), p)
    ensures Says(rules, t, o) && WellFramed(rules, t)
  {
    hide First, After, HasNext, DecodeText, Rules.HeaderBrand, Rules.ToASCII, Rules.TrailerOk, Rules.FrameAccepted;
  }

  /** One byte that does not belong there, appended to a sealed message: some split opens it all the same
      exactly if the characters fill their last word. Then one such split is chosen here. */
  method SealAppendOpen(plaintext: bytes, bad: byte, typ: MessageType, brand: bytes, params: Armor.Params)
    returns (text: bytes, o: Option<Opened>)
    requires CarriesFrames(params) && GoodBrand(brand) && typ != Signcryption && !IsValidByte(params.encoding, bad)
    ensures text == Sealed(params, typ, brand, plaintext) + [bad]
    ensures |EncodeText(params.encoding, plaintext)| % params.bytesPerWord == 0 ==>
      o == Present(Opened(plaintext, brand, MakeFrame(BEGIN, typ, brand), MakeFrame(END, typ, brand)))
    ensures |EncodeText(params.encoding, plaintext)| % params.bytesPerWord != 0 ==> o.Absent?
  {
    hide Says, WellFramed, Slippery, TrailerOf, MakeFrame, EncodeText, Armor.ArmoredText;
    var rules := Checked(params, typ);
    var sealed := Armor.Seal(plaintext, MakeFrame(BEGIN, typ, brand), MakeFrame(END, typ, brand), params);
    text := sealed + [bad];
    ghost var x := Appended(params, typ, brand, plaintext, [bad]);
    var chars := EncodeText(params.encoding, plaintext);
    if |chars| % params.bytesPerWord == 0 {
      o := OpenDespiteGarbage(text, rules, x, 1, 1);
    } else {
      assert ([Armor.NEWLINE] + [bad])[1] == bad;
      o := OpenUnlessGarbage(text, rules);
    }
  }

  /** With the parameters in use, 480 bytes are such a message, and 32 are not. */
  lemma WholeWords(plaintext: bytes)
    ensures |plaintext| == 480 ==> |EncodeText(Base62(), plaintext)| % Armor62Params().bytesPerWord == 0
    ensures |plaintext| == 32 ==> |EncodeText(Base62(), plaintext)| % Armor62Params().bytesPerWord != 0
  {
    hide EncodeText;
    EncodeTextShape(Base62(), plaintext);
    Base62BlockLen();
    BlocksLen(15);
    BlocksLen(1);
  }

  lemma {:induction false} BlocksLen(n: nat)
    ensures EncodedLen(Base62(), 32 * n) == 43 * n
  {
    Base62BlockLen();
    if n > 0 {
      EncodedLenStep(Base62(), 32 * n);
      BlocksLen(n - 1);
    } else {
      EncodedLenStep(Base62(), 0);
      BlockLenPositive(Base62());
    }
  }
}
