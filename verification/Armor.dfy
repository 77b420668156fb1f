/** Writing armor (armor.go, type armorEncoderStream): the BaseX body cut into words and lines. */
module Armor {
  import opened Bytes
  import opened IO
  import opened Radix
  import opened BasexEncoding
  import opened BasexCodec
  import opened BasexEncoder
  import opened Framed

  const NEWLINE: byte := 10

  type Params = p: ArmorParams | p.bytesPerWord > 0 && p.wordsPerLine > 0
    ghost witness ArmorParams(1, 1, 46, Params([0, 1], 1, {}))

  /** What follows the k-th word. */
  function Sep(params: Params, k: nat): byte {
    if k % params.wordsPerLine == 0 then NEWLINE else SPACE
  }

  /** Words of `s`, each with its separator; `k` words come before them. */
  function FullWords(params: Params, s: bytes, k: nat): bytes
    decreases |s|
  {
    if |s| < params.bytesPerWord then []
    else s[..params.bytesPerWord] + [Sep(params, k + 1)] + FullWords(params, s[params.bytesPerWord..], k + 1)
  }

  /** What Close puts between the last word, of characters `lst`, and the closing punctuation. */
  function Pad(params: Params, lst: bytes, k: nat): bytes {
    if |lst| == params.bytesPerWord then [Sep(params, k + 1)] else []
  }

  /** The body segment of an armored text: the spaced characters and the padding. */
  function Body(params: Params, s: bytes, k: nat): bytes
    decreases |s|
  {
    if |s| <= params.bytesPerWord then s + Pad(params, s, k)
    else s[..params.bytesPerWord] + [Sep(params, k + 1)] + Body(params, s[params.bytesPerWord..], k + 1)
  }

  /** The whole armored text of characters `s`. */
  function ArmoredText(params: Params, header: bytes, footer: bytes, s: bytes): bytes {
    header + [params.punctuation, SPACE] + Body(params, s, 0)
    + [params.punctuation, SPACE] + footer + [params.punctuation, NEWLINE]
  }

  class ArmorEncoderStream {
    const buf: Buffer
    const footer: bytes
    const encoded: Buffer
    const encoder: Encoder
    const params: Params
    var nWords: nat

    // What has been written to `encoded` before the body, and the words drained so far.
    ghost const front: bytes
    ghost var words: bytes

    ghost predicate Wired()
      reads this
    {
      && buf != encoded && encoder.w == buf && encoder.enc == params.encoding
      && encoder.before == []
    }

    /** The drained characters are whole words, already written with their separators; unless there
        are none, something is left for the last word. */
    ghost predicate Drained()
      reads this, buf, encoded
    {
      && buf.drained == words && |words| == nWords * params.bytesPerWord
      && (nWords > 0 ==> buf.data != [])
      && encoded.data == front + FullWords(params, words, 0)
    }

    ghost predicate Valid()
      reads this, buf, encoded, encoder, encoder.buf
    {
      Wired() && encoder.Valid() && Drained() && |buf.data| <= params.bytesPerWord
    }

    constructor (encoded: Buffer, header: bytes, footer: bytes, params: Params)
      modifies encoded
      ensures Valid() && this.encoded == encoded && this.footer == footer && this.params == params
      ensures encoder.input == [] && front == old(encoded.data) + header + [params.punctuation, SPACE]
      ensures fresh(buf) && fresh(encoder) && fresh(encoder.buf) && fresh(encoder.out)
    {
      hide EncodeText, Head, Tail;
      var b := new Buffer();
      var e := new Encoder(params.encoding, b);
      this.encoded, this.footer, this.params, nWords, buf, encoder := encoded, footer, params, 0, b, e;
      front, words := encoded.data + header + [params.punctuation, SPACE], [];
      new;
      NothingYet(params.encoding);
      encoded.Write(header + [params.punctuation, SPACE]);
      SeqAssoc(old(encoded.data), header, [params.punctuation, SPACE]);
    }

    /** Writes out all words that are known not to be the last one. */
    method SpaceAndOutputBuffer()
      requires Wired() && Drained()
      modifies this`nWords, this`words, buf, encoded
      ensures Wired() && Drained() && |buf.data| <= params.bytesPerWord && buf.Written() == old(buf.Written())
    {
      while |buf.data| > params.bytesPerWord
        invariant Wired() && Drained() && buf.Written() == old(buf.Written())
        decreases |buf.data|
      {
        var word := buf.Next(params.bytesPerWord);
        nWords := nWords + 1;
        var sep := if nWords % params.wordsPerLine == 0 then NEWLINE else SPACE;
        encoded.Write(word);
        encoded.Write([sep]);
        FullWordsSnoc(params, words, word, nWords - 1);
        words := words + word;
      }
    }

    method Write(b: bytes) returns (n: nat)
      requires Valid() && buf != encoded
      modifies this`nWords, this`words, buf, encoded, encoder`nbuf, encoder`input, encoder.buf, encoder.out
      ensures Valid() && n == |b| && encoder.input == old(encoder.input) + b
    {
      n := encoder.Write(b);
      SpaceAndOutputBuffer();
    }

    /** Close: the text written is the same function of the input for every way of cutting the input
        into Writes. */
    method Close()
      requires Valid()
      modifies this`nWords, this`words, buf, encoded, encoder`nbuf, encoder.buf, encoder.out
      ensures encoded.data == front + Body(params, EncodeText(params.encoding, encoder.input), 0)
                              + [params.punctuation, SPACE] + footer + [params.punctuation, NEWLINE]
    {
      hide EncodeText;
      ghost var e := EncodeText(params.encoding, encoder.input);
      encoder.Close();
      SpaceAndOutputBuffer();
      assert buf.Written() == e by {
        assert [] + e == e;
      }
      var lst := buf.data;
      encoded.Write(lst);
      ghost var n := nWords;
      nWords := nWords + 1;
      var pad: bytes := [];
      if |lst| == params.bytesPerWord {
        pad := if nWords % params.wordsPerLine == 0 then [NEWLINE] else [SPACE];
      }
      encoded.Write(pad + [params.punctuation, SPACE] + footer + [params.punctuation, NEWLINE]);
      BodyAppend(params, words, lst, n, 0);
      Assemble(front, FullWords(params, words, 0), lst, pad, [params.punctuation, SPACE], footer,
               [params.punctuation, NEWLINE]);
    }
  }

  lemma Assemble(front: bytes, w: bytes, lst: bytes, pad: bytes, p: bytes, f: bytes, q: bytes)
    ensures front + w + lst + (pad + p + f + q) == front + (w + (lst + pad)) + p + f + q
  {
  }

  /** Whole words, then the last one: what has been written in all is the body segment. */
  lemma {:induction false} BodyAppend(params: Params, s: bytes, r: bytes, n: nat, k: nat)
    requires |s| == n * params.bytesPerWord && (n > 0 ==> r != []) && |r| <= params.bytesPerWord
    ensures Body(params, s + r, k) == FullWords(params, s, k) + (r + Pad(params, r, k + n))
    decreases n
  {
    if n == 0 {
      assert s + r == r;
    } else {
      var b := params.bytesPerWord;
      MulMonotone(1, n, b);
      assert |s[b..]| == (n - 1) * b;
      BodyAppend(params, s[b..], r, n - 1, k + 1);
      assert (s + r)[..b] == s[..b] && (s + r)[b..] == s[b..] + r;
      SeqAssoc(s[..b] + [Sep(params, k + 1)], FullWords(params, s[b..], k + 1), r + Pad(params, r, k + n));
    }
  }

  lemma {:induction false} FullWordsSnoc(params: Params, s: bytes, w: bytes, n: nat)
    requires |s| == n * params.bytesPerWord && |w| == params.bytesPerWord
    ensures FullWords(params, s + w, 0) == FullWords(params, s, 0) + w + [Sep(params, n + 1)]
    ensures |s + w| == (n + 1) * params.bytesPerWord
  {
    FullWordsAppend(params, s, w, n, 0);
    assert w[..|w|] == w && w[|w|..] == [];
  }

  lemma {:induction false} FullWordsAppend(params: Params, s: bytes, r: bytes, n: nat, k: nat)
    requires |s| == n * params.bytesPerWord
    ensures FullWords(params, s + r, k) == FullWords(params, s, k) + FullWords(params, r, k + n)
    decreases n
  {
    if n == 0 {
      assert s + r == r;
    } else {
      var b := params.bytesPerWord;
      MulMonotone(1, n, b);
      assert |s[b..]| == (n - 1) * b;
      FullWordsAppend(params, s[b..], r, n - 1, k + 1);
      assert (s + r)[..b] == s[..b] && (s + r)[b..] == s[b..] + r;
      SeqAssoc(s[..b] + [Sep(params, k + 1)], FullWords(params, s[b..], k + 1), FullWords(params, r, k + n));
    }
  }

  // ---- the body in closed form ----

  /** Where every byte of the body is: each word of bytesPerWord characters is followed by one
      separator, a newline after every wordsPerLine-th word. */
  lemma {:induction false} BodyAt(params: Params, s: bytes, k: nat, w: nat, j: nat)
    requires j <= params.bytesPerWord && w * (params.bytesPerWord + 1) + j < |Body(params, s, k)|
    ensures var c := Body(params, s, k)[w * (params.bytesPerWord + 1) + j];
      if j == params.bytesPerWord then c == if (k + w + 1) % params.wordsPerLine == 0 then NEWLINE else SPACE
      else w * params.bytesPerWord + j < |s| && c == s[w * params.bytesPerWord + j]
    decreases w
  {
    var b := params.bytesPerWord;
    if w > 0 {
      MulMonotone(1, w, b + 1);
      assert w * (b + 1) == (w - 1) * (b + 1) + b + 1 && w * b == (w - 1) * b + b;
      BodyPeel(params, s, k);
      BodyAt(params, s[b..], k + 1, w - 1, j);
    } else {
      BodyPeel(params, s, k);
    }
  }

  /** The first word of a body, its separator, and the body of the rest. */
  lemma BodyPeel(params: Params, s: bytes, k: nat)
    ensures var b, body := params.bytesPerWord, Body(params, s, k);
      && (|s| < b ==> body == s)
      && (|s| == b ==> body == s + [Sep(params, k + 1)])
      && (|s| > b ==> body == s[..b] + [Sep(params, k + 1)] + Body(params, s[b..], k + 1))
  {
  }

  lemma {:induction false} BodyLength(params: Params, s: bytes, k: nat)
    ensures |Body(params, s, k)| == |s| + |s| / params.bytesPerWord
    decreases |s|
  {
    var b := params.bytesPerWord;
    if |s| >= b {
      WholeBlocksStep(|s|, b, 1);
      if |s| > b {
        BodyLength(params, s[b..], k + 1);
      } else {
        DivModSnoc(0, 0, b);
      }
    } else {
      DivModSnoc(0, |s|, b);
    }
  }

  /** A body of whole words ends with a separator, any other with its last character. */
  lemma {:induction false} BodyEnds(params: Params, s: bytes, k: nat)
    requires s != []
    ensures var body := Body(params, s, k);
      && body != []
      && if |s| % params.bytesPerWord == 0 then body[|body| - 1] in [SPACE, NEWLINE] else body[|body| - 1] == s[|s| - 1]
    decreases |s|
  {
    var b := params.bytesPerWord;
    BodyPeel(params, s, k);
    if |s| < b {
      DivModSnoc(0, |s|, b);
    } else if |s| == b {
      DivModSnoc(1, 0, b);
    } else {
      WholeBlocksStep(|s|, b, 1);
      BodyEnds(params, s[b..], k + 1);
    }
  }

  /** Separators are skipped by the encoding, and the punctuation is a byte it rejects. */
  ghost predicate Separates(params: Params) {
    && SPACE in params.encoding.skip && SPACE !in params.encoding.alphabet
    && NEWLINE in params.encoding.skip && NEWLINE !in params.encoding.alphabet
    && !IsValidByte(params.encoding, params.punctuation)
  }

  /** Deleting what the encoding skips gives back the characters. */
  lemma {:induction false} BodyStrips(params: Params, s: bytes, k: nat)
    requires Separates(params) && forall c :: c in s ==> c in params.encoding.alphabet
    ensures Strip(params.encoding, Body(params, s, k)) == s
    ensures forall c :: c in Body(params, s, k) ==> IsValidByte(params.encoding, c)
    decreases |s|
  {
    hide Strip, Body, Separates;
    var enc, b := params.encoding, params.bytesPerWord;
    var sep: bytes := [Sep(params, k + 1)];
    BodyPeel(params, s, k);
    SepSkipped(params, k + 1);
    StripLetters(enc, s);
    StripLetters(enc, sep);
    StripConcat(enc, s, sep);
    if |s| > b {
      var w, rest := s[..b], Body(params, s[b..], k + 1);
      BodyStrips(params, s[b..], k + 1);
      StripLetters(enc, w);
      StripConcat(enc, w, sep);
      StripConcat(enc, w + sep, rest);
      assert s == w + s[b..] && w + [] == w;
    }
  }

  lemma SepSkipped(params: Params, k: nat)
    requires Separates(params)
    ensures Sep(params, k) !in params.encoding.alphabet && IsValidByte(params.encoding, Sep(params, k))
  {
  }

  // ---- sealing ----

  method WriteAll(a: ArmorEncoderStream, pieces: seq<bytes>)
    requires a.Valid()
    modifies a`nWords, a`words, a.buf, a.encoded, a.encoder`nbuf, a.encoder`input, a.encoder.buf, a.encoder.out
    ensures a.Valid() && a.encoder.input == old(a.encoder.input) + Concat(pieces)
  {
    hide Concat;
    ConcatNothing();
    ghost var before := a.encoder.input;
    assert pieces[..0] == [] && before + [] == before;
    for i := 0 to |pieces|
      invariant a.Valid() && a.encoder.input == before + Concat(pieces[..i])
    {
      ConcatSnoc(pieces, i);
      SeqAssoc(before, Concat(pieces[..i]), pieces[i]);
      var n := a.Write(pieces[i]);
    }
    TakeAll(pieces);
  }

  /** The armor of an input cut into any Writes. */
  method SealStream(pieces: seq<bytes>, header: bytes, footer: bytes, params: Params) returns (text: bytes)
    ensures text == ArmoredText(params, header, footer, EncodeText(params.encoding, Concat(pieces)))
  {
    hide EncodeText, Concat, Body, ArmorEncoderStream.Valid, Encoder.Valid;
    var encoded := new Buffer();
    var a := new ArmorEncoderStream(encoded, header, footer, params);
    WriteAll(a, pieces);
    a.Close();
    text := encoded.data;
    EmptyFirst(header);
    EmptyFirst(Concat(pieces));
  }

  method Seal(plaintext: bytes, header: bytes, footer: bytes, params: Params) returns (text: bytes)
    ensures text == ArmoredText(params, header, footer, EncodeText(params.encoding, plaintext))
  {
    assert Concat([plaintext]) == plaintext + Concat([]) == plaintext;
    text := SealStream([plaintext], header, footer, params);
  }
}
