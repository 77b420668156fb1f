/** Bytes, byte sequences and the error values that readers and writers pass around. */
module Bytes {

  type byte = x: int | 0 <= x < 256

  type bytes = seq<byte>

  datatype Option<T> = Absent | Present(value: T)

  /** The `error` values of the modelled functions; `None` is Go's nil. */
  datatype Err =
    | None
    | EOF
    | UnexpectedEOF
    | Punctuated
    | Overflow
    | Corrupt(offset: nat)
    | InvalidLength
    | TrailingGarbage
    | BadFrame
    | Failed(code: int)
    | Rejected(why: Reason)

  /** Why a packet stream was not sealed or not opened; `IndexPanic` when the program ends there. */
  datatype Reason =
    | PacketOverflow
    | Malformed
    | IndexPanic
    | BadTag(seqno: nat)
    | BadCiphertext(seqno: nat)
    | BadSignature
    | UnexpectedEmptyBlock
    | BadReceivers
    | RepeatedKey(kid: bytes)
    | HeaderUnreadable
    | WrongMessageType
    | BadVersion(major: int)
    | BadEphemeralKey
    | BadLookup
    | DecryptionFailed
    | NoDecryptionKey
    | BadKeyLength
    | BadSenderKeySecretbox
    | NoSenderKey(sender: bytes)
    | WrongNumberOfKeys

  const SPACE: byte := 32

  function Min(a: int, b: int): int {
    if a < b then a else b
  }

  /** The bytes of an ASCII string. */
  function Ascii(s: string): (r: bytes)
    requires forall i :: 0 <= i < |s| ==> s[i] < 128 as char
    ensures |r| == |s|
    ensures forall i :: 0 <= i < |r| ==> r[i] == s[i] as int
  {
    seq(|s|, i requires 0 <= i < |s| => s[i] as int)
  }

  /** The position of the first `b` in `s`, or |s| when there is none. */
  function IndexOf(s: bytes, b: byte): (i: nat)
    ensures i <= |s|
    ensures b !in s[..i]
    ensures i < |s| ==> s[i] == b
  {
    if s == [] then 0
    else if s[0] == b then 0
    else
      var i := 1 + IndexOf(s[1..], b);
      assert s[..i] == [s[0]] + s[1..][..i - 1];
      i
  }

  /** `IndexOf` is the only position with the properties in its contract. */
  lemma IndexOfUnique(s: bytes, b: byte, i: nat)
    requires i <= |s| && b !in s[..i] && (i < |s| ==> s[i] == b)
    ensures IndexOf(s, b) == i
  {
    var k := IndexOf(s, b);
    assert forall j :: 0 <= j < i ==> s[..i][j] == s[j];
    assert forall j :: 0 <= j < k ==> s[..k][j] == s[j];
  }

  /** Concatenation of a list of byte strings. */
  function Concat(chunks: seq<bytes>): bytes {
    if chunks == [] then [] else chunks[0] + Concat(chunks[1..])
  }

  lemma SeqAssoc<T>(a: seq<T>, b: seq<T>, c: seq<T>)
    ensures a + b + c == a + (b + c)
  {
  }

  lemma EmptyFirst<T>(s: seq<T>)
    ensures [] + s == s
  {
  }

  lemma TakeAll<T>(s: seq<T>)
    ensures s[..|s|] == s
  {
  }

  lemma {:induction false} ConcatAppend(a: seq<bytes>, b: seq<bytes>)
    ensures Concat(a + b) == Concat(a) + Concat(b)
  {
    if a == [] {
      assert a + b == b;
    } else {
      ConcatAppend(a[1..], b);
      assert (a + b)[1..] == a[1..] + b;
      SeqAssoc(a[0], Concat(a[1..]), Concat(b));
    }
  }

  lemma ConcatSnoc(chunks: seq<bytes>, i: nat)
    requires i < |chunks|
    ensures Concat(chunks[..i + 1]) == Concat(chunks[..i]) + chunks[i]
  {
    ConcatAppend(chunks[..i], [chunks[i]]);
    assert chunks[..i + 1] == chunks[..i] + [chunks[i]];
    assert Concat([chunks[i]]) == chunks[i] + Concat([]);
  }

  lemma ConcatNothing()
    ensures Concat([]) == []
  {
  }
}
