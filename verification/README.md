# Saltpack in Dafny

Saltpack is a message format: a plaintext is cut into chunks, each chunk is encrypted, signed or both, the packets are
written as MessagePack, and the bytes can be wrapped in ASCII armor. This project models the Go implementation of that
format and proves what it promises. `dafny verify dfyconfig.toml` checks everything.

The model has three layers, each with its streams as classes over arrays and its meaning as functions.

* **BaseX** (`Radix`, `BasexLengths`, `BasexEncoding`, `BasexCodec`, `BasexArrays`, `BasexEncoder`, `Readers`,
  `BasexDecoder`): the bignum codec for any alphabet of 2 to 256 distinct bytes and any block length, the loops that fill
  arrays, the buffering encoder and decoder, and the filter that compacts a buffer in place.
* **Armor** (`Punctuated`, `Segments`, `Frame`, `Framed`, `Armor`, `ArmorOpen`, `Armor62`, `TrailingGarbage`, `Classify`):
  word spacing, the segment splitter whose pending slices alias its own or its caller's buffer, the header/body/footer
  state machine, frames, what may follow the footer, and the recognition of a message's beginning.
* **Packets** (`Nonces`, `Chunks`, `Packets`, `SealStream`, `OpenStream`, `Message`, `EncryptionHeaders`,
  `EncryptionReceivers`, `SigncryptionHeaders`, `Random`): chunk framing in versions 1 and 2, the sending and receiving
  streams of encryption, attached signatures and signcryption, their headers, nonces, and the shuffle of the receivers.

`Bytes` and `IO` hold what all of them share. A `Source` delivers its bytes in pieces of arbitrary positive size, so every
statement about a reader holds for every way in which the data can be split; reads into buffers of any size are covered
because the sizes are chosen arbitrarily too. Where a statement needs one certain split, the source is given a `Pace`, which
fixes how much each read delivers.

## How statements are made

* A stream class has a `Valid` predicate, a function that gives its abstract value (`Pending`, `Future`, `Rest`, `Input`),
  and methods that tie the new value to the old one. What a reader will still do is a `Fate`: the bytes it will deliver,
  whether it must and whether it may then end cleanly. The two differ where the code's answer depends on how the data
  happens to be split (see below); `lucky` says that the split under way lets one error pass.
* Cryptography is a record of functions (`Packets.Suite`) with the hypothesis `Correct`: opening undoes sealing, boxes are
  16 bytes longer than their contents, the two sides of a box agree, signatures verify. `SuitesExist` gives one instance.
  Unforgeability and freedom from collisions are not assumed of all inputs, which no hash could meet, but of the packets
  at hand (`Message.Trusted`, `Message.Unforged`); `SentIsTrusted` shows that the genuine packets satisfy it.
* Sender and receiver share definitions of nonces, hashed inputs and headers, so agreement between them says nothing of what
  these are. Lemmas named `...Says` state packets and headers down to their bytes, `...Binds` what a packet is good for, and
  `AcceptedHeader` what a receiver has checked.
* The wire is a list of decoded MessagePack values, among them foreign ones and ones that do not decode, followed by the
  end of the stream. A key's ID is taken to be the key.
* The one-megabyte block size is a parameter of at least one byte. Integers are unbounded; the places where 64-bit or
  32-bit counters are checked, truncated or wrap around are written out.
* The floating-point logarithms behind block lengths are replaced by the exact integers that section "BaseX Encoding" of
  the Saltpack ASCII Armor Format asks for: the least C with 256^B <= A^C, and the largest B with 256^B <= A^C.
* encryptStream, signAttachedStream and signcryptSealStream have the same Write and Close but for what a block is, so
  they are one class over a `Sealer`; the three getNextChunk methods are one over an `Opener`. Where the three differ
  (overflow check, sanity checks, nonces, signatures) the sum types say so. The source's panics are asserts where they
  cannot be reached, and outcomes (`SealStream.Outcome`, `Packets.Next`) where they can.

## Where the code differs from its documentation

* The specification calls a block illegal whose number does not fit in its bytes. `decodeBlock` accepts it and keeps the
  leading bytes. `BasexCodec.TextCanonical` gives the exact condition for re-encoding to return the same characters, and
  `BasexCodec.OverflowAccepted` an accepted text that does not meet it.
* `filteringReader` drops an error that arrives together with a buffer of skipped bytes only, so garbage after the footer
  is not always reported. `TrailingGarbage.SealAppendOpen` opens a sealed message with a byte appended that does not
  belong there. It is reported for every split if the body is empty or ends with a letter
  (`TrailingGarbage.OpenUnlessGarbage`); otherwise there is a split under which the text opens, if all that is wrong
  behind the footer comes in one read (`TrailingGarbage.OpenDespiteGarbage`), and only then
  (`TrailingGarbage.OpensWithGarbage`).
* `ReadUntilPunctuation` always finds a segment shorter than its limit, and never one that is longer by 4096 bytes or
  more; in between it depends on the reads (`Segments.SplitDecides`).
* A Write that fails has already taken its block out of the buffer, and Close does not look at the error. In version 2 it
  panics if there is still more than a block in the buffer, and returns the error otherwise (`SealStream.SealStream.Close`).
* A block with fewer authenticators than the header has receivers makes an index expression panic before any tag is
  checked (`Packets.CrashesIff`).
* Signatures number their packets modulo 2^64 without a check. Up to 2^64 blocks no altered packet list passes for the
  message (`Message.AuthenticatedPrefix`); of any longer message the packets from block 2^64 on pass for a whole message
  (`Message.SignaturesWrapAround`).
* In signcryption the nonces of blocks come from the header hash, those of the sender's key from a constant.
  `Nonces.SigncryptionRunDistinct` gives the one coincidence under which the last block shares the latter.

## Model

| member | source | states |
|---|---|---|
| BasexLengths.BlockChars | encoding/basex/encoding.go:226-239 | the number of characters for n bytes is the least C with 256^n <= base^C, so the division loop has room for every digit |
| BasexLengths.BlockBytes | encoding/basex/encoding.go:243-256 | the number of bytes in c characters is the largest n with 256^n <= base^c |
| BasexLengths.MinimalLength | encoding/basex/encoding.go:260-269 | one character fewer would hold fewer bytes exactly when the count is the shortest for its bytes |
| BasexEncoding.DecodedLenOfEncodedLen | encoding/basex/encoding.go:226-256 | DecodedLen(EncodedLen(n)) == n for inputs of any number of blocks |
| BasexEncoding.DecodedLenMonotone | encoding/basex/encoding.go:243-256 | longer texts never decode to fewer bytes |
| BasexEncoding.ValidLengthIff | encoding/basex/encoding.go:260-269 | within a block, a character count is valid exactly when it is the encoded length of some byte count |
| BasexCodec.BlockRoundTrip | encoding/basex/encoding.go:124-145 | decoding an encoded block returns the block, for every alphabet and block length |
| BasexCodec.BlockNumber | encoding/basex/encoding.go:124-145 | an encoded block is the one text of its length whose digits, most significant first, spell the number of its bytes |
| BasexCodec.DecodedNumber | encoding/basex/encoding.go:181-222 | a decoded block spells the number of its letters if it fits |
| BasexCodec.BlockCanonical | encoding/basex/encoding.go:181-222 | a block of valid length re-encodes to itself if and only if its number fits in its bytes |
| BasexCodec.LettersRoundTrip | encoding/basex/encoding.go:147-158 | decoding undoes encoding over any number of blocks |
| BasexCodec.TextRoundTrip | encoding/basex/encoding.go:77-89 | the same with any skip bytes inserted anywhere |
| BasexCodec.LettersOutcome | encoding/basex/encoding.go:147-158 | a text is accepted exactly when the length of its last block is valid, and then decodes to DecodedLen bytes |
| BasexCodec.TextCanonical | encoding/basex/encoding.go:211-221 | an accepted text re-encodes to its own letters if and only if every block's number fits |
| BasexCodec.OverflowAccepted | encoding/basex/encoding.go:211-221 | three decimal digits that exceed a byte are accepted, and do not re-encode to themselves |
| BasexArrays.EncodeBlockInto | encoding/basex/encoding.go:124-145 | the bignum division loop writes exactly the block's characters and nothing outside them |
| BasexArrays.Encode | encoding/basex/encoding.go:77-89 | fills the destination with the encoding of the whole input |
| BasexArrays.ScanBlock | encoding/basex/encoding.go:181-208 | collects the letters of one block, passing over skip bytes, and stops at the first bad byte |
| BasexArrays.DecodeBlockInto | encoding/basex/encoding.go:181-222 | one block decodes to the leading bytes of its number, padded, or is refused with the offset or the length error |
| BasexArrays.Decode | encoding/basex/encoding.go:147-158 | writes the one-shot decoding inside the destination and returns its error, for any input |
| BasexArrays.EncodeToString | encoding/basex/stream.go:14-18 | allocates what EncodedLen says, which is exactly what is filled |
| BasexArrays.DecodeString | encoding/basex/stream.go:106-110 | the one-shot decoding of a string |
| BasexEncoder.Encoder.Write | encoding/basex/stream.go:29-76 | after any Write the output is the encoding of the whole blocks so far, with less than a block buffered |
| BasexEncoder.Encoder.Close | encoding/basex/stream.go:80-88 | Close completes the encoding with the short last block |
| BasexEncoder.EncodeStream | encoding/basex/stream.go:29-88 | for every way of cutting the input into Writes, Close leaves the one-shot encoding of all of it |
| Readers.FilteringReader.Compact | encoding/basex/stream.go:207-224 | the in-place scan keeps exactly the letters, in order, and stops at the first bad byte |
| Readers.FilteringReader.Read | encoding/basex/stream.go:200-230 | delivers the letters of what is read, never an empty result in between; passes an error on with the letters it came with and drops one that came with skip bytes alone, so that an input whose one fault comes with its last skip byte ends cleanly |
| BasexDecoder.DecodeAhead | encoding/basex/stream.go:143-192 | whole blocks can be decoded before what follows is known, also when they do not decode |
| BasexDecoder.Decoder.Read | encoding/basex/stream.go:122-192 | one read advances the one-shot decoding or ends with its error; nothing outside p, buf and scratchbuf is written |
| BasexDecoder.BlockSizes | encoding/basex/stream.go:237-247 | a block has between one and eight times as many characters as bytes, so the buffers suffice |
| BasexDecoder.ReadAll | encoding/basex/stream.go:122-192 | with any read sizes: all data and a clean end, or a prefix and an error |
| BasexDecoder.DecodeStream | encoding/basex/stream.go:122-231 | for every split and all read sizes the streaming decoder accepts the same texts as the one-shot one, with the same data; of others it delivers a prefix |
| BasexDecoder.NewDecoder | encoding/basex/stream.go:233-247 | the filter is put in front exactly when there are skip bytes, and then decoding is one-shot decoding of the reader's bytes |
| Punctuated.PunctuatedReader.Read | punctuated_reader.go:35-97 | each read delivers a piece of the current segment or reports its end; no byte is lost, repeated or reordered although slices alias the buffer |
| Punctuated.PunctuatedReader.CopyOut | punctuated_reader.go:42-97 | copying out keeps the rest of the segment and the next segment intact, also when they live in the destination |
| Punctuated.PunctuatedReader.ReadUntilPunctuation | punctuated_reader.go:102-127 | returns the whole next segment if it is shorter than the limit, never one longer by more than 4095 bytes, and leaves what follows it; at a known pace of the source it finds a segment exactly if its last piece begins below the limit |
| Punctuated.Copy | punctuated_reader.go:45-52 | Go's copy between possibly overlapping slices |
| Segments.ReadAllSegments | punctuated_reader.go:102-127 | all segments read are, in order, the text split at its punctuation, for every split of the source; it stops early only at one that reaches the limit |
| Segments.AtTheLimit | punctuated_reader.go:102-127 | a segment as long as the limit is given up byte by byte, and found when its last byte comes with the punctuation |
| Segments.SplitDecides | punctuated_reader.go:102-127 | so one text overflows under one split and is found under another |
| Frame.SplitJoin | frame.go:79-85 | splitting at spaces undoes joining |
| Frame.WordsOfReflow | frame.go:74-77 | however words are reflowed with blanks, newlines and quote marks, the parser sees the same words |
| Frame.TrimSpaceIs | armor.go:284-289 | trimming takes away the blanks at both ends and nothing else |
| Frame.ParseFrameIff | frame.go:69-117 | a text parses to a brand if and only if it is short enough and its words are those of the frame with that brand |
| Frame.FrameRoundTrip | frame.go:32-44 | a made frame, reflowed in any way within the length limit, parses to its brand |
| Frame.MadeFrameIsReflow | frame.go:32-44 | a made frame is itself such a text |
| Framed.FramedDecoderStream.LoadHeader | armor.go:177-196 | on success the brand is what the header check finds, the header is within the limit and one buffer, and what follows is the body; a good header is never refused |
| Framed.FramedDecoderStream.Read | armor.go:200-251 | only body bytes are delivered, a clean end only after an accepted frame with nothing wrong behind it, and nothing aliases the caller's array after a successful read; an error can come with the last bytes of the body |
| Framed.FramedDecoderStream.GetHeader | armor.go:298-305 | the header without surrounding blanks; when this call reads it, what LoadHeader promises, or nothing for an input that no split accepts |
| Framed.FramedDecoderStream.GetFooter | armor.go:291-296 | nothing before the body has ended; once the frame is accepted, the text's third segment without surrounding blanks |
| Framed.ConsumeUntilEOF | armor.go:257-271 | ends with EOF if and only if all that follows the footer is valid and the source ends without an error; after another error what is left is valid only if that was the one fault |
| Armor.ArmorEncoderStream.SpaceAndOutputBuffer | armor.go:51-67 | whole words are written with their separators, and one word's worth at most is held back |
| Armor.ArmorEncoderStream.Close | armor.go:69-93 | the text is a function of the input alone, whatever Writes it came in |
| Armor.BodyAt | armor.go:51-93 | where each byte of the body is: every word has BytesPerWord characters, every WordsPerLine-th separator is a newline |
| Armor.BodyLength | armor.go:51-93 | one separator for every full word, no more |
| Armor.BodyEnds | armor.go:69-93 | the body ends with a separator exactly if its characters are whole words |
| Armor.BodyStrips | armor.go:40-93 | deleting the skipped bytes gives back the characters |
| Armor.SealStream | armor.go:103-133 | for every cut into Writes: header, spaced body, footer |
| ArmorOpen.Open | armor.go:327-349 | what opens does so to the text's own segments, within the limits the code keeps, and with nothing wrong behind the footer unless the body ends with a skip byte; what must open does; for every split and all read sizes |
| ArmorOpen.OpenAt | armor.go:327-349 | the same for a source of a given pace, which then decides whether a fault behind the footer is let pass |
| TrailingGarbage.OpensWithGarbage | armor.go:257-271 | what opens under any split has nothing wrong behind its footer, or its body ends with a skip byte and all that is wrong fits into one read |
| TrailingGarbage.OpenUnlessGarbage | encoding/basex/stream.go:200-230 | if the body is empty or ends with a letter, garbage behind the footer is reported for every split |
| TrailingGarbage.OpenDespiteGarbage | encoding/basex/stream.go:200-230 | if it ends with a skip byte, and the garbage fits into one read, there is a split under which the text opens |
| TrailingGarbage.GarbageIff | armor.go:257-271 | for a text with good frames the two conditions are one if-and-only-if |
| TrailingGarbage.OneFaultAt | armor.go:257-271 | what fits into one read, or fills it with the punctuation left over |
| TrailingGarbage.SealAppendOpen | armor.go:69-93 | a sealed message with one bad byte appended opens under some split exactly if its characters fill their last word |
| TrailingGarbage.WholeWords | armor62.go:15-20 | with the parameters in use 480 bytes are such a message and 32 are not |
| Armor62.ReflowOpens | armor62.go:82-97 | any reflow of an armored message opens to its plaintext, brand, header and footer |
| Armor62.OpensOnce | armor.go:327-349 | a text opens to one result only |
| Armor62.SealedIsArmor | armor62.go:30-43 | sealed text is such a message |
| Armor62.SealThenOpen | armor62.go:30-66 | the armor round trip for every plaintext, type and brand, all Writes and all splits |
| Armor62.OpenReflowed | armor62.go:63-66 | the same after a reflow |
| Armor62.OpenChecked | armor62.go:74-97 | opening with the checks for one type, for every split: what opens has a header and a footer whose words are the markers, the type's words and one brand, within the limits; and every text framed like that, with a body that decodes, opens to what it says |
| Armor62.OpenedFrames | armor62.go:82-97 | what any split opens is framed alike on both sides |
| Armor62.MustOpenIff | armor62.go:82-97 | the texts that every split opens are exactly those framed alike, within the limits, with a body that decodes and nothing wrong behind the footer |
| Armor62.Base62BlockLen | encoding/basex/bases.go:32-34 | 32 bytes make 43 characters of base 62 |
| Armor62.Armor62CarriesFrames | armor62.go:15-20 | the parameters in use meet the round trip's conditions |
| Classify.NeverPanics | classify_and_decrypt.go:144-163 | the logic error cannot be reached by any input |
| Classify.HeaderPrefixIsShort | classify_and_decrypt.go:131-180 | a header cut anywhere, however reflowed, is reported as too short |
| Classify.WordsAnswer | classify_and_decrypt.go:144-180 | of alphanumeric words the answer is that more is needed if and only if they are the words of a header, with a brand of any length or none, cut somewhere; otherwise they are no message |
| Classify.WordsDecide | classify_and_decrypt.go:131-180 | the same for every text with these words, however reflowed |
| Classify.MatchedHeader | classify_and_decrypt.go:131-142 | the header expression matches whole headers only, and finds their brand, type and body |
| Classify.ClassifyIff | classify_and_decrypt.go:131-210 | every text is a whole header with a body, whose answer it gets, or a header's words cut, and too short, or no message |
| Classify.BodyAnswer | classify_and_decrypt.go:182-210 | what the body of a matched header answers, for whatever of it was read |
| Classify.BodyPrefixIsShort | classify_and_decrypt.go:182-210 | with fewer than 43 body characters the answer is that more is needed; with 43 the decoded bytes decide: too short, no message, another type than the header's, or the message with its brand, type and version |
| Classify.ArmoredPrefixIsShort | classify_and_decrypt.go:131-210 | any reflow of an armored message cut before its 43rd body character is too short, never something else |
| Nonces.PutUint64 | nonce.go:17-23 | writes the eight big-endian bytes in place |
| Nonces.NonceForPayloadKeyBox | nonce.go:25-39 | version 1: saltpack_payload_key_box for every recipient; version 2: saltpack_recipsb and eight bytes that spell the recipient's place |
| Nonces.NonceForMACKeyBoxV2 | nonce.go:49-60 | the header hash's front, the flag in the sixteenth byte's last bit, and bytes that spell the index |
| Nonces.NonceForChunkSecretBox | nonce.go:63-68 | saltpack_ploadsb and bytes that spell the block number |
| Nonces.NonceForChunkSigncryption | nonce.go:72-83 | as the MAC key's, with the final flag and the block number |
| Nonces.BE64Injective | nonce.go:17-23 | different numbers have different bytes |
| Nonces.BE64Spells | nonce.go:17-23 | the eight bytes spell the number, most significant first |
| Nonces.FlaggedNonceInjective | nonce.go:49-83 | for one header hash these nonces are injective in flag and index together |
| Nonces.PayloadKeyBoxNonceInjective | nonce.go:17-23 | version 2 recipients have different nonces |
| Nonces.PayloadKeyBoxNonceIs | nonce.go:25-39 | what the recipient nonces of both versions consist of, literally |
| Nonces.EncryptionRunDistinct | nonce.go:13-68 | no two boxes under one payload key share a nonce: the sender's key and all blocks |
| Nonces.SigncryptionRunDistinct | nonce.go:72-83 | the same for signcryption, except, exactly, for one header hash front and one number of blocks |
| Chunks.ChunkedWellFramed | encrypt.go:300-331 | only the last chunk is final, all but the last non-empty one are full, version 1 ends empty, version 2 does so only for an empty message |
| Chunks.FramingUnique | encrypt.go:31-51 | these conditions leave one list of chunks for each plaintext |
| Chunks.ChunkedPassesChecks | common.go:236-278 | every such chunk passes the sender's and the receiver's checks |
| Packets.OpensSealed | decrypt.go:264-290 | a sealed chunk is opened again by matching keys, in every mode and version |
| Packets.DecryptsSealed | encrypt.go:107-138 | the same for encryption: tag, box, and the flag of version 1 from the box's length |
| Packets.OpensSigncrypted | signcrypt_open.go:213-241 | the same for signcryption, signed or anonymous |
| Packets.CrashesIff | decrypt.go:264-278 | a packet makes a receiver panic if and only if it decrypts, the packet is a block of its version, the number is in range and there is no authenticator at its place |
| Packets.RefusedPacket | decrypt.go:264-290 | the last number is refused where numbers are counted; tags and boxes are reported with the sequence number of their packet; signatures are at fault only where they are checked |
| Packets.Authenticators | encrypt.go:124-128 | one authenticator for each receiver, in order |
| Packets.EncryptionBlockSays | encrypt.go:107-138 | what an encryption block consists of, down to the bytes that are tagged: header hash, nonce, final flag in version 2, box |
| Packets.SignatureBlockSays | common.go:54-77 | what a signature block consists of, down to the bytes that are signed |
| Packets.SigncryptionBlockSays | signcrypt_seal.go:50-97 | what a signcryption block consists of, down to the bytes that are signed and boxed |
| SealStream.EncryptChunk | encrypt.go:107-138 | nonce, box, hash, authenticators and packet, which every matching receiver opens at its place; the checks on it cannot panic |
| SealStream.SignChunk | sign_stream.go:162-182 | the packet is accepted as this chunk at its place by every receiver with the public key |
| SealStream.SigncryptChunk | signcrypt_seal.go:50-97 | signature or zeroes, box and packet, which every matching receiver opens at its place; the checks on it cannot panic |
| SealStream.SealStream.SealBlock | encrypt.go:71-138 | takes the next block from the buffer, which it loses when the last block number is refused or a check panics, and otherwise appends its packet |
| SealStream.SealStream.Write | encrypt.go:31-51 | seals full blocks and holds one back; fails exactly for more than 2^64 blocks' worth of counted input, losing a block, and then for good |
| SealStream.SealStream.Close | encrypt.go:300-331 | after any Writes, failed ones included: the packets are a function of the plaintext; the error is exactly that there are too many blocks; it panics exactly in version 2 for a counted stream with more than (2^64 + 1) blocks' worth of input |
| SealStream.SealMessage | signcrypt_seal.go:352-363 | a run of Writes and Close that stops at the first error, for every cut of the plaintext: it fails exactly when the blocks cannot be counted |
| SealStream.SealRegardless | sign_stream.go:77-106 | a run that closes after a failed Write too: its outcome, panic included, and its packets are a function of the plaintext that was taken |
| OpenStream.MsgpackStream.Read | msgpack.go:48-55 | counts packets modulo 2^64 and reports the end or what does not decode |
| OpenStream.NoPanic | common.go:236-257 | a received packet never meets the version 1 panic |
| OpenStream.CleanEnd | common.go:236-257 | a stream that ends cleanly was one run of accepted chunks and nothing behind it, only the last of them final; in version 1 the last one alone is empty, in version 2 only a block of number 0 that is the last |
| OpenStream.RunEndsCleanly | decrypt.go:43-67 | and every such run ends cleanly with exactly its bytes |
| OpenStream.ChunkSource.AssertEndOfStream | common.go:43-50 | always an error: the stream's own end, or trailing garbage |
| OpenStream.ChunkSource.GetNextChunk | decrypt.go:43-67 | the chunker's contract: an empty chunk only with an error, and the chunks are what the packets deliver |
| OpenStream.ChunkReader.Read | chunk_reader.go:30-56 | for any chunker: exactly as many bytes as fit; no error if and only if more is left; the final error again at every later call; the chunker is not asked after its error |
| OpenStream.ReadAll | chunk_reader.go:30-56 | any positive read sizes give the concatenation of the chunks and the final error |
| OpenStream.ReadScript | chunk_reader.go:30-56 | any chunker that keeps the interface's contract is read to its end, its chunks in order up to its first error |
| OpenStream.OpenAll | verify_stream.go:29-53 | reading a packet list delivers what its packets say |
| Message.MessageDelivers | sign_stream.go:59-106 | a sealed message is delivered whole, and then the stream's end |
| Message.SendThenReceive | verify_stream.go:29-102 | the packet-stream round trip for all Writes, all read sizes, every mode and version |
| Message.EncryptedBlocksUseRun | encrypt.go:107-138 | every block of a message is sealed under its own nonce of the run, all of them different |
| Message.SigncryptedBlocksUseRun | signcrypt_seal.go:50-97 | the same for signcryption |
| Message.PayloadHashInjective | common.go:165-184 | what is authenticated begins with the header hash, and determines header hash, nonce, ciphertext and flag |
| Message.AttachedHashInjective | common.go:54-77 | what is hashed for a signature determines header hash, number, flag and chunk |
| Message.EncryptedBinds | decrypt.go:264-290 | an encrypted packet is accepted only under the header hash, at the place and with the MAC key it was sealed for, unless tags or hashes collide |
| Message.SignedBinds | verify_stream.go:100-102 | a signed packet is accepted only under its header hash, at its place, as its chunk, likewise |
| Message.SigncryptedBinds | signcrypt_open.go:213-241 | a signcrypted chunk is accepted only under the header hash and nonce it was signed for, whatever boxes open to |
| Message.InputsApart | common.go:54-93 | attached, detached and signcryption signatures are never for the same input |
| Message.AcceptedIsSent | decrypt.go:264-290 | what a receiver accepts as block i is the sender's block i, in all modes |
| Message.VerifiedIsSent | verify_stream.go:100-102 | the same for signatures by a key that also signs other messages in all modes |
| Message.SignedBoxIsSent | signcrypt_open.go:213-241 | the same for signed signcryption, without trusting the box |
| Message.AnonymousBoxIsSent | signcrypt_open.go:228-238 | the same for an anonymous sender, trusting the box |
| Message.SentIsTrusted | encrypt.go:107-138 | the genuine packets meet the hypothesis of AcceptedIsSent and AuthenticatedPrefix |
| Message.MisplacedIsTrusted | decrypt.go:264-290 | a genuine packet at another place meets it too, if nothing collides within the session |
| Message.AuthenticatedPrefix | decrypt.go:43-67 | for any list of packets the bytes delivered are a prefix of the plaintext, and a clean end comes only after all of it |
| Message.RearrangedPrefix | decrypt.go:43-67 | genuine packets dropped, reordered or repeated deliver a prefix, and a clean end only after all of it |
| Message.SignaturesWrapAround | sign_stream.go:162-182 | beyond 2^64 signed blocks the tail passes for a whole message |
| Message.ReceiveAny | verify_stream.go:29-53 | the same through the streams, for all read sizes |
| EncryptionHeaders.MACKeysAgree | decrypt.go:246-262 | sender and receiver compute the same MAC key, given that boxes are symmetric |
| EncryptionHeaders.MACKeySays | encrypt.go:272-288 | what a MAC key is made of in both versions: boxes of zeroes under nonces that differ in a flag and spell the receiver's place |
| EncryptionHeaders.HeaderSays | encrypt.go:192-270 | what a header consists of; in version 2 the payload key boxes have pairwise different nonces, each spelling its receiver's place; a hidden receiver's key does not occur |
| EncryptionHeaders.CheckEncryptReceivers | encrypt.go:150-170 | no error if and only if there are receivers, not too many, and none twice |
| EncryptionHeaders.Init | encrypt.go:192-270 | no error if and only if the receivers are good and the randomness is enough; then the header packet and the MAC keys for the receivers in the order drawn |
| EncryptionReceivers.NamedAll | decrypt.go:114-122 | the compacted list has every named entry, in order |
| EncryptionReceivers.CollectNamed | decrypt.go:114-123 | the table maps each compacted index to its place in the header |
| EncryptionReceivers.TryHidden | decrypt.go:150-181 | a hit is a hidden entry that a key of the ring opens; a miss means that none does |
| EncryptionReceivers.DecryptStream.TryVisibleReceivers | decrypt.go:114-148 | looks the named keys up and opens the entry at the original place |
| EncryptionReceivers.DecryptStream.TryHiddenReceivers | decrypt.go:150-181 | counts the hidden entries and tries every key on each |
| EncryptionReceivers.DecryptStream.ProcessHeader | decrypt.go:183-244 | sets payload key, place, sender and MAC key, or fails at the first step that does |
| EncryptionReceivers.AcceptedHeader | decrypt.go:183-244 | an accepted header is of its type and a known version, its ephemeral key is trusted, one of its entries holds the payload key under a key of the ring, and the sender is known or the ephemeral key |
| EncryptionReceivers.RefusedHeader | decrypt.go:183-229 | exactly which headers are refused for their type, version or ephemeral key, and that only unknown senders are refused as such |
| EncryptionReceivers.DecryptStream.ReadHeader | decrypt.go:69-89 | the first packet's bytes are hashed, decoded and processed |
| EncryptionReceivers.NamedFound | decrypt.go:114-148 | a named receiver is found at its place in the sender's list |
| EncryptionReceivers.HiddenFound | decrypt.go:150-181 | a hidden receiver is found at its place, and a miss happens exactly when the ring has no such key |
| EncryptionReceivers.ReceiverAgrees | decrypt.go:183-244 | for any mix of receivers one with a key learns payload key, place, sender and MAC key as the sender used them; one without gets NoDecryptionKey |
| EncryptionReceivers.DecryptMessage | decrypt.go:302-331 | a genuine message opens to its plaintext for every receiver with a key |
| EncryptionReceivers.EncryptThenDecrypt | encrypt.go:381-404 | sending and receiving compose, whatever the shuffle, the Writes and the reads; sending succeeds if and only if receivers, randomness and number of blocks are as they must be |
| SigncryptionHeaders.DerivedKeysAgree | signcrypt_seal.go:105-112 | both sides derive the same key |
| SigncryptionHeaders.CheckReceiverCount | signcrypt_seal.go:194-217 | no error if and only if the total is between one and the maximum |
| SigncryptionHeaders.CheckSigncryptReceivers | signcrypt_seal.go:222-252 | no error if and only if the total is in range, no box key and no identifier occurs twice, and none is both; the error names a repeated one |
| SigncryptionHeaders.HeaderSays | signcrypt_seal.go:105-192 | what a header consists of: pairwise different nonces that spell the receivers' places, and each entry under the key derived for it |
| SigncryptionHeaders.Init | signcrypt_seal.go:285-350 | no error if and only if the receivers are good and the randomness is enough; then the header packet for both kinds of receivers in the order drawn |
| SigncryptionHeaders.TryBoxSecretKeys | signcrypt_open.go:76-110 | tries each entry's identifier against every derived key |
| SigncryptionHeaders.TrySharedSymmetricKeys | signcrypt_open.go:112-167 | opens the first entry whose key was resolved |
| SigncryptionHeaders.ProcessHeader | signcrypt_open.go:169-211 | box keys, then shared keys, then the sender's signing key |
| SigncryptionHeaders.AcceptedHeader | signcrypt_open.go:169-211 | an accepted header is of its type and version, one of its entries holds the payload key under a key of the ring or one that was resolved for it, and the sender is known, or zeroes and anonymous |
| SigncryptionHeaders.SigncryptionReceiverAgrees | signcrypt_open.go:169-211 | a receiver with either kind of key gets the sender's payload and signing key; one without gets NoDecryptionKey |
| SigncryptionHeaders.OpenMessage | signcrypt_open.go:277-289 | a genuine signcrypted message opens to its plaintext |
| SigncryptionHeaders.SigncryptThenOpen | signcrypt_seal.go:404-417 | signcrypting and opening compose likewise, with the same exact condition for sending |
| Random.Uint32n | rand.go:82-104 | returns the first accepted draw, so the early look at the low half never accepts one below the threshold |
| Random.DrawsForIff | rand.go:82-104 | the draws accepted for k are one interval |
| Random.UniformDraws | rand.go:82-104 | for every k below n exactly floor(2^32 / n) draws are accepted and mapped to k |
| Random.ChoicesReach | rand.go:113-130 | every permutation is reached by some choices |
| Random.ChoicesUnique | rand.go:113-130 | and by no others |
| Random.ShuffleBijection | rand.go:113-130 | permutations of distinct elements correspond one to one to choice sequences |
| Random.Shuffle | rand.go:113-130 | the array ends as the swaps of the drawn choices, a permutation even when randomness runs out |
| Random.ShuffleReceivers | encrypt.go:172-182 | the receivers in the order drawn, nothing lost or repeated, or an error exactly if the randomness runs out |
| Random.EveryOrder | rand.go:106-130 | for every permutation of a list of distinct elements there are draws that shuffle the list into it |
| Random.DrawsNeeded | rand.go:106-130 | a shuffle that succeeds takes a draw for every element but one |

## Left out

- Writers that fail: a Write that fails for that reason leaves the stream like one that overflows, with a block gone from
  the buffer, and Close goes on from there; only the overflow is modelled. A signing stream even takes further Writes.
- Randomness that fails other than by running out: the error is passed on.
- MessagePack bytes, `IsSaltpackBinarySlice` and the encoders of packets.go: packets are values, and decoding a value into
  another packet's structure is one error.
- Internals of NaCl, Ed25519, SHA-512 and HMAC: functions with the hypotheses named above.
- Floating-point rounding of the logarithms: see above.
- The regular-expression engine: the expressions are written out as functions on bytes.
- Blanks beyond ASCII in `strings.TrimSpace`; armored text with such bytes is rejected before it is trimmed.
- TrailingGarbage.GarbageIff: where a fault fills a read of 4096 bytes and its punctuation comes right behind, no split is
  given under which the text opens; that needs a read of the body that reaches beyond the footer. Frames of 8192 bytes and
  more, which only some splits accept, are not in it either.
- BasexDecoder.Decoder.Read: does not say which error ends a rejected input, since that depends on how it is split.
- The offset in `CorruptInputError` as reported by the streaming decoder, which without a filter is relative to a buffer.
- A source that returns data and an error in one call: the segment splitter does not scan such data.
- Detached signatures as a stream; their inputs occur in `Message.InputsApart`.
- The signature header's validation and version validators other than the check for known major versions; unknown
  versions end before a stream exists.
- An ephemeral key that a signcryption keyring cannot import is not checked by the source; in the model every key can be
  imported.
- `pop` and `shift` of frame.go: slices of a word list, written where they are used.
- The armored convenience functions, `IsSaltpackArmored`, `ClassifyStream` and the choice of a decoder from it: they
  combine what is modelled with buffered peeking.
- Calling Close twice or Write after Close, which the source leaves undefined.
