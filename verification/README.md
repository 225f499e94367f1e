# Verified model of fast-floe

fast-floe encrypts and decrypts messages in the FLOE segmented AEAD format. A message is a header of
74 bytes and a sequence of segments, each sealed under its position and finality. The library has
several independent encoders and decoders for this one format: one-shot functions, a push and a pull
encryptor over `std::io`, a pull decryptor, a random-access reader, online segment processing, and
states that encrypt segments in any order. This project models them in Dafny and proves that they
agree.

The pure part says what a message is. `ParameterSets` has layouts and framing, `Segments` has keys,
sealing and opening of one segment, and `Messages` has the printing and parsing of whole bodies with
their laws: round trip, self-delimitation, and agreement between reading prefixes and computing a
layout. `Authenticity` characterises acceptance by the provider's own answers, without those
definitions, and `Separation` says what keys and tags are bound to. The imperative part has the
objects that the library updates in place, as classes with the same fields: `Buffers`, `Randomness`,
`States`, `Online`, `EncryptWriters`, `EncryptReaders`, `DecryptReaders` and `RandomReaders`;
`OneShot` and `Wire` have the loops of `encrypt_body`, `decrypt_body` and `read_fully`. Every method
is proved against the pure functions. `Runs`, `WriteRuns`, `RandomRuns` and `Forks` quantify over
whole runs: any chunking, any buffer sizes, any pattern of short reads and interruptions, any
interleaving of random-access operations, any order of segments.

The environment is part of the statements. AEAD and key derivation are a value of `CipherSuite`:
four arbitrary functions that obey the laws `Lawful` (lengths, and opening undoes sealing), with a
trivial instance that shows these laws consistent. A key may be unusable: the provider refuses it.
The random generator is an unbounded byte stream whose fills may fail (`Randomness.Rng`). The
wrapped reader and writer are `Wire.Source` and `Wire.Sink`, which follow any finite script of short
reads, interruptions and failures, and after that work. Ghost fields record the history of an
object: the bytes accepted, delivered, opened, the nonces issued, the keys derived.

Two results differ from what one may expect. Re-planning the plaintext length of an accepted
ciphertext does not always give its layout: `ParameterSets.CiphertextThenPlaintextLayout` says
exactly when, and `ParameterSets.EmptyFinalExample` is such a case. And the encrypting writer does
not accept every plaintext that `encrypt` accepts. Every total below 2^40 payloads is accepted in
any chunks, and nothing above is; but a total of exactly 2^40 payloads is accepted only if the last
chunk is shorter than one payload, because a full chunk leaves as a non-final segment.
`WriteRuns.WriteStream` states this for whole runs, and `WriteRuns.LimitDependsOnChunks` writes one
plaintext in both ways.

## Model

| member | source | states |
|---|---|---|
| `ParameterSets.ParametersRoundTrip` | src/parameters.rs:605-636 | decoding an encoded parameter set returns it |
| `ParameterSets.ParametersDecodeExact` | src/parameters.rs:622-636 | the decoder accepts nothing but encodings: a byte string decodes to a set exactly when it is that set's encoding |
| `ParameterSets.ParametersOnWire` | src/parameters.rs:605-620 | an encoded parameter set is two zero bytes, the segment length and the number 32, each in four bytes with the most significant first |
| `ParameterSets.Parameters.PlaintextLayout` | src/parameters.rs:515-544 | a plan keeps every segment before the last full and has no needless empty segment; the segment limit is reported exactly above 2^40 payloads, and length overflow exactly when within that limit header, plaintext and framing exceed `u64` |
| `ParameterSets.Parameters.CiphertextLayout` | src/parameters.rs:554-602 | an accepted ciphertext length yields a valid layout; the unchecked products fit `u64` and the `LengthOverflow` exits cannot be taken |
| `ParameterSets.CiphertextRefusals` | src/parameters.rs:554-602 | a ciphertext with a body is refused exactly for more than 2^40 segments, or because what is behind the full ones is shorter than 32 bytes |
| `ParameterSets.FramingFits` | src/parameters.rs:567-596 | the framing of all segments never exceeds the body, which makes the subtraction safe |
| `ParameterSets.OffsetBounds` | src/parameters.rs:168-206 | the offsets of every segment of a valid layout stay below the message lengths, so the `u64` products cannot overflow |
| `ParameterSets.SegmentForPosition` | src/parameters.rs:168-206 | a segment exists exactly below the segment count |
| `ParameterSets.FinalSegment` | src/parameters.rs:122-125 | the lookup of the last position cannot fail, gives a final segment, and ends the ciphertext |
| `ParameterSets.LayoutTiles` | src/parameters.rs:156-206 | the segments tile plaintext and body without gap or overlap, and exactly the last one is final |
| `ParameterSets.OffsetLookup` | src/parameters.rs:211-213 | the position computed for a plaintext offset is the segment that contains it |
| `ParameterSets.PlaintextThenCiphertextLayout` | src/parameters.rs:515-602 | reading back the ciphertext length of a plan gives the same layout, for every accepted length |
| `ParameterSets.CiphertextThenPlaintextLayout` | src/parameters.rs:515-602 | re-planning an accepted ciphertext is the identity except exactly when several segments end with an empty payload; then the plan has one segment less |
| `ParameterSets.EmptyFinalExample` | src/parameters.rs:554-602 | the exception occurs: a full segment of 64 bytes and an empty final one are accepted, and the plan has one segment |
| `ParameterSets.SegmentFraming.Decode` | src/parameters.rs:350-380 | decoded framing names a payload that fits the parameters, a full one for non-final segments |
| `Segments.SegmentAadInjective` | src/state.rs:22-27 | associated data determines position and finality |
| `Segments.SegmentAadOnWire` | src/state.rs:22-27 | associated data is eight bytes of position, the most significant first, and a byte that is 1 exactly for a final segment |
| `Segments.SegmentOnWire` | src/state.rs:344-419 | a segment is 2^32 - 1 or its own length in four bytes, the nonce, and what the provider seals with the key of the position and this associated data |
| `Segments.HeaderOnWire` | src/state.rs:1138-1173 | a header is the parameters in 10 bytes, the IV in 32, and the tag in 32 |
| `Segments.UsableKeys` | src/state.rs:144-156 | a segment key has 32 bytes that the backend takes; below 2^40 only the backend can refuse one, and from there on the limit is reported |
| `Separation.SegmentKeysSeparate` | src/state.rs:1270-1285 | two segment keys agree under every provider exactly for the same message key, parameters, IV and AAD and positions in the same stretch of 2^20 |
| `Separation.MessageKeysSeparate` | src/state.rs:1257-1268 | two message keys agree under every provider exactly for the same key, AAD, parameters and IV |
| `Separation.HeadersSeparate` | src/state.rs:1192-1255 | a header with the tag of another message is refused for its tag under some provider exactly if key, AAD, parameters or IV differ |
| `Separation.PurposesSeparate` | src/state.rs:1246-1268 | header tags and message keys are never derived from the same info |
| `Segments.CiphertextSegmentSize` | src/state.rs:289-311 | exactly full non-final and at most full final payloads have a segment size, within the parameters |
| `Segments.FastValidationRefinesSlow` | src/state.rs:422-479 | checking a length against decoded framing accepts exactly what the full validation accepts for that kind, with the same payload length |
| `ByteStrings.BigEndianBytes` | src/state.rs:405-419 | each byte of an encoded number is its digit at that place, the most significant first |
| `Segments.FramingPrintParse` | src/state.rs:405-419 | the framing decoder reads back what the framing writer prints |
| `Segments.OpenSealed` | src/state.rs:344-369 | a sealed segment opens to its payload at its position and kind |
| `Segments.HeaderAccepted` | src/state.rs:1182-1244 | a header is accepted exactly when it is the one an encryptor with the same key, AAD, IV and required parameters writes and the first key derives; the context is then the encryptor's (what the tag is bound to is `Separation.HeadersSeparate`) |
| `Messages.DecodeFrame` | src/online.rs:580-614 | the segment-by-segment reading of a message at the front of a stream stays within the stream |
| `Messages.FrameIgnoresSuffix` | src/online.rs:580-614 | what follows a message does not change how it reads |
| `Messages.SelfDelimiting` | src/online.rs:580-614 | an acceptable body has no acceptable proper prefix or extension |
| `Messages.MessageSelfDelimiting` | src/online.rs:557-578 | the same for complete ciphertexts, under any key, AAD and required parameters |
| `Messages.FrameLength` | src/online.rs:580-614 | a readable message uses 32 bytes of framing for each segment, stays within 2^40 segments, and fixes the segment count by its length |
| `Messages.SplitsTwoWays` | src/io.rs:230-245 | a plaintext can be framed in its canonical way only, or, if it is a positive multiple of the payload, in full segments and an empty final one |
| `Messages.RunReads` | src/online.rs:580-614 | the segments opened from the front say what the message is: closed they are the message, open they leave the rest of it to be read at the next position |
| `Messages.FrameIsClosedRun` | src/online.rs:580-614 | a message is read exactly when some run of segments, each opened at its own position, closes with a final one |
| `Messages.RunExtends` | src/online.rs:580-614 | opening more segments only extends the plaintext, and nothing follows a final segment |
| `Messages.StepProgress` | src/online.rs:580-614 | one opened segment makes the run one segment longer, closes it, or, at the limit, ends it without a message |
| `Messages.StuckProgress` | src/online.rs:580-614 | where a segment does not open the run ends and there is no message |
| `Messages.EncodingFrontToBack` | src/online.rs:507-549 | a body is the run of its first segments followed by the rest |
| `Messages.DecodeSealed` | src/online.rs:580-614 | the parser takes a sealed segment off the front of a stream and goes on behind it |
| `Messages.EncodingDecodes` | src/online.rs:507-614 | every framing of a plaintext decodes to it, whatever follows |
| `Messages.EncodingLength` | src/parameters.rs:515-544 | the canonical encoding has the ciphertext length that was planned |
| `Messages.MessageRoundTrip` | src/online.rs:502-614 | header and body written under a key and AAD open to the plaintext, whichever way it was framed |
| `Messages.FullSegmentAgrees` | src/random_access.rs:276-323 | at a non-final position of the layout, the prefix-driven step and the layout-driven opening agree |
| `Messages.LastSegmentAgrees` | src/random_access.rs:145-174 | the same at the last position |
| `Messages.PrefixesAgreeWithLayout` | src/online.rs:580-614 | from any position on, the prefixes of a body lead through the segments of its layout exactly when all of these open |
| `Messages.AcceptableHasLayout` | src/parameters.rs:554-602 | every body that reads as one message has an accepted layout |
| `Messages.DecodersAgree` | src/random_access.rs:145-174 | prefix-driven and layout-driven decoding accept the same bodies with the same plaintext |
| `Authenticity.SegmentAnswered` | src/state.rs:482-517 | a segment opens to a plaintext exactly when the provider opens its bytes 16 and up under the key of its position, its nonce and its associated data; a refusal is reported as unauthentic |
| `Authenticity.CheckedAnswer` | src/state.rs:422-517 | a layout-driven opening succeeds exactly when the framing is right for the place and the provider opens the segment |
| `Authenticity.OpenAtAnswer` | src/random_access.rs:406-431 | the same for a position of a body |
| `Authenticity.RunIsAnswered` | src/online.rs:580-614 | of a stream that starts with well-framed segments, what is opened is exactly what the provider answers for each at its position, and nothing if it refuses one |
| `Authenticity.RunExactly` | src/io.rs:797-881 | a run of segments opens exactly when the stream starts with well-framed segments that the provider opens, and to their plaintext |
| `Authenticity.AcceptsExactly` | src/online.rs:580-614 | a body is accepted with a plaintext exactly when it is cut into well-framed segments, the last one final, that the provider opens to it |
| `Authenticity.RefusedMessage` | src/online.rs:580-614 | one segment of a body that the provider refuses is enough to refuse the message |
| `Authenticity.AnswerIsSlice` | src/online.rs:580-614 | the provider's answer for each segment is the slice of the plaintext at its place |
| `Authenticity.OpensExactly` | src/online.rs:557-578 | the same for complete ciphertexts with their header |
| `Messages.OpenedSlice` | src/random_access.rs:276-323 | every opened segment is the slice of the plaintext that its layout names |
| `CipherSuites.TransparentIsLawful` | src/backends.rs:500-632 | the laws asked of the cryptographic provider can be met together |
| `Buffers.SegmentBuffer.Plaintext` | src/buffer.rs:99-111 | the payload is readable exactly in the plaintext state, and in bounds |
| `Buffers.SegmentBuffer.Ciphertext` | src/buffer.rs:114-119 | the segment is readable exactly in the ciphertext state, and in bounds |
| `Buffers.SegmentBuffer.PreparePlaintext` | src/buffer.rs:64-78 | exactly payloads that fit are prepared; a refusal leaves the state |
| `Buffers.SegmentBuffer.PrepareCiphertext` | src/buffer.rs:87-91 | exactly valid segment lengths are prepared; a refusal leaves the state |
| `Buffers.SegmentBuffer.Clear` | src/buffer.rs:122-125 | every byte is zero and the state empty |
| `Buffers.SegmentBuffer.ExtendPlaintext` | src/buffer.rs:146-157 | as much of the input as fits is appended to the payload held; a buffer without payload starts a new one |
| `Buffers.SegmentBuffer.TruncatePlaintext` | src/buffer.rs:162-172 | a payload shrinks to a prefix and never grows |
| `Buffers.SegmentBuffer.CompleteDecryption` | src/buffer.rs:189-203 | success keeps the authenticated payload; any failure leaves only zeros and the empty state |
| `Randomness.NonceGenerator.Next` | src/state.rs:250-286 | byte i of the k-th nonce is byte 12k + i of the random stream over any number of refills; a failed refill issues nothing, now or later |
| `States.KeyCache.KeyForPosition` | src/state.rs:215-248 | whatever is cached, the answer is that of a fresh derivation, including its errors (`Separation.SegmentKeysSeparate` says which positions share it); counts the derivations |
| `States.DerivationsGrow` | src/state.rs:229-247 | a position costs a derivation exactly when it changes the key held |
| `States.InOrderDerivations` | src/state.rs:215-248 | an in-order run of n segments derives ceil(n / 2^20) keys, and at least one |
| `States.EncryptionState.Fork` | src/state.rs:811-817 | a fork shares the message context and starts with an empty cache and its own generator |
| `States.EncryptionState.EncryptSegmentIntoAt` | src/state.rs:344-369 | the segment written depends on context, position, kind, payload and nonce only, never on the cache; every failure has its cause, and touches nothing outside the given output |
| `States.EncryptionState.EncryptSegmentInto` | src/state.rs:631-639 | the same for a segment of a layout, whose parameters and payload length must match |
| `States.EncryptionState.WriteSegmentFraming` | src/state.rs:405-419 | prefix and nonce are written and the payload region is untouched |
| `States.EncryptionState.EncryptSegmentInPlaceAt` | src/state.rs:661-691 | the payload in the buffer is replaced by its sealed segment; once the buffer is known to fit, every failure wipes it |
| `States.EncryptionState.EncryptSegmentInPlaceRawAt` | src/state.rs:372-400 | the payload in caller-managed storage is replaced by its sealed segment; what lies behind is untouched |
| `States.FailureCause` | src/state.rs:317-341 | with a fitting payload and enough room only the random generator or the key can fail |
| `States.DecryptionState.Start` | src/state.rs:1182-1244 | decryption starts exactly when the header is accepted and the first key derives, so under `Separation.HeadersSeparate` not with the tag of another message |
| `States.DecryptionState.OpenSegmentFrom` | src/state.rs:482-517 | opening with a cached key gives what the provider opens with the key of the position, and reports a refusal as unauthentic |
| `States.DecryptionState.DecryptSegmentAtFramed` | src/state.rs:1012-1030 | the allocating form returns the framed opening |
| `States.DecryptionState.DecryptSegmentIntoAtFramed` | src/state.rs:1051-1068 | with room, the form with caller output returns the framed opening and writes exactly its plaintext |
| `States.DecryptionState.DecryptSegmentInto` | src/state.rs:882-895 | the layout-driven form returns the validated opening and writes exactly its plaintext |
| `States.DecryptionState.DecryptSegmentInPlace` | src/state.rs:910-928 | the in-place form returns the validated opening, and wipes the buffer on every failure |
| `States.DecryptionState.DecryptSegmentInPlaceAtFramed` | src/state.rs:933-953 | the framed in-place form returns the framed opening |
| `Online.SegmentCounter.PositionFor` | src/online.rs:46-55 | positions are handed out as 0, 1, 2, ..., the last one only to a final segment and none after it; a final segment is never refused for the limit |
| `Online.SegmentCounter.Complete` | src/online.rs:57-62 | each success extends the history by one segment |
| `Online.SegmentCounter.Finish` | src/online.rs:64-70 | finishing succeeds exactly after non-final segments and one final one |
| `Online.Encryptor.New` | src/state.rs:1138-1173 | the header, context and nonces are those of the next bytes of the random stream |
| `Online.RandomnessOnWire` | src/state.rs:1138-1173 | the next 32 bytes of the random stream are the IV in the header, and the nonces are the groups of twelve behind them |
| `Online.Encryptor.EncryptNonFinalSegmentInto` | src/online.rs:229-240 | a success seals at the next position and advances by one; a failure keeps the position and has its cause |
| `Online.Encryptor.EncryptNonFinalSegmentInPlace` | src/online.rs:245-252 | a payload in a buffer is sealed at the next position; a failure keeps the position and has its cause, and leaves the buffer wiped or, if it had no usable payload or no position, as it was |
| `Online.Encryptor.EncryptFinalSegmentInto` | src/online.rs:278-292 | the final segment is sealed at the position reached; a failure leaves the encryptor usable at it |
| `Online.Encryptor.EncryptFinalSegmentInPlace` | src/online.rs:296-303 | a final payload in a buffer is sealed at the position reached; failures as for non-final segments, and the encryptor stays usable |
| `Online.Decryptor.New` | src/online.rs:329-359 | a decryptor exists exactly for accepted headers and starts at position 0 |
| `Online.Decryptor.DecryptSegment` | src/online.rs:408-419 | returns the step of the protocol; only success uses up a position |
| `Online.Decryptor.DecryptSegmentIntoFramed` | src/online.rs:430-448 | the same with caller output and decoded framing |
| `Online.Decryptor.DecryptSegmentInPlace` | src/online.rs:450-465 | the same in a buffer, which every failure wipes |
| `OneShot.LayoutChunks` | src/online.rs:514-549 | the segments of a plan are the chunks of the canonical encoding |
| `OneShot.WrittenGrows` | src/online.rs:514-549 | each planned segment extends the message by its sealed bytes at its planned offset |
| `OneShot.EncryptBody` | src/online.rs:507-549 | writes header and canonical encoding into one allocation of the planned length; fails only for the layout, the random generator or a key |
| `OneShot.Encrypt` | src/online.rs:502-505 | returns the canonical message of the random stream, which opens to the plaintext; with a working generator it succeeds exactly when there is a plan and every segment has a key |
| `OneShot.DecryptFrontSegment` | src/online.rs:584-611 | plaintext, 32 bytes a segment and the remaining body add up to the body, so the reserved capacity suffices; the plaintext gathered is always that of the segments opened |
| `OneShot.DecryptBody` | src/online.rs:580-614 | succeeds exactly on bodies that are one message, with its plaintext |
| `OneShot.Decrypt` | src/online.rs:557-578 | succeeds with a plaintext exactly when the header is accepted and the provider opens every segment of the body, at its place, to it |
| `OneShot.SplitHeader` | src/wire.rs:5-13 | a ciphertext splits exactly when it has a whole header |
| `Wire.ReadFully` | src/wire.rs:38-49 | through short reads and interruptions the output is filled with the next bytes of the source, and stops early only at its end |
| `Wire.ReadHeader` | src/wire.rs:15-23 | returns the next 74 bytes, or fails because there are fewer |
| `Wire.ReadExactSegment` | src/wire.rs:25-36 | fills the segment from the source, or fails because there is less |
| `EncryptWriters.EncryptWriter.New` | src/io.rs:136-147 | writes the header of a new message to the sink; a failure leaves a front of it there |
| `EncryptWriters.EncryptWriter.EmitNonFinal` | src/io.rs:247-260 | a full buffer leaves as the next segment with all accepted bytes accounted for; a failure poisons, and adds to the sink a front of that sealed segment, or nothing if encryption failed |
| `EncryptWriters.EncryptWriter.WriteSegmentDirect` | src/io.rs:266-281 | a chunk that bypasses the staging area becomes the next segment, with the same accounting and the same bound on failures |
| `EncryptWriters.EncryptWriter.Write` | src/io.rs:285-316 | accepts all that fits before the next segment boundary, at least one byte; adds exactly the sealed segments this fills to the sink, or on failure a front of them; without I/O, random or key failures it succeeds exactly while these leave a position for the final segment; in every state the sink holds a front of a message, and nothing reaches it after a failure |
| `EncryptWriters.EncryptWriter.WriteBehindFull` | src/io.rs:308-316 | behind a full buffer, one or two segments are emitted with the same bounds |
| `EncryptWriters.EncryptWriter.WhichFit` | src/io.rs:285-316 | a piece of input fits into the message exactly when the segments its first write emits have positions and the rest of it still fits |
| `EncryptWriters.EncryptWriter.WriteAll` | src/io.rs:285-316 | repeated writes terminate with all input accepted, or with a prefix of it and an unusable writer; in a working environment they succeed exactly when the total stays below 2^40 payloads, or reaches it with a piece shorter than one |
| `EncryptWriters.EncryptWriter.Flush` | src/io.rs:326-331 | emits nothing; unless the writer has failed, succeeds exactly when the sink flushes, and then all that was written is flushed |
| `EncryptWriters.EncryptWriter.FinishMessage` | src/io.rs:230-245 | the framing is canonical exactly when bytes were held back or none were accepted; otherwise an empty final segment follows full ones; success means that the whole message is flushed; a failure adds a front of the final segment, or nothing if encryption failed |
| `EncryptWriters.EncryptWriter.TryFinish` | src/io.rs:189-196 | succeeds exactly into the finished state, where the sink holds one complete message of the accepted bytes and has flushed it; a failing flush is a failure; repeating it writes nothing |
| `EncryptReaders.EncryptReader.New` | src/io.rs:377-391 | starts the message a one-shot encryption of the rest of the source would write |
| `EncryptReaders.EncryptReader.FillPlaintext` | src/io.rs:472-503 | gathers the next payload through any short reads, and by the byte read ahead tells exactly whether it is the last |
| `EncryptReaders.EncryptReader.NextPayload` | src/io.rs:446-503 | a payload followed by more is the next chunk of the canonical encoding, and one followed by nothing is its last |
| `EncryptReaders.EncryptReader.ProducedPrefix` | src/io.rs:438-535 | what has been produced is a prefix of the message |
| `EncryptReaders.EncryptReader.TryLoadSegment` | src/io.rs:446-467 | the buffered path produces the next segment |
| `EncryptReaders.EncryptReader.TryEmitSegmentDirect` | src/io.rs:515-537 | the direct path delivers the same segment |
| `EncryptReaders.EncryptReader.Read` | src/io.rs:541-575 | deliveries are always a prefix of the one-shot message, and an empty one means that it is complete; errors are absorbing |
| `DecryptReaders.DecryptReader.New` | src/io.rs:606-646 | starts behind the header; fails without a device failure only when the header is missing or refused |
| `DecryptReaders.DecryptReader.GetMut` | src/io.rs:671-677 | handing out the source withdraws a verified end of stream |
| `DecryptReaders.DecryptReader.FetchSegment` | src/io.rs:815-840 | the next segment of the stream is in the buffer, or none is there to be opened |
| `DecryptReaders.DecryptReader.FinishIfFinal` | src/io.rs:843-853 | after the final segment the protocol has closed, so its own check cannot fail |
| `DecryptReaders.DecryptReader.Account` | src/io.rs:797-881 | an opened segment extends the run of opened segments by one at its position, and a final one closes it |
| `DecryptReaders.DecryptReader.TryLoadSegment` | src/io.rs:797-812 | the buffered path opens the next segment of the stream and consumes exactly its bytes; without a device failure it fails only when that segment does not open |
| `DecryptReaders.DecryptReader.TryReadSegmentDirect` | src/io.rs:865-881 | the direct path delivers the same plaintext and fails alike |
| `DecryptReaders.DecryptReader.Read` | src/io.rs:885-923 | on every stream, in every state, deliveries are a prefix of the plaintext of segments that opened at their positions; an empty one comes only after the final segment has been opened and all of it delivered; a failure comes only when all opened plaintext is delivered and, without a device failure, the next segment does not open; errors are absorbing |
| `DecryptReaders.DecryptReader.DrainMessage` | src/io.rs:774-787 | terminates, and ends at the final segment or with a failure that says that there is no message |
| `DecryptReaders.DecryptReader.TryFinish` | src/io.rs:702-731 | succeeds exactly when the source, which must not have been moved, is one message and nothing else |
| `DecryptReaders.DecryptReader.TryFinishFrame` | src/io.rs:739-741 | leaves the source exactly behind the final segment of the message |
| `RandomAccess.SegmentIsRange` | src/random_access.rs:276-323 | part of an opened segment is the plaintext at its place |
| `RandomAccess.RangesJoin` | src/random_access.rs:276-323 | adjacent ranges join |
| `RandomAccess.RangeIsReadable` | src/random_access.rs:276-323 | what can be read as a range overlaps no segment that does not open |
| `RandomAccess.RangeOfMessage` | src/random_access.rs:276-323 | of a ciphertext that opens as a whole, every range read is the slice of its one plaintext |
| `RandomAccess.WholeRangeAccepts` | src/random_access.rs:145-174 | if the final segment opens and the whole plaintext was read as one range, the body is exactly one message with it |
| `RandomAccess.ResolveBounds` | src/random_access.rs:500-523 | any range form resolves to exactly the offsets inside its bounds, or is refused |
| `RandomAccess.HalfOpenRange` | src/random_access.rs:500-523 | exactly the half-open ranges within the plaintext are accepted |
| `RandomAccess.RangeForms` | src/random_access.rs:500-523 | every other range form stands for a half-open one, unless its end is beyond `u64` |
| `RandomAccess.ReadableExactly` | src/random_access.rs:447-469 | one read goes to the next multiple of the segment payload or to the end of the plaintext |
| `RandomReaders.Reader.SeekInnerTo` | src/random_access.rs:366-374 | the source is at the offset, whether or not the seek was skipped; after a failure the position is no longer trusted |
| `RandomReaders.Reader.FetchSegmentCiphertext` | src/random_access.rs:386-404 | the scratch buffer holds the ciphertext at the place in the source that the layout names, and the cache is forgotten first |
| `RandomReaders.Reader.LoadSegment` | src/random_access.rs:406-416 | the cache then names a segment whose plaintext is really in the scratch buffer; a failure leaves it empty |
| `RandomReaders.Reader.LoadCachedSegment` | src/random_access.rs:376-384 | a hit needs no source, and both ways end with the segment cached |
| `RandomReaders.Reader.DecryptSegmentDirect` | src/random_access.rs:418-431 | opens straight into the output, with both remembered facts kept true |
| `RandomReaders.Reader.FromParts` | src/random_access.rs:145-174 | a reader exists only when the layout is accepted, the source holds the message and its final segment opens |
| `RandomReaders.Reader.New` | src/random_access.rs:58-77 | without device failures a reader opens exactly when the header is accepted, the length has a layout and the final segment opens; what it refuses is no message |
| `RandomReaders.Reader.NewWithLength` | src/random_access.rs:105-125 | the same for a message of a given length that other data may follow |
| `RandomReaders.Reader.ReadSegment` | src/random_access.rs:212-220 | returns the opened segment, in every state of the cache |
| `RandomReaders.Reader.ReadSegmentInto` | src/random_access.rs:226-240 | the same into caller output, untouched behind the plaintext |
| `RandomReaders.Reader.ReadResolvedRangeInto` | src/random_access.rs:276-323 | mixing direct and cached segments reads exactly the range; a failure without device failure means that a segment overlapping it does not open |
| `RandomReaders.Reader.ReadRangeInto` | src/random_access.rs:263-274 | the same for any range form |
| `RandomReaders.Reader.ReadRange` | src/random_access.rs:245-258 | the same into new storage |
| `RandomReaders.Reader.GetMut` | src/random_access.rs:335-338 | however the caller moves the source, the reader stays valid |
| `RandomReaders.Reader.Read` | src/random_access.rs:447-469 | reads the plaintext from the position to the end of its segment or of the output, and moves behind it; reads nothing exactly at the end |
| `RandomReaders.Reader.Seek` | src/random_access.rs:477-493 | moves exactly to representable targets, beyond the end included: the offset itself, the plaintext length plus a delta, or the old position plus a delta |
| `RandomReaders.FinalMustOpen` | src/random_access.rs:145-174 | what the constructor refuses is no message |
| `Runs.DecryptStream` | src/io.rs:885-923 | over every buffer size, short read and interruption, reading to the end and finishing is one-shot decryption, and only a device failure can differ; on every stream, damaged ones included, what the caller got is the plaintext of exactly the segments at its front that open, or of some of them if the device failed |
| `Runs.DecryptSeekable` | src/random_access.rs:245-323 | reading everything as one range is one-shot decryption; only a device failure can differ |
| `Runs.ThreeDecoders` | src/online.rs:557-578 | the three decoders accept the same ciphertexts with the same plaintext |
| `Runs.EncryptStream` | src/io.rs:541-575 | over every buffer size and source chunking, reading to the end is one-shot encryption; without failures it succeeds exactly when every segment has a position and a key |
| `Runs.EncryptorsAgree` | src/online.rs:502-549 | streaming and one-shot encryption write the same bytes from the same random stream; without failures only the `u64` overflow of the plan makes the one-shot form fail alone |
| `WriteRuns.WriteStream` | src/io.rs:189-316 | for every chunking the sink holds a message that opens to the concatenation, in the framing that the chunks decide; in a working environment it succeeds exactly when the chunks make up less than 2^40 payloads, or exactly as much with a last chunk shorter than one |
| `WriteRuns.FramedCount` | src/io.rs:230-316 | the number of non-final segments that the chunks decide splits their concatenation |
| `WriteRuns.EmittedFor` | src/io.rs:247-316 | at every point the writer has emitted as many segments as the chunks so far decide |
| `WriteRuns.LimitDependsOnChunks` | src/io.rs:285-316 | of a plaintext of 2^40 payloads, runs of the writer refuse it whole and accept it without its last byte first, although a plan for it exists |
| `RandomRuns.Ask` | src/random_access.rs:212-493 | the demands of an abstract machine over layout and plaintext position: ranges are in order and, unless empty, inside the plaintext |
| `RandomRuns.Perform` | src/random_access.rs:212-493 | every operation delivers exactly the bytes demanded and moves the position as the machine does; without a device failure it fails exactly when the demand is refused or a segment of the range does not open, and a failure leaves the position |
| `RandomRuns.RandomRun` | src/random_access.rs:58-493 | over every ciphertext and every interleaving of reads, seeks, ranges, repositioning and failures there is one answer for each operation, the one demanded at the position its predecessors left; opening is refused exactly when header, length or final segment demand it |
| `RandomRuns.WholeMessageAnswers` | src/random_access.rs:212-493 | where the whole message opens, an answer is the demanded slice of its plaintext, and without a device failure only refused demands have none |
| `RandomRuns.SeeksCompose` | src/random_access.rs:477-493 | seeking by nothing keeps the position, relative seeks add up, and seeking from the end is seeking to the length plus the delta |
| `RandomRuns.SeekAndDrain` | src/random_access.rs:447-493 | after a seek, reading to the end in any buffer sizes delivers the plaintext from the target on: after a seek to k bytes before the end, the last k bytes |
| `Runs.KeysFor` | src/state.rs:215-248 | over every sequence of positions the cached keys are the fresh ones, and derivations count the changes of key |
| `Runs.KeysInOrder` | src/state.rs:215-248 | n segments in order derive one key for each 2^20 or part of them |
| `Forks.ForkAll` | src/state.rs:811-817 | forks over distinct generators are independent states of one message |
| `Forks.Apart` | src/parameters.rs:168-206 | segments at different positions do not touch |
| `Forks.AssembledFront` | src/state.rs:344-400 | segments sealed at their places, in whatever order, make up the front of the canonical message |
| `Forks.EncryptPosition` | src/state.rs:631-639 | one state seals one position in its place and changes nothing elsewhere |
| `Forks.StaysSealed` | src/state.rs:631-639 | a segment sealed earlier stays when another is sealed |
| `Forks.EncryptInAnyOrder` | src/state.rs:579-818 | encrypting each position once, in any order over any number of states, gives a message that opens to the plaintext; with working generators it succeeds exactly when every segment has a key |
| `Forks.EncryptSegmentsInAnyOrder` | src/state.rs:579-818 | the segments, behind any header, are in position order the canonical encoding under the nonces that were used |

## Left out

- Cryptography: the providers of `src/backends.rs`, their dispatch, HKDF-Expand and AES-GCM are the abstract functions of `CipherSuites`; secrecy and unforgeability are not modelled.
- Keys are byte strings; key generation, import and export of `src/key.rs` are not modelled.
- Zeroization on drop, constant-time comparison of tags and redacted `Debug` output; only the explicit wipes of the segment buffer are modelled.
- `io::Error` kinds and messages, `Display`, `FinishError` and `FinalEncryptError`: errors are the plain datatypes of `Failures`, and a consuming form that hands its object back is the form that borrows it.
- Ownership: an encryptor taken by its final segment is `null` afterwards, and `take()` failures and `expect` exits that cannot happen are proved absent instead of modelled.
- Closures: the operations passed to `decrypt_with`, `advance`, `finalize` and `poison_on_error` are written out at their places.
- Threads, `Arc`, `Send` and `Sync`: forks are separate objects over one immutable context, each with its own random generator.
- The allocating encryption forms and the raw in-place layout forms of the low-level states, which wrap the modelled ones.
- The `Segments` iterator and plain accessors; `LayoutTiles` speaks about the positions directly.
- The rotation mask is written as arithmetic on multiples of 2^20, and the mask for tests is not modelled.
- 32-bit `usize`; lengths of memory are unbounded, and lengths of messages are bounded by `u64` as in the source.
- Sources whose bytes change while in use, or that report more than they deliver; the library documents that they must not.
- DecryptReaders.DecryptReader.GetMut: hands out the source of an open reader too, but moving the source before the message has been read is outside the invariant, as the library documents.
- Runs.ThreeDecoders: compares complete runs over sources that do not fail; with failures, `DecryptStream` and `DecryptSeekable` say that only a device failure can make a difference.
- Sinks: `write_all` and `flush` of the wrapped writer are single steps that may accept a prefix and fail.
- Deltas of relative seeks are unbounded integers instead of `i64`.
