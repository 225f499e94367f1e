/** Whole runs of the encrypting writer: any chunks written, then the message finished (src/io.rs:136-332). */
module WriteRuns {
  import opened ByteStrings
  import opened Failures
  import opened Arithmetic
  import opened ParameterSets
  import opened CipherSuites
  import opened Segments
  import opened Messages
  import opened Randomness
  import opened Buffers
  import opened States
  import opened Online
  import opened Wire
  import opened EncryptWriters
  import opened Runs

  function Concat(chunks: seq<Bytes>): Bytes {
    if chunks == [] then [] else Concat(chunks[..|chunks| - 1]) + chunks[|chunks| - 1]
  }

  /** The length of the last chunk that is not empty. */
  function LastLength(chunks: seq<Bytes>): nat {
    if chunks == [] then 0
    else if chunks[|chunks| - 1] != [] then |chunks[|chunks| - 1]|
    else LastLength(chunks[..|chunks| - 1])
  }

  /** The chunks make up less than 2^40 payloads, or exactly as much with a last chunk shorter than one
      payload. */
  ghost predicate ChunksFit(parameters: Parameters, chunks: seq<Bytes>) {
    FitsLimit(parameters, |Concat(chunks)|, 0)
    && (|Concat(chunks)| == Times(MAX_SEGMENTS, parameters.PlaintextSegmentLength()) ==>
          LastLength(chunks) < parameters.PlaintextSegmentLength())
  }

  /** The number of non-final segments that the writer emits: every whole payload if the last chunk
      had one, and as a layout plans them if it had not. */
  function FramedCount(parameters: Parameters, chunks: seq<Bytes>): (r: nat)
    ensures Splits(parameters, Concat(chunks), r)
  {
    var p := parameters.PlaintextSegmentLength();
    QuotientBounds(|Concat(chunks)|, p);
    if LastLength(chunks) >= p then Quotient(|Concat(chunks)|, p) else CanonicalNonFinal(parameters, Concat(chunks))
  }

  lemma {:induction false} FrontLengths(chunks: seq<Bytes>, count: nat)
    requires count <= |chunks|
    ensures |Concat(chunks[..count])| <= |Concat(chunks)|
    ensures |Concat(chunks[..count])| == |Concat(chunks)| ==> LastLength(chunks) == LastLength(chunks[..count])
    decreases |chunks| - count
  {
    if count == |chunks| {
      assert chunks[..count] == chunks;
    } else {
      FrontLengths(chunks, count + 1);
      assert chunks[..count + 1][..count] == chunks[..count];
    }
  }

  /** One chunk more. */
  lemma ChunkAdded(chunks: seq<Bytes>, i: nat)
    requires i < |chunks|
    ensures Concat(chunks[..i + 1]) == Concat(chunks[..i]) + chunks[i]
    ensures LastLength(chunks[..i + 1]) == if chunks[i] != [] then |chunks[i]| else LastLength(chunks[..i])
  {
    assert chunks[..i + 1][..i] == chunks[..i];
  }

  /** The chunks up to one that did not fit do not fit, nor do all of them. */
  lemma Overfull(parameters: Parameters, chunks: seq<Bytes>, i: nat)
    requires i < |chunks| && FitsLimit(parameters, |Concat(chunks[..i])|, 0)
    requires !FitsLimit(parameters, |Concat(chunks[..i])|, |chunks[i]|)
    ensures !ChunksFit(parameters, chunks)
  {
    ChunkAdded(chunks, i);
    FrontLengths(chunks, i + 1);
  }

  /** No write and no flush is going to fail. */
  ghost predicate Willing(writeScript: seq<WriteEvent>, flushScript: seq<bool>) {
    (forall i :: 0 <= i < |writeScript| ==> writeScript[i].Accept?) && false !in flushScript
  }

  /** Neither the sink nor the random generator fails, and every key is usable. */
  ghost predicate Unhindered(
    suite: CipherSuite, key: Bytes, aad: Bytes, parameters: Parameters,
    writeScript: seq<WriteEvent>, flushScript: seq<bool>, stream: ByteStream, fills: seq<FillEvent>)
  {
    && Willing(writeScript, flushScript) && Steady(fills)
    && KeysBefore(MessageContextAt(suite, key, aad, parameters, stream, 0), MAX_SEGMENTS)
  }

  lemma ReliableSink(sink: Sink)
    ensures Willing(sink.writeScript, sink.flushScript) ==> sink.Reliable()
  {
  }

  lemma FirstOfAllKeys(context: MessageContext)
    ensures KeysBefore(context, MAX_SEGMENTS) ==> SegmentKey(context, 0).Ok?
  {
    hide SegmentKey;
  }

  /** The message that the writer makes of these chunks. */
  function ChunkedMessage(suite: CipherSuite, key: Bytes, aad: Bytes, parameters: Parameters, stream: ByteStream, chunks: seq<Bytes>): Bytes {
    MessageHeader(suite, key, aad, parameters, stream, 0) +
    Encoding(MessageContextAt(suite, key, aad, parameters, stream, 0), MessageNonces(stream, 0), Concat(chunks), FramedCount(parameters, chunks))
  }

  /** Where the writer stands after some chunks. */
  ghost predicate Standing(writer: EncryptWriter, chunks: seq<Bytes>)
    requires writer.buffer.Valid()
    reads writer, writer.buffer, writer.buffer.bytes
  {
    && writer.accepted == Concat(chunks)
    && FitsLimit(writer.context.parameters, |writer.accepted|, 0)
    && (|writer.accepted| == Times(MAX_SEGMENTS, writer.context.parameters.PlaintextSegmentLength()) ==>
          LastLength(chunks) < writer.context.parameters.PlaintextSegmentLength())
    && (writer.accepted != [] ==> writer.LastPiece(LastLength(chunks), |writer.Held()|))
  }

  method WriteChunk(writer: EncryptWriter, chunks: seq<Bytes>, i: nat) returns (r: IoResult<()>)
    requires writer.Valid() && writer.status.Open?
    requires i < |chunks| && Standing(writer, chunks[..i])
    modifies writer.Repr
    ensures writer.Valid() && writer.inner.flushScript == old(writer.inner.flushScript)
    ensures r.Ok? ==> writer.status.Open? && Standing(writer, chunks[..i + 1])
    ensures old(writer.Able()) ==> if r.Ok? then writer.Able() else !ChunksFit(writer.context.parameters, chunks)
  {
    hide EncryptWriter.Writing, EncryptWriter.Able, Times, SegmentBuffer.Plaintext;
    ChunkAdded(chunks, i);
    if !writer.Fits(|writer.accepted|, |chunks[i]|) {
      Overfull(writer.context.parameters, chunks, i);
    }
    r := writer.WriteAll(chunks[i]);
  }

  /** What has been emitted for the chunks, by what they left in the buffer. */
  lemma EmittedFor(writer: EncryptWriter, chunks: seq<Bytes>)
    requires writer.Valid() && writer.status.Open? && Standing(writer, chunks)
    ensures ChunksFit(writer.context.parameters, chunks)
    ensures writer.emitted == FramedCount(writer.context.parameters, chunks)
  {
    hide NonFinalRun, SealedSegment, CanonicalNonFinal, Encryptor.Valid, Encryptor.Nonces;
    var p := writer.context.parameters.PlaintextSegmentLength();
    writer.CountsPositions();
    writer.CanonicalFromHeld(writer.accepted, writer.emitted, writer.Held());
    if writer.accepted == [] {
      FrontLengths(chunks, 0);
    } else if LastLength(chunks) >= p {
      QuotientUnique(|writer.accepted|, p, writer.emitted);
    }
  }

  /** Encrypts what is written in any chunks. The message opens to their concatenation, and the chunks
      decide its framing. In a working environment this succeeds exactly when the chunks fit. */
  method WriteStream(
    suite: CipherSuite, key: Bytes, aad: Bytes, parameters: Parameters,
    chunks: seq<Bytes>, writeScript: seq<WriteEvent>, flushScript: seq<bool>, stream: ByteStream, fills: seq<FillEvent>)
    returns (r: IoResult<Bytes>)
    ensures r.Ok? ==>
      && OpenMessage(suite, key, aad, None, r.value) == Some(Concat(chunks))
      && r.value == ChunkedMessage(suite, key, aad, parameters, stream, chunks)
      && ChunksFit(parameters, chunks)
    ensures flushScript != [] && !flushScript[0] ==> r.Err?
    ensures Unhindered(suite, key, aad, parameters, writeScript, flushScript, stream, fills) ==>
      (r.Ok? <==> ChunksFit(parameters, chunks))
  {
    hide Header, NewContext, NonceStream, OpenMessage, Encoding, EncryptWriter.Writing, Rng.Reliable, Steady, Sink.Reliable, Willing, KeysBefore, KeysAvailable, Times, CanonicalNonFinal, EncryptWriter.Emissions, SegmentKey, Splits;
    ghost var able := Unhindered(suite, key, aad, parameters, writeScript, flushScript, stream, fills);
    var rng := new Rng(stream, fills);
    var sink := new Sink(writeScript, flushScript);
    ReliableRng(rng);
    ReliableSink(sink);
    FirstOfAllKeys(MessageContextAt(suite, key, aad, parameters, stream, 0));
    var writer :- EncryptWriter.New(sink, suite, key, aad, parameters, rng);
    for i := 0 to |chunks|
      invariant writer.Valid() && fresh(writer.Repr) && writer.status.Open? && writer.inner == sink
      invariant sink.flushScript == flushScript
      invariant Standing(writer, chunks[..i])
      invariant able ==> writer.Able()
    {
      var _ :- WriteChunk(writer, chunks, i);
    }
    assert chunks[..|chunks|] == chunks;
    EmittedFor(writer, chunks);
    var _ :- writer.TryFinish();
    assert writer.start + writer.header == writer.header;
    MessageRoundTrip(suite, key, aad, parameters, MessageIv(stream, 0), MessageNonces(stream, 0), writer.accepted, writer.emitted, None);
    return Ok(sink.written);
  }

  /** The limit of the writer is sharp, and it depends on the chunks: of a plaintext of exactly 2^40
      payloads, writing all of it at once is refused although nothing else fails, and writing all but
      its last byte first is accepted. A layout for such a length exists unless it exceeds `u64`. */
  method LimitDependsOnChunks(
    suite: CipherSuite, key: Bytes, aad: Bytes, parameters: Parameters, plaintext: Bytes, stream: ByteStream)
    returns (whole: IoResult<Bytes>, parts: IoResult<Bytes>)
    requires |plaintext| == Times(MAX_SEGMENTS, parameters.PlaintextSegmentLength())
    requires KeysBefore(MessageContextAt(suite, key, aad, parameters, stream, 0), MAX_SEGMENTS)
    ensures whole.Err? && parts.Ok?
    ensures OpenMessage(suite, key, aad, None, parts.value) == Some(plaintext)
    ensures HEADER_LENGTH + |plaintext| + FRAMING_LIMIT <= U64_MAX ==> parameters.PlaintextLayout(|plaintext|).Ok?
  {
    hide OpenMessage, ChunkedMessage, KeysBefore;
    TwoPieces(parameters, plaintext);
    var cut := |plaintext| - 1;
    whole := WriteStream(suite, key, aad, parameters, [plaintext], [], [], stream, []);
    parts := WriteStream(suite, key, aad, parameters, [plaintext[..cut], plaintext[cut..]], [], [], stream, []);
  }

  /** Two ways to write a full message, of which one fits. */
  lemma TwoPieces(parameters: Parameters, plaintext: Bytes)
    requires |plaintext| == Times(MAX_SEGMENTS, parameters.PlaintextSegmentLength())
    ensures |plaintext| > 0 && Concat([plaintext]) == plaintext && !ChunksFit(parameters, [plaintext])
    ensures var parts := [plaintext[..|plaintext| - 1], plaintext[|plaintext| - 1..]];
            Concat(parts) == plaintext && ChunksFit(parameters, parts)
  {
    var p := parameters.PlaintextSegmentLength();
    TimesAtLeast(MAX_SEGMENTS, p);
    TimesMonotone(0, MAX_SEGMENTS, p);
    var cut := |plaintext| - 1;
    var one, two := [plaintext], [plaintext[..cut], plaintext[cut..]];
    assert one[..0] == [] && two[..0] == [] && two[..1] == [plaintext[..cut]] && two[..1][..0] == [];
  }
}
