/** The decrypting reader (src/io.rs:578-924). */
module DecryptReaders {
  import opened ByteStrings
  import opened Failures
  import opened Arithmetic
  import opened ParameterSets
  import opened CipherSuites
  import opened Segments
  import opened Messages
  import opened Buffers
  import opened States
  import opened Online
  import opened OneShot
  import opened Wire

  datatype DecryptStatus = Open | FrameComplete | StreamComplete | Failed {
    predicate Done() {
      FrameComplete? || StreamComplete?
    }
  }

  class DecryptReader {
    const inner: Source
    const header: Bytes
    const buffer: SegmentBuffer
    var decryptor: Decryptor?
    var plaintextConsumed: nat
    var plaintextAvailable: nat
    var status: DecryptStatus

    // What the source held behind the header, and the message in front of it
    ghost const stream: Bytes
    ghost const context: MessageContext
    // How many segments have been opened, their plaintext, and the bytes of the stream they took
    ghost var segments: nat
    ghost var unsealed: Bytes
    ghost var consumed: nat
    // What the caller has been given; whether finalization discarded unread plaintext; and whether
    // the source is still where this reader left it
    ghost var delivered: Bytes
    ghost var skipped: bool
    ghost var untouched: bool
    ghost const Repr: set<object>

    /** Plaintext opened but not delivered. */
    ghost function Pending(): Bytes
      requires plaintextConsumed <= plaintextAvailable && PAYLOAD_OFFSET + plaintextAvailable <= buffer.bytes.Length
      reads this, buffer.bytes
    {
      buffer.bytes[PAYLOAD_OFFSET + plaintextConsumed..PAYLOAD_OFFSET + plaintextAvailable]
    }

    /** The invariant between the caller's operations. Plaintext is skipped only by finalization,
        which goes on to the end of the message. */
    ghost predicate Valid()
      reads this, Repr
    {
      && Live()
      && (skipped ==> status.Failed? || IsFinished())
    }

    ghost predicate Live()
      reads this, Repr
    {
      && Sound()
      && (!status.Failed? ==> Flowing())
      && (status.Open? ==> Reading() && untouched)
      && (status.Done() ==> Complete())
    }

    /** Holds in every state, failed or not, and on every stream: what has ever been delivered is
        plaintext of segments of the stream that were opened, each at its own position, in order. */
    ghost predicate Sound()
      reads this, Repr
    {
      && {this, inner, buffer, buffer.bytes} <= Repr
      && buffer.Valid() && buffer.parameters == context.parameters
      && delivered <= unsealed && |unsealed| <= consumed <= |stream|
      && Opened()
    }

    /** The opened segments are the front of the stream. */
    ghost predicate Opened()
      reads `segments, `unsealed, `consumed
    {
      var run := OpenedRun(context, stream, segments);
      run.Some? && run.value.plaintext == unsealed && run.value.length == consumed
    }

    /** The next segment of the stream is missing or does not open, so there is no message. */
    ghost predicate Stuck()
      reads `segments
    {
      OpenedRun(context, stream, segments + 1) == None && DecodeFrame(context, 0, stream) == None
    }

    /** What has been delivered and what is pending make up the opened plaintext. */
    ghost predicate Flowing()
      requires {this, inner, buffer, buffer.bytes} <= Repr
      reads this, Repr
    {
      && plaintextConsumed <= plaintextAvailable && PAYLOAD_OFFSET + plaintextAvailable <= buffer.bytes.Length
      && (plaintextConsumed < plaintextAvailable ==> buffer.state == BufferState.Plaintext(plaintextAvailable))
      && (!skipped ==> delivered + Pending() == unsealed)
    }

    /** No opened segment was final, and the source goes on behind them. */
    ghost predicate Reading()
      reads `decryptor, `segments, `unsealed, `consumed, inner, Repr - {this}
    {
      && inner.Remaining() == Ahead()
      && decryptor != null && decryptor.Repr() <= Repr
      && {this, inner, buffer, buffer.bytes} !! decryptor.Repr()
      && decryptor.Valid() && !decryptor.counter.closed && decryptor.state.context == context
      && decryptor.counter.next == segments && Progress(context, stream, segments, consumed, unsealed)
    }

    /** The stream behind the opened segments. */
    ghost function Ahead(): Bytes
      reads `consumed
    {
      if consumed <= |stream| then stream[consumed..] else []
    }

    /** The message is exactly the opened segments. A verified end of the stream is still the end,
        and, unless the source was handed out, the end of the message too. */
    ghost predicate Complete()
      reads `status, `segments, `unsealed, `consumed, `untouched, inner
    {
      && OpenedRun(context, stream, segments) == Some(Run(unsealed, consumed, true))
      && DecodeFrame(context, 0, stream) == Some(Frame(unsealed, consumed))
      && (untouched ==> inner.Remaining() == Ahead())
      && (status.StreamComplete? ==> inner.Remaining() == [] && (untouched ==> consumed == |stream|))
    }

    constructor FromDecryptor(inner: Source, decryptor: Decryptor, header: Bytes)
      requires decryptor.Valid() && decryptor.counter.log == []
      requires inner !in decryptor.Repr()
      ensures Valid() && status.Open? && delivered == [] && untouched && !skipped
      ensures fresh(Repr - decryptor.Repr() - {inner})
      ensures this.inner == inner && this.header == header && stream == inner.Remaining() && context == decryptor.state.context
    {
      hide DecodeFrame, OpenNext, Source.Reliable;
      this.inner, this.header, this.decryptor := inner, header, decryptor;
      var storage := new SegmentBuffer(decryptor.state.context.parameters);
      buffer, status := storage, DecryptStatus.Open;
      plaintextConsumed, plaintextAvailable := 0, 0;
      stream, context := inner.Remaining(), decryptor.state.context;
      segments, unsealed, consumed, delivered, skipped, untouched := 0, [], 0, [], false, true;
      Repr := decryptor.Repr() + {this, inner, storage, storage.bytes};
      new;
      assert stream[0..] == stream;
    }

    /** Reads and authenticates the header. Without a device failure this fails only when no message
        with this key and AAD starts here. */
    static method New(inner: Source, suite: CipherSuite, key: Bytes, aad: Bytes, required: Option<Parameters>)
      returns (r: IoResult<DecryptReader>)
      modifies inner
      ensures r.Ok? ==>
        && |old(inner.Remaining())| >= HEADER_LENGTH
        && fresh(r.value) && fresh(r.value.Repr - {inner}) && r.value.Valid() && r.value.status.Open?
        && r.value.inner == inner && r.value.delivered == [] && r.value.untouched && !r.value.skipped
        && r.value.header == old(inner.Remaining())[..HEADER_LENGTH]
        && r.value.stream == old(inner.Remaining())[HEADER_LENGTH..]
        && StartContext(suite, key, aad, required, r.value.header) == Ok(r.value.context)
      ensures r.Err? && r.error != Device ==>
        || |old(inner.Remaining())| < HEADER_LENGTH
        || StartContext(suite, key, aad, required, old(inner.Remaining())[..HEADER_LENGTH]).Err?
      ensures old(inner.Reliable()) ==> inner.Reliable() && r != Err(Device)
    {
      hide StartContext, Source.Reliable;
      var header :- ReadHeader(inner);
      var begun := Decryptor.New(suite, key, aad, required, header);
      var decryptor :- Lift(begun);
      var reader := new DecryptReader.FromDecryptor(inner, decryptor, header);
      return Ok(reader);
    }

    /** Hands the source out. A verified end of stream is no longer trusted afterwards. */
    method GetMut() returns (source: Source)
      requires Valid()
      modifies `status, `untouched
      ensures Valid() && source == inner
      ensures status == if old(status).StreamComplete? then FrameComplete else old(status)
      ensures !status.Open? ==> !untouched
    {
      hide DecryptReader.Reading, DecodeFrame, OpenedRun, Source.Remaining, Source.Reliable;
      if status.StreamComplete? {
        status := FrameComplete;
      }
      if !status.Open? {
        untouched := false;
      }
      return inner;
    }

    predicate IsFinished()
      reads this
    {
      status.Done() && plaintextConsumed == plaintextAvailable
    }

    /** Reads the next complete segment into the buffer and returns its framing. */
    method ReadSegment() returns (r: IoResult<SegmentFraming>)
      requires Sound()
      modifies inner, buffer, buffer.bytes
      ensures Sound()
      ensures r.Ok? ==>
        && var remaining, length := old(inner.Remaining()), r.value.ciphertextLength;
        && PREFIX_LENGTH <= length <= |remaining|
        && SegmentFraming.Decode(context.parameters, remaining[..PREFIX_LENGTH]) == Ok(r.value)
        && buffer.Ciphertext() == Ok(remaining[..length])
        && inner.Remaining() == remaining[length..]
      ensures r.Err? ==> r.error == Device || (r.error.Floe? && forall position :: CannotStart(context, position, old(inner.Remaining())))
      ensures old(inner.Reliable()) ==> inner.Reliable() && r != Err(Device)
    {
      hide FramedOpen, Splice, Source.Remaining, SegmentFraming.Decode, Source.Reliable;
      ghost var remaining := inner.Remaining();
      var prefix := new Byte[PREFIX_LENGTH](_ => 0);
      ghost var blank := prefix[..];
      var actual :- ReadFully(inner, prefix, 0, PREFIX_LENGTH);
      if actual != PREFIX_LENGTH {
        return Err(Floe(Truncated));
      }
      SpliceAround(blank, 0, remaining[..PREFIX_LENGTH]);
      assert prefix[..] == remaining[..PREFIX_LENGTH];
      var framing :- Lift(SegmentFraming.Decode(buffer.parameters, prefix[..]));
      r := FetchRemainder(prefix[..], framing);
      assert r.Ok? ==> remaining[..PREFIX_LENGTH] + remaining[PREFIX_LENGTH..][..framing.ciphertextLength - PREFIX_LENGTH] == remaining[..framing.ciphertextLength];
      assert r.Ok? ==> remaining[PREFIX_LENGTH..][framing.ciphertextLength - PREFIX_LENGTH..] == remaining[framing.ciphertextLength..];
    }

    /** Prepares the buffer for a segment with this framing and reads the rest of it. */
    method FetchRemainder(prefix: Bytes, framing: SegmentFraming) returns (r: IoResult<SegmentFraming>)
      requires Sound() && |prefix| == PREFIX_LENGTH
      requires framing.ciphertextLength == OVERHEAD + framing.plaintextLength <= context.parameters.ciphertextSegmentLength
      modifies inner, buffer, buffer.bytes
      ensures Sound()
      ensures r.Ok? ==>
        && var remaining, left := old(inner.Remaining()), framing.ciphertextLength - PREFIX_LENGTH;
        && r.value == framing && left <= |remaining|
        && buffer.Ciphertext() == Ok(prefix + remaining[..left])
        && inner.Remaining() == remaining[left..]
      ensures r.Err? ==> r.error == Device || (r.error.Floe? && |old(inner.Remaining())| < framing.ciphertextLength - PREFIX_LENGTH)
      ensures old(inner.Reliable()) ==> inner.Reliable() && r != Err(Device)
    {
      hide Splice, Source.Remaining, Source.Reliable;
      var length := framing.ciphertextLength;
      var _ := buffer.PrepareCiphertext(length);
      forall i | 0 <= i < PREFIX_LENGTH {
        buffer.bytes[i] := prefix[i];
      }
      ghost var remaining, before := inner.Remaining(), buffer.bytes[..];
      var actual :- ReadFully(inner, buffer.bytes, PREFIX_LENGTH, length);
      if actual != length - PREFIX_LENGTH {
        return Err(Floe(InvalidCiphertextLength(PREFIX_LENGTH + actual, Exactly(length))));
      }
      SpliceSlice(before, PREFIX_LENGTH, remaining[..actual]);
      assert buffer.bytes[..length] == prefix + remaining[..actual];
      return Ok(framing);
    }

    /** What one more decrypted segment means for the message, whichever way it goes. */
    lemma NextSegment(position: nat, framing: SegmentFraming)
      requires Progress(context, stream, position, consumed, unsealed)
      requires consumed <= |stream| && PREFIX_LENGTH <= framing.ciphertextLength <= |stream[consumed..]|
      requires SegmentFraming.Decode(context.parameters, stream[consumed..][..PREFIX_LENGTH]) == Ok(framing)
      ensures var segment := stream[consumed..][..framing.ciphertextLength];
              var step := FramedOpen(context, position, framing, segment);
        && (step.Err? || (framing.kind.NonFinal? && position == MAX_SEGMENTS - 1) ==>
              OpenedRun(context, stream, position + 1) == None && DecodeFrame(context, 0, stream) == None)
        && (step.Ok? && framing.kind.Final? ==>
              && OpenedRun(context, stream, position + 1) == Some(Run(unsealed + step.value, consumed + framing.ciphertextLength, true))
              && DecodeFrame(context, 0, stream) == Some(Frame(unsealed + step.value, consumed + framing.ciphertextLength)))
        && (step.Ok? && framing.kind.NonFinal? && position < MAX_SEGMENTS - 1 ==>
              Progress(context, stream, position + 1, consumed + framing.ciphertextLength, unsealed + step.value))
        && stream[consumed..][framing.ciphertextLength..] == stream[consumed + framing.ciphertextLength..]
    {
      hide FramedOpen, SegmentFraming.Decode, Progress, DecodeFrame, OpenedRun, Source.Reliable;
      if CannotStart(context, position, stream[consumed..]) {
        StuckProgress(context, stream, position, consumed, unsealed);
      } else {
        StepProgress(context, stream, position, consumed, unsealed, framing);
      }
    }

    /** The next segment of the stream is in the buffer, with this framing. */
    ghost predicate Fetched(framing: SegmentFraming)
      requires {this, inner, buffer, buffer.bytes} <= Repr && buffer.Valid()
      reads `decryptor, `segments, `unsealed, `consumed, inner, Repr - {this}
    {
      && decryptor != null && decryptor.Repr() <= Repr
      && {this, inner, buffer, buffer.bytes} !! decryptor.Repr()
      && decryptor.Valid() && !decryptor.counter.closed && decryptor.state.context == context
      && decryptor.counter.next == segments && Progress(context, stream, segments, consumed, unsealed)
      && consumed <= |stream|
      && PREFIX_LENGTH <= framing.ciphertextLength <= |stream[consumed..]|
      && SegmentFraming.Decode(context.parameters, stream[consumed..][..PREFIX_LENGTH]) == Ok(framing)
      && buffer.Ciphertext() == Ok(stream[consumed..][..framing.ciphertextLength])
      && inner.Remaining() == stream[consumed..][framing.ciphertextLength..]
    }

    /** Fetches the next segment of the message. Without a device failure this fails only when the
        message is not there to be read. */
    method FetchSegment() returns (r: IoResult<SegmentFraming>)
      requires Sound() && status.Open? && Reading()
      modifies inner, buffer, buffer.bytes
      ensures Sound()
      ensures r.Ok? ==> Fetched(r.value)
      ensures r.Err? ==> r.error == Device || Stuck()
      ensures old(inner.Reliable()) ==> inner.Reliable() && r != Err(Device)
    {
      hide Progress, DecodeFrame, OpenedRun, CannotStart, SegmentFraming.Decode, Source.Remaining, Decryptor.Valid, Source.Reliable;
      ConsumedWithin(decryptor.counter.next);
      ghost var position := decryptor.counter.next;
      r := ReadSegment();
      if r.Err? && r.error != Device {
        StuckProgress(context, stream, position, consumed, unsealed);
      }
    }

    lemma ConsumedWithin(position: nat)
      requires Progress(context, stream, position, consumed, unsealed)
      ensures consumed <= |stream|
    {
    }

    /** After the final segment the decryptor is given up: it has closed, so its own check succeeds. */
    method FinishIfFinal(framing: SegmentFraming)
      requires status.Open? && decryptor != null && decryptor.Valid()
      requires decryptor.counter.closed <==> framing.kind.Final?
      modifies `decryptor, `status
      ensures framing.kind.Final? ==> status.FrameComplete?
      ensures framing.kind.NonFinal? ==> status.Open? && decryptor == old(decryptor)
    {
      if framing.kind.Final? {
        assert decryptor.counter.Finish().Ok?;
        decryptor := null;
        status := FrameComplete;
      }
    }

    /** Counts a segment that has been opened. */
    method Account(framing: SegmentFraming, ghost plaintext: Bytes)
      requires Sound() && status.Open? && untouched
      requires decryptor != null && decryptor.Repr() <= Repr && {this, inner, buffer, buffer.bytes} !! decryptor.Repr()
      requires decryptor.Valid() && decryptor.state.context == context
      requires decryptor.counter.closed <==> framing.kind.Final?
      requires decryptor.counter.next == segments + (if framing.kind.Final? then 0 else 1) < MAX_SEGMENTS
      requires Progress(context, stream, segments, consumed, unsealed)
      requires PREFIX_LENGTH <= framing.ciphertextLength <= |stream[consumed..]|
      requires SegmentFraming.Decode(context.parameters, stream[consumed..][..PREFIX_LENGTH]) == Ok(framing)
      requires framing.ciphertextLength == OVERHEAD + framing.plaintextLength
      requires FramedOpen(context, segments, framing, stream[consumed..][..framing.ciphertextLength]) == Ok(plaintext)
      requires inner.Remaining() == stream[consumed..][framing.ciphertextLength..]
      modifies `segments, `unsealed, `consumed, `decryptor, `status
      ensures Sound()
      ensures unsealed == old(unsealed) + plaintext && old(consumed) < consumed
      ensures if framing.kind.Final? then status.FrameComplete? && Complete() else status.Open? && Reading()
    {
      hide DecodeFrame, OpenedRun, FramedOpen, SegmentFraming.Decode, Source.Remaining, SegmentCounter.Valid, KeyCache.Valid, SegmentBuffer.Valid;
      NextSegment(segments, framing);
      segments, unsealed, consumed := segments + 1, unsealed + plaintext, consumed + framing.ciphertextLength;
      FinishIfFinal(framing);
    }

    /** Decrypts the fetched segment in the buffer. */
    method UnsealInPlace(framing: SegmentFraming) returns (r: IoResult<nat>)
      requires Sound() && status.Open? && untouched && Fetched(framing)
      modifies Repr - {inner}
      ensures Sound() && delivered == old(delivered) && skipped == old(skipped) && untouched == old(untouched)
      ensures r.Ok? ==>
        && buffer.state == BufferState.Plaintext(r.value)
        && unsealed == old(unsealed) + buffer.Plaintext().value && old(consumed) < consumed
        && (if framing.kind.Final? then status.FrameComplete? && Complete() else status.Open? && Reading() && r.value > 0)
      ensures r.Err? ==> Stuck() && segments == old(segments) && unsealed == old(unsealed)
      ensures r != Err(Device)
    {
      hide Progress, DecryptReader.Opened, DecryptReader.Reading, DecryptReader.Complete, DecodeFrame, OpenedRun, FramedOpen, SegmentFraming.Decode, Source.Remaining, SegmentCounter.Valid, Source.Reliable;
      ghost var position, length := decryptor.counter.next, framing.ciphertextLength;
      ghost var segment := stream[consumed..][..length];
      NextSegment(position, framing);
      PrefixOfPrefix(stream[consumed..], length);
      CounterOpen(decryptor.counter, framing.kind);
      var result := decryptor.DecryptSegmentInPlace(buffer);
      if result.Err? {
        return Err(Floe(result.error));
      }
      Account(framing, buffer.Plaintext().value);
      return Ok(result.value);
    }

    lemma PrefixOfPrefix(s: Bytes, length: nat)
      requires PREFIX_LENGTH <= length <= |s|
      ensures s[..length][..PREFIX_LENGTH] == s[..PREFIX_LENGTH]
    {
    }

    /** An open counter refuses only a non-final segment at the last position. */
    lemma CounterOpen(counter: SegmentCounter, kind: SegmentKind)
      requires counter.Valid() && !counter.closed
      ensures counter.PositionFor(kind).Err? <==> kind.NonFinal? && counter.next == MAX_SEGMENTS - 1
      ensures counter.PositionFor(kind).Ok? ==> counter.PositionFor(kind).value == counter.next
    {
    }

    /** Decrypts the fetched segment into the caller's output. */
    method UnsealInto(framing: SegmentFraming, output: array<Byte>) returns (r: IoResult<nat>)
      requires Sound() && status.Open? && untouched && Fetched(framing)
      requires output !in Repr && output.Length >= context.parameters.PlaintextSegmentLength()
      modifies Repr - {inner}, output
      ensures Sound() && delivered == old(delivered) && skipped == old(skipped) && untouched == old(untouched)
      ensures r.Ok? ==>
        && r.value <= output.Length
        && unsealed == old(unsealed) + output[..r.value] && output[r.value..] == old(output[r.value..])
        && (if framing.kind.Final? then status.FrameComplete? && Complete() else status.Open? && Reading() && r.value > 0)
      ensures r.Err? ==> Stuck() && segments == old(segments) && unsealed == old(unsealed)
      ensures r != Err(Device)
    {
      hide Progress, DecryptReader.Opened, DecryptReader.Reading, DecryptReader.Complete, DecodeFrame, OpenedRun, FramedOpen, SegmentFraming.Decode, Source.Remaining, SegmentCounter.Valid, Splice, Source.Reliable;
      ghost var position, length, before := decryptor.counter.next, framing.ciphertextLength, output[..];
      ghost var segment := stream[consumed..][..length];
      NextSegment(position, framing);
      CounterOpen(decryptor.counter, framing.kind);
      var result := decryptor.DecryptSegmentIntoFramed(buffer.Ciphertext().value, framing, output, 0, output.Length);
      if result.Err? {
        return Err(Floe(result.error));
      }
      SpliceAround(before, 0, FramedOpen(context, position, framing, segment).value);
      Account(framing, output[..result.value]);
      return Ok(result.value);
    }

    method TryLoadSegment() returns (r: IoResult<()>)
      requires Live() && status.Open? && plaintextConsumed == plaintextAvailable
      modifies Repr
      ensures Sound() && delivered == old(delivered) && skipped == old(skipped) && untouched == old(untouched)
      ensures r.Ok? ==>
        && Live() && plaintextConsumed == 0 && untouched && old(consumed) < consumed
        && (status.FrameComplete? || (status.Open? && plaintextAvailable > 0))
      ensures r.Err? ==> unsealed == old(unsealed) && (r.error == Device || Stuck())
      ensures old(inner.Reliable()) ==> inner.Reliable() && r != Err(Device)
    {
      hide DecryptReader.Reading, DecryptReader.Fetched, DecryptReader.Opened, DecryptReader.Complete, DecryptReader.Stuck, Source.Reliable, Source.Remaining;
      assert Pending() == [] && delivered + [] == delivered;
      var framing :- FetchSegment();
      var length :- UnsealInPlace(framing);
      plaintextConsumed := 0;
      plaintextAvailable := length;
      assert Pending() == buffer.Plaintext().value;
      return Ok(());
    }

    /** Opens the next segment into the buffer; any failure poisons the reader. */
    method LoadSegment() returns (r: IoResult<()>)
      requires Live() && status.Open? && plaintextConsumed == plaintextAvailable
      modifies Repr
      ensures Live() && delivered == old(delivered) && skipped == old(skipped) && untouched == old(untouched)
      ensures r.Ok? ==> plaintextConsumed == 0 && untouched && old(consumed) < consumed && (status.FrameComplete? || (status.Open? && plaintextAvailable > 0))
      ensures r.Err? ==> status.Failed? && unsealed == old(unsealed) && (r.error == Device || Stuck())
      ensures old(inner.Reliable()) ==> inner.Reliable() && r != Err(Device)
    {
      hide DecryptReader.Reading, DecodeFrame, OpenedRun, Source.Reliable;
      r := TryLoadSegment();
      if r.Err? {
        status := DecryptStatus.Failed;
      }
    }

    method TryReadSegmentDirect(output: array<Byte>) returns (r: IoResult<nat>)
      requires Valid() && status.Open? && plaintextConsumed == plaintextAvailable
      requires output !in Repr && output.Length >= context.parameters.PlaintextSegmentLength()
      modifies Repr, output
      ensures Sound()
      ensures r.Ok? ==>
        && Valid() && r.value <= output.Length
        && delivered == old(delivered) + output[..r.value] && output[r.value..] == old(output[r.value..])
        && (r.value == 0 ==> IsFinished() && delivered == unsealed)
        && !status.Failed?
      ensures r.Err? ==> delivered == old(delivered) == unsealed && (r.error == Device || Stuck())
      ensures untouched == old(untouched) && skipped == old(skipped)
      ensures old(inner.Reliable()) ==> inner.Reliable() && r != Err(Device)
    {
      hide DecryptReader.Reading, DecryptReader.Fetched, DecryptReader.Opened, DecryptReader.Complete, DecryptReader.Stuck, Source.Reliable, Source.Remaining, SegmentBuffer.Valid, SegmentBuffer.Plaintext, SegmentBuffer.Ciphertext;
      assert Pending() == [] && delivered + [] == delivered;
      var framing :- FetchSegment();
      var written :- UnsealInto(framing, output);
      plaintextConsumed, plaintextAvailable := 0, 0;
      delivered := unsealed;
      assert Pending() == [] && delivered + [] == delivered;
      return Ok(written);
    }

    /** Opens the next segment into the caller's output; any failure poisons the reader. */
    method ReadSegmentDirect(output: array<Byte>) returns (r: IoResult<nat>)
      requires Valid() && status.Open? && plaintextConsumed == plaintextAvailable
      requires output !in Repr && output.Length >= context.parameters.PlaintextSegmentLength()
      modifies Repr, output
      ensures Valid()
      ensures r.Ok? ==>
        && r.value <= output.Length
        && delivered == old(delivered) + output[..r.value] && output[r.value..] == old(output[r.value..])
        && (r.value == 0 ==> IsFinished() && delivered == unsealed)
        && !status.Failed?
      ensures r.Err? ==> status.Failed? && delivered == old(delivered) == unsealed && (r.error == Device || Stuck())
      ensures untouched == old(untouched) && skipped == old(skipped)
      ensures old(inner.Reliable()) ==> inner.Reliable() && r != Err(Device)
    {
      hide DecryptReader.Reading, DecodeFrame, OpenedRun, Source.Reliable;
      r := TryReadSegmentDirect(output);
      if r.Err? {
        status := DecryptStatus.Failed;
      }
    }

    /** Delivers the next plaintext. Nothing is delivered only once the final segment has been opened
        and all of the message delivered, or after finalization. */
    method Read(output: array<Byte>) returns (r: IoResult<nat>)
      requires Valid() && output !in Repr
      modifies Repr, output
      ensures Valid()
      ensures r.Ok? ==>
        && r.value <= output.Length
        && delivered == old(delivered) + output[..r.value] && output[r.value..] == old(output[r.value..])
      ensures r.Ok? && r.value == 0 && output.Length > 0 ==> IsFinished() && (skipped || delivered == unsealed)
      ensures r.Ok? && output.Length > 0 ==> !status.Failed?
      ensures r.Err? ==> status.Failed? && delivered == old(delivered)
      ensures r.Err? && old(status).Open? ==> delivered == unsealed && (r.error == Device || Stuck())
      ensures old(status).Failed? && output.Length > 0 ==> r == Err(Poisoned)
      ensures old(status).Done() ==> r.Ok? && status == old(status)
      ensures untouched == old(untouched) && skipped == old(skipped)
      ensures old(inner.Reliable()) ==> inner.Reliable() && r != Err(Device)
    {
      hide DecryptReader.Reading, DecodeFrame, OpenedRun, Source.Reliable;
      if output.Length == 0 {
        assert delivered + [] == delivered;
        return Ok(0);
      }
      if status.Failed? {
        return Err(Poisoned);
      }
      if plaintextConsumed == plaintextAvailable {
        assert Pending() == [] && delivered + [] == delivered;
        if status.Done() {
          return Ok(0);
        }
        if output.Length >= buffer.parameters.PlaintextSegmentLength() {
          r := ReadSegmentDirect(output);
          return;
        }
        var _ :- LoadSegment();
        if plaintextConsumed == plaintextAvailable {
          assert Pending() == [] && delivered + [] == delivered;
          return Ok(0);
        }
      }
      r := DeliverPending(output);
    }

    method DeliverPending(output: array<Byte>) returns (r: IoResult<nat>)
      requires Valid() && !status.Failed? && plaintextConsumed < plaintextAvailable
      requires output !in Repr && output.Length > 0
      modifies `plaintextConsumed, `delivered, output
      ensures Valid()
      ensures r.Ok? && 0 < r.value <= output.Length
      ensures delivered == old(delivered) + output[..r.value] && output[r.value..] == old(output[r.value..])
    {
      hide DecryptReader.Reading, DecodeFrame, OpenedRun, Source.Reliable, Source.Remaining, DecryptReader.Complete;
      ghost var pending, given := Pending(), delivered;
      var plaintext := buffer.Plaintext().value;
      var read := Min(output.Length, plaintextAvailable - plaintextConsumed);
      var end := plaintextConsumed + read;
      forall i | 0 <= i < read {
        output[i] := plaintext[plaintextConsumed + i];
      }
      assert output[..read] == pending[..read];
      plaintextConsumed := end;
      delivered := delivered + pending[..read];
      assert Pending() == pending[read..];
      assert (given + pending[..read]) + pending[read..] == given + pending;
      return Ok(read);
    }

    /** Opens the rest of the message and discards its plaintext. Terminates because every segment
        takes bytes from the source. */
    method DrainMessage() returns (r: IoResult<()>)
      requires Valid()
      modifies Repr
      ensures Valid() && delivered == old(delivered)
      ensures r.Ok? <==> status.Done()
      ensures r.Ok? ==> IsFinished()
      ensures r.Err? ==> status.Failed?
      ensures r.Err? && old(status).Open? ==> r.error == Device || Stuck()
      ensures old(status).Failed? ==> r == Err(Poisoned)
      ensures untouched == old(untouched) && (old(status).Open? ==> untouched)
      ensures old(status).Done() ==> status == old(status)
      ensures old(inner.Reliable()) ==> inner.Reliable() && r != Err(Device)
    {
      hide DecryptReader.Reading, DecodeFrame, OpenedRun, Source.Reliable;
      SkipPending();
      while status.Open?
        invariant Live() && delivered == old(delivered)
        invariant !status.Failed? ==> plaintextConsumed == plaintextAvailable
        invariant old(status).Failed? <==> status.Failed?
        invariant untouched == old(untouched) && (old(status).Open? ==> untouched && (status.Open? || status.FrameComplete?))
        invariant old(status).Done() ==> status == old(status)
        invariant old(inner.Reliable()) ==> inner.Reliable()
        decreases status.Open?, |stream| - consumed
      {
        var _ :- LoadSegment();
        SkipPending();
      }
      if status.Failed? {
        return Err(Poisoned);
      }
      return Ok(());
    }

    /** Discards what is pending. */
    method SkipPending()
      requires Live()
      modifies `plaintextConsumed, `skipped
      ensures Live() && plaintextConsumed == plaintextAvailable
    {
      hide DecryptReader.Reading, DecodeFrame, OpenedRun, Source.Reliable;
      if !status.Failed? && plaintextConsumed < plaintextAvailable {
        skipped := true;
      }
      plaintextConsumed := plaintextAvailable;
    }

    /** Opens the rest of the message and requires the source to end there. */
    method TryFinish() returns (r: IoResult<()>)
      requires Valid()
      modifies Repr
      ensures Valid() && delivered == old(delivered) && untouched == old(untouched)
      ensures r.Ok? <==> status.StreamComplete?
      ensures r.Ok? && untouched ==> Accepts(context, stream, unsealed)
      ensures r.Err? ==> status.Failed?
      ensures r.Err? && !old(status).Failed? && untouched && r.error != Device ==> !Acceptable(context, stream)
      ensures old(status).StreamComplete? ==> unchanged(this)
      ensures old(status).Failed? ==> r == Err(Poisoned)
      ensures old(inner.Reliable()) ==> inner.Reliable() && r != Err(Device)
    {
      hide DecryptReader.Reading, DecodeFrame, OpenedRun, Source.Reliable;
      if status.StreamComplete? {
        return Ok(());
      }
      var _ :- DrainMessage();
      r := RequireEnd();
    }

    /** After the message, requires the end of the source. */
    method RequireEnd() returns (r: IoResult<()>)
      requires Valid() && status.Done() && IsFinished()
      modifies `status, inner
      ensures Valid()
      ensures r.Ok? <==> status.StreamComplete?
      ensures r.Err? ==> status.Failed?
      ensures r.Ok? && untouched ==> consumed == |stream|
      ensures r.Err? ==> r.error == Device || r.error == TrailingData
      ensures r.Err? && untouched && r.error != Device ==> consumed < |stream|
      ensures old(inner.Reliable()) ==> inner.Reliable() && r != Err(Device)
    {
      hide DecryptReader.Reading, DecodeFrame, OpenedRun, Source.Reliable, Source.Remaining;
      var trailing := ReadOne(inner);
      match trailing
      case Ok(None) =>
        status := StreamComplete;
        return Ok(());
      case Ok(Some(_)) =>
        status := DecryptStatus.Failed;
        return Err(TrailingData);
      case Err(error) =>
        status := DecryptStatus.Failed;
        return Err(error);
    }

    /** Opens the rest of the message and leaves what follows it unread. */
    method TryFinishFrame() returns (r: IoResult<()>)
      requires Valid()
      modifies Repr
      ensures Valid() && delivered == old(delivered) && untouched == old(untouched)
      ensures r.Ok? <==> status.Done()
      ensures r.Ok? ==> DecodeFrame(context, 0, stream) == Some(Frame(unsealed, consumed))
      ensures r.Ok? && untouched ==> inner.Remaining() == stream[consumed..]
      ensures r.Err? ==> status.Failed?
      ensures r.Err? && old(status).Open? && r.error != Device ==> Stuck()
      ensures old(status).Failed? ==> r == Err(Poisoned)
      ensures old(inner.Reliable()) ==> inner.Reliable() && r != Err(Device)
    {
      hide DecryptReader.Reading, DecodeFrame, OpenedRun, Source.Reliable;
      r := DrainMessage();
    }
  }
}
