/** The encrypting writer (src/io.rs:108-332). */
module EncryptWriters {
  import opened ByteStrings
  import opened Failures
  import opened Arithmetic
  import opened ParameterSets
  import opened CipherSuites
  import opened Segments
  import opened Messages
  import opened Buffers
  import opened Randomness
  import opened States
  import opened Online
  import opened Wire

  /** Of a message, `more` bytes written in one piece behind `accepted` ones fit: a message has room for
      2^40 payloads, and a piece that fills the last of them must be shorter than one payload. */
  ghost predicate FitsLimit(parameters: Parameters, accepted: nat, more: nat) {
    var p := parameters.PlaintextSegmentLength();
    var limit := Times(MAX_SEGMENTS, p);
    accepted + more < limit || (accepted + more == limit && more < p)
  }

  class EncryptWriter {
    const inner: Sink
    const header: Bytes
    const buffer: SegmentBuffer
    var encryptor: Encryptor?
    var status: StreamStatus

    // What the sink held before the header, and the message being written
    ghost const start: Bytes
    ghost const context: MessageContext
    ghost const nonces: Nonces
    // The plaintext accepted so far, and the number of non-final segments emitted for it
    ghost var accepted: Bytes
    ghost var emitted: nat
    ghost const rng: Rng
    ghost const Repr: set<object>

    /** Nothing but the segment limit stands in the way of writing: neither the sink nor the random
        generator will fail, and every position has a usable key. */
    ghost predicate Able()
      reads inner, rng
    {
      inner.Reliable() && rng.Reliable() && KeysBefore(context, MAX_SEGMENTS)
    }

    ghost predicate Fits(accepted: nat, more: nat)
    {
      FitsLimit(context.parameters, accepted, more)
    }

    /** How many segments a write of `length` bytes emits when `held` bytes are in the buffer. */
    ghost function Emissions(held: nat, length: nat): nat
    {
      var p := context.parameters.PlaintextSegmentLength();
      if held < p && (held > 0 || length < p) then 0
      else if held == 0 || length < p then 1
      else 2
    }

    /** How much one write may accept when `held` bytes are in the buffer: it never crosses the end
        of a segment. */
    ghost function Room(held: nat): int
    {
      var p := context.parameters.PlaintextSegmentLength();
      if held == p then p else p - held
    }

    /** How much the buffer holds after a write of `length` bytes. */
    ghost function HeldAfter(held: nat, length: nat): nat
    {
      var p := context.parameters.PlaintextSegmentLength();
      if held == 0 || held == p then (if length >= p then 0 else length)
      else if held + length < p then held + length else p
    }

    ghost function Held(): Bytes
      requires buffer.Valid()
      reads buffer, buffer.bytes
    {
      if buffer.state.Plaintext? then buffer.Plaintext().value else []
    }

    ghost predicate Valid()
      reads this, Repr
    {
      && {this, inner, buffer, buffer.bytes} <= Repr
      && buffer.Valid() && buffer.parameters == context.parameters
      && (status.Open? ==> Writing())
      && (status.Finished? ==> Complete())
      && (status.Failed? ==> Abandoned())
    }

    /** Nothing but the front of a message of the accepted plaintext, and perhaps more, has reached the
        sink. */
    ghost predicate Abandoned()
      reads `accepted, inner`written
    {
      exists plaintext: Bytes, count: nat :: FrontOf(plaintext, count, inner.written) && accepted <= plaintext
    }

    ghost predicate FrontOf(plaintext: Bytes, count: nat, written: Bytes)
    {
      && Splits(context.parameters, plaintext, count)
      && written <= start + header + Encoding(context, nonces, plaintext, count)
    }

    /** The next segment, if it is a full one of this payload. */
    ghost function FullSegment(position: nat, payload: Bytes): Bytes
    {
      SealedSegment(context, position, NonFinal, nonces(position), payload)
    }

    /** The segments that a write of this input emits. */
    ghost function Sealing(input: Bytes): Bytes
      requires buffer.Valid()
      reads this, buffer, buffer.bytes
    {
      var p, held := context.parameters.PlaintextSegmentLength(), Held();
      if |held| == p then
        FullSegment(emitted, held) + if |input| >= p then FullSegment(emitted + 1, input[..p]) else []
      else if held == [] && |input| >= p then FullSegment(emitted, input[..p])
      else []
    }

    /** The segment that closes the message over what the buffer holds. */
    ghost function Closing(): Bytes
      requires buffer.Valid()
      reads this, buffer, buffer.bytes
    {
      SealedSegment(context, emitted, Final, nonces(emitted), Held())
    }

    /** Every accepted byte is either in an emitted segment or held in the buffer, and the sink has
        exactly the header and the emitted segments. */
    ghost predicate Writing()
      requires {this, inner, buffer, buffer.bytes} <= Repr && buffer.Valid()
      reads this, Repr
    {
      && encryptor != null && encryptor.Repr() <= Repr
      && {this, inner, buffer, buffer.bytes} !! encryptor.Repr()
      && encryptor.Valid() && encryptor.InStep() && encryptor.counter.next == emitted
      && encryptor.state.context == context && encryptor.Nonces() == nonces && encryptor.state.nonces.rng == rng
      && (buffer.state.Plaintext? ==> buffer.state.length > 0)
      && Conserved(accepted, emitted, Held())
      && KeysBefore(context, emitted)
      && inner.written == start + header + NonFinalRun(context, nonces, accepted, emitted)
    }

    ghost predicate Conserved(accepted: Bytes, emitted: nat, held: Bytes)
    {
      var p := context.parameters.PlaintextSegmentLength();
      && |accepted| == Times(emitted, p) + |held|
      && accepted[Times(emitted, p)..] == held
    }

    /** The sink has one complete message of the accepted bytes. */
    ghost predicate Complete()
      requires {this, inner} <= Repr
      reads this, Repr
    {
      && Splits(context.parameters, accepted, emitted)
      && KeysAvailable(context, emitted)
      && inner.written == start + header + Encoding(context, nonces, accepted, emitted)
    }

    constructor FromEncryptor(inner: Sink, encryptor: Encryptor, ghost start: Bytes)
      requires encryptor.Valid() && encryptor.InStep() && encryptor.counter.next == 0
      requires inner !in encryptor.Repr() && inner.written == start + encryptor.header
      ensures Valid() && status == Open && accepted == [] && emitted == 0
      ensures fresh(Repr - encryptor.Repr() - {inner})
      ensures this.inner == inner && this.start == start && header == encryptor.header
      ensures context == encryptor.state.context && nonces == encryptor.Nonces() && rng == encryptor.state.nonces.rng
    {
      this.inner, this.header, this.encryptor := inner, encryptor.header, encryptor;
      var storage := new SegmentBuffer(encryptor.state.context.parameters);
      buffer, status := storage, Open;
      this.start, context, nonces := start, encryptor.state.context, encryptor.Nonces();
      accepted, emitted, rng := [], 0, encryptor.state.nonces.rng;
      Repr := encryptor.Repr() + {this, inner, storage, storage.bytes};
      new;
      assert start + header + [] == start + header;
    }

    /** Starts a message and writes its header. */
    static method New(inner: Sink, suite: CipherSuite, key: Bytes, aad: Bytes, parameters: Parameters, rng: Rng)
      returns (r: IoResult<EncryptWriter>)
      modifies inner, rng
      ensures r.Ok? ==>
        && fresh(r.value) && fresh(r.value.Repr - {inner, rng}) && r.value.Valid() && r.value.status == Open
        && r.value.inner == inner && r.value.start == old(inner.written) && r.value.accepted == []
        && r.value.header == MessageHeader(suite, key, aad, parameters, rng.stream, old(rng.drawn))
        && r.value.context == MessageContextAt(suite, key, aad, parameters, rng.stream, old(rng.drawn))
        && r.value.nonces == MessageNonces(rng.stream, old(rng.drawn)) && r.value.rng == rng
      ensures r.Err? ==>
        && old(inner.written) <= inner.written
        && inner.written <= old(inner.written) + MessageHeader(suite, key, aad, parameters, rng.stream, old(rng.drawn))
        && (r.error.Floe? ==> inner.written == old(inner.written))
      ensures inner.flushScript == old(inner.flushScript)
      ensures old(rng.Reliable() && inner.Reliable()) ==> rng.Reliable() && inner.Reliable()
      ensures old(rng.Reliable() && inner.Reliable()) && r.Err? ==>
        SegmentKey(MessageContextAt(suite, key, aad, parameters, rng.stream, old(rng.drawn)), 0).Err?
    {
      hide MessageHeader, MessageContextAt, MessageNonces, Encryptor.Nonces;
      var begun := Encryptor.New(suite, key, aad, parameters, rng);
      var encryptor :- Lift(begun);
      ghost var start := inner.written;
      var _ :- inner.WriteAll(encryptor.header);
      var writer := new EncryptWriter.FromEncryptor(inner, encryptor, start);
      return Ok(writer);
    }

    /** What sealing the next segment needs, and what it brings. */
    lemma BeforeSeal(kind: SegmentKind, length: nat)
      requires Valid() && status.Open?
      ensures Able() && SegmentFits(context.parameters, kind, length) && (kind.NonFinal? ==> emitted < MAX_SEGMENTS - 1) ==>
                encryptor.CanSeal(kind, length)
      ensures SegmentKey(context, emitted).Ok? ==> KeysBefore(context, emitted + 1) && KeysAvailable(context, emitted)
    {
      hide NonFinalRun, SegmentKey, Encryptor.Nonces, Rng.Reliable, Sink.Reliable, EncryptWriter.Conserved;
      if SegmentKey(context, emitted).Ok? {
        KeysExtend(context, emitted);
      }
    }

    /** Encrypts the full buffer as a non-final segment and writes it out. */
    method EmitNonFinal() returns (r: IoResult<()>)
      requires Valid() && status.Open?
      requires buffer.state == BufferState.Plaintext(context.parameters.PlaintextSegmentLength())
      modifies Repr
      ensures Valid() && accepted == old(accepted)
      ensures inner.flushScript == old(inner.flushScript)
      ensures r.Ok? ==>
        && status.Open? && buffer.state.Ciphertext? && emitted == old(emitted) + 1
        && inner.written == old(inner.written + FullSegment(emitted, Held()))
      ensures r.Err? ==>
        && status.Failed?
        && old(inner.written) <= inner.written <= old(inner.written + FullSegment(emitted, Held()))
        && (r.error.Floe? ==> inner.written == old(inner.written))
      ensures old(Able()) ==> Able()
      ensures old(Able() && emitted < MAX_SEGMENTS - 1) ==> r.Ok?
    {
      hide NonFinalRun, SealedSegment, SegmentKey, Encryptor.Valid, Encryptor.Nonces, EncryptWriter.Conserved, EncryptWriter.FrontOf, EncryptWriter.Abandoned, SegmentBuffer.Plaintext, SegmentBuffer.Ciphertext, SegmentBuffer.Valid, Times, Encryptor.CanSeal, KeysBefore, KeysAvailable, Rng.Reliable, Sink.Reliable, CiphertextSegmentSize;
      EmitKeepsConserved(accepted, emitted, Held());
      BeforeSeal(NonFinal, buffer.state.length);
      RunGrows(accepted, accepted, emitted);
      ghost var sealed := FullSegment(emitted, Held());
      var result := SealHeld(encryptor);
      if result.Err? {
        Abandon(accepted, emitted + 1);
        status := Failed;
        return Err(Floe(result.error));
      }
      assert buffer.Ciphertext().value == sealed;
      var written := inner.WriteAll(buffer.Ciphertext().value);
      if written.Err? {
        Abandon(accepted, emitted + 1);
        status := Failed;
        return Err(written.error);
      }
      emitted := emitted + 1;
      return Ok(());
    }

    /** What the sink has is the front of a run of full segments, so of a message. */
    lemma Abandon(plaintext: Bytes, count: nat)
      requires accepted <= plaintext && |plaintext| == Times(count, context.parameters.PlaintextSegmentLength())
      requires inner.written <= start + header + NonFinalRun(context, nonces, plaintext, count)
      ensures Abandoned()
    {
      hide NonFinalRun, SealedSegment;
      assert inner.written <= (start + header + NonFinalRun(context, nonces, plaintext, count)) +
                              SealedSegment(context, count, Final, nonces(count), plaintext[Times(count, context.parameters.PlaintextSegmentLength())..]);
      assert FrontOf(plaintext, count, inner.written);
    }

    /** Encrypts a full non-final segment straight from the caller's input, without staging it. */
    method WriteSegmentDirect(chunk: Bytes) returns (r: IoResult<nat>)
      requires Valid() && status.Open? && !buffer.state.Plaintext?
      requires |chunk| == context.parameters.PlaintextSegmentLength()
      modifies Repr
      ensures Valid()
      ensures inner.flushScript == old(inner.flushScript)
      ensures r.Ok? ==>
        && r.value == |chunk| && status.Open? && !buffer.state.Plaintext?
        && accepted == old(accepted) + chunk && emitted == old(emitted) + 1
        && inner.written == old(inner.written + FullSegment(emitted, chunk))
      ensures r.Err? ==>
        && status.Failed? && accepted == old(accepted)
        && old(inner.written) <= inner.written <= old(inner.written + FullSegment(emitted, chunk))
        && (r.error.Floe? ==> inner.written == old(inner.written))
      ensures old(Able()) ==> Able()
      ensures old(Able() && emitted < MAX_SEGMENTS - 1) ==> r.Ok?
    {
      hide NonFinalRun, SealedSegment, SegmentKey, Encryptor.Valid, Encryptor.Nonces, EncryptWriter.Conserved, EncryptWriter.FrontOf, EncryptWriter.Abandoned, SegmentBuffer.Plaintext, SegmentBuffer.Ciphertext, SegmentBuffer.Valid, Times, Encryptor.CanSeal, KeysBefore, KeysAvailable, Rng.Reliable, Sink.Reliable;
      DirectKeepsConserved(accepted, emitted, chunk);
      BeforeSeal(NonFinal, |chunk|);
      RunGrows(accepted, accepted + chunk, emitted);
      ghost var sealed := FullSegment(emitted, chunk);
      var result := SealDirect(encryptor, chunk);
      if result.Err? {
        Abandon(accepted + chunk, emitted + 1);
        status := Failed;
        return Err(Floe(result.error));
      }
      assert buffer.Ciphertext().value == sealed;
      var written := inner.WriteAll(buffer.Ciphertext().value);
      if written.Err? {
        Abandon(accepted + chunk, emitted + 1);
        status := Failed;
        return Err(written.error);
      }
      accepted, emitted := accepted + chunk, emitted + 1;
      return Ok(|chunk|);
    }

    /** Seals the payload in the buffer in place. */
    method SealHeld(sealer: Encryptor) returns (r: Outcome<()>)
      requires sealer.Valid() && buffer.Valid() && buffer.bytes !in sealer.Repr()
      requires buffer.parameters == sealer.state.context.parameters
      requires buffer.state == BufferState.Plaintext(buffer.parameters.PlaintextSegmentLength())
      modifies sealer.Repr(), buffer, buffer.bytes
      ensures sealer.Valid() && buffer.Valid() && sealer.counter.closed == old(sealer.counter.closed)
      ensures r.Ok? ==>
        && SegmentKey(sealer.state.context, old(sealer.counter.next)).Ok?
        && sealer.counter.next == old(sealer.counter.next) + 1 && sealer.state.nonces.issued == old(sealer.state.nonces.issued) + 1
        && buffer.Ciphertext() == Ok(SealedSegment(sealer.state.context, old(sealer.counter.next), NonFinal,
                                                   sealer.Nonces()(old(sealer.state.nonces.issued)), old(Held())))
      ensures old(sealer.CanSeal(NonFinal, buffer.state.length)) ==> r.Ok?
      ensures old(sealer.state.nonces.rng.Reliable()) ==> sealer.state.nonces.rng.Reliable()
    {
      hide SealedSegment, SegmentKey, Encryptor.Valid, Encryptor.Nonces, EncryptionFailure, Encryptor.CanSeal, Rng.Reliable;
      var _ :- sealer.EncryptNonFinalSegmentInPlace(buffer);
      return Ok(());
    }

    /** Seals the caller's chunk into the reusable storage. */
    method SealDirect(sealer: Encryptor, chunk: Bytes) returns (r: Outcome<()>)
      requires sealer.Valid() && buffer.Valid() && buffer.bytes !in sealer.Repr()
      requires buffer.parameters == sealer.state.context.parameters
      requires |chunk| == buffer.parameters.PlaintextSegmentLength()
      modifies sealer.Repr(), buffer, buffer.bytes
      ensures sealer.Valid() && buffer.Valid() && sealer.counter.closed == old(sealer.counter.closed)
      ensures r.Ok? ==>
        && SegmentKey(sealer.state.context, old(sealer.counter.next)).Ok?
        && sealer.counter.next == old(sealer.counter.next) + 1 && sealer.state.nonces.issued == old(sealer.state.nonces.issued) + 1
        && buffer.Ciphertext() == Ok(SealedSegment(sealer.state.context, old(sealer.counter.next), NonFinal, sealer.Nonces()(old(sealer.state.nonces.issued)), chunk))
      ensures old(sealer.CanSeal(NonFinal, |chunk|)) ==> r.Ok?
      ensures old(sealer.state.nonces.rng.Reliable()) ==> sealer.state.nonces.rng.Reliable()
    {
      hide SealedSegment, SegmentKey, Encryptor.Valid, Encryptor.Nonces, EncryptionFailure, Encryptor.CanSeal, Rng.Reliable;
      var length :- sealer.EncryptNonFinalSegmentInto(chunk, buffer.bytes, 0, buffer.bytes.Length);
      buffer.MarkCiphertext(length);
      return Ok(());
    }

    lemma EmitKeepsConserved(accepted: Bytes, emitted: nat, held: Bytes)
      requires Conserved(accepted, emitted, held) && |held| == context.parameters.PlaintextSegmentLength()
      ensures Conserved(accepted, emitted + 1, [])
      ensures Times(emitted, |held|) <= |accepted| == Times(emitted + 1, |held|)
      ensures accepted[Times(emitted, |held|)..] == held
    {
    }

    lemma DirectKeepsConserved(accepted: Bytes, emitted: nat, chunk: Bytes)
      requires Conserved(accepted, emitted, []) && |chunk| == context.parameters.PlaintextSegmentLength()
      ensures Conserved(accepted + chunk, emitted + 1, [])
      ensures |accepted| == Times(emitted, |chunk|) && |accepted + chunk| == Times(emitted + 1, |chunk|)
      ensures (accepted + chunk)[Times(emitted, |chunk|)..] == chunk
    {
    }

    lemma StageKeepsConserved(accepted: Bytes, emitted: nat, held: Bytes, input: Bytes)
      requires Conserved(accepted, emitted, held)
      ensures Conserved(accepted + input, emitted, held + input)
      ensures Times(emitted, context.parameters.PlaintextSegmentLength()) <= |accepted|
    {
    }

    /** One more full chunk of accepted plaintext is one more segment of the run. */
    lemma RunGrows(before: Bytes, after: Bytes, count: nat)
      requires before <= after
      requires Times(count, context.parameters.PlaintextSegmentLength()) <= |before|
      requires Times(count + 1, context.parameters.PlaintextSegmentLength()) == |after|
      ensures var chunk := after[Times(count, context.parameters.PlaintextSegmentLength())..];
              NonFinalRun(context, nonces, after, count + 1) ==
              NonFinalRun(context, nonces, before, count) + SealedSegment(context, count, NonFinal, nonces(count), chunk)
    {
      hide SealedSegment;
      NonFinalRunPrefix(context, nonces, before, after[|before|..], count);
      assert before + after[|before|..] == after;
      assert after[Times(count, context.parameters.PlaintextSegmentLength())..] == Chunk(context.parameters, after, count);
    }

    /** Stages input in the buffer; nothing reaches the sink. */
    method Stage(input: Bytes) returns (copied: nat)
      requires Valid() && status.Open? && input != []
      modifies this, buffer, buffer.bytes
      ensures Valid() && status.Open?
      ensures copied <= |input| && accepted == old(accepted) + input[..copied] && emitted == old(emitted)
      ensures copied == Min(|input|, context.parameters.PlaintextSegmentLength() - |old(Held())|)
      ensures copied == 0 ==> buffer.state == old(buffer.state)
      ensures Held() == old(Held()) + input[..copied]
      ensures old(Able()) ==> Able()
    {
      hide NonFinalRun, SealedSegment, SegmentKey, Encryptor.Valid, Encryptor.Nonces, EncryptWriter.Conserved, Times, CiphertextSegmentSize;
      ghost var held := Held();
      StageKeepsConserved(accepted, emitted, held, input);
      copied := buffer.ExtendPlaintext(input);
      NonFinalRunPrefix(context, nonces, accepted, input[..copied], emitted);
      StageKeepsConserved(accepted, emitted, held, input[..copied]);
      accepted := accepted + input[..copied];
    }

    /** Accepts some of the input: at least one byte, and no more than up to the next segment boundary.
        The sink gets exactly the segments that this fills, or on failure some front of them; a failure
        of encryption adds whole segments only, none that it failed to encrypt. */
    method Write(input: Bytes) returns (r: IoResult<nat>)
      requires Valid()
      modifies Repr
      ensures Valid()
      ensures inner.flushScript == old(inner.flushScript)
      ensures input == [] ==> r == Ok(0) && accepted == old(accepted) && status == old(status) && inner.written == old(inner.written)
      ensures r.Ok? && input != [] ==>
        && 1 <= r.value <= |input|
        && r.value == Min(|input|, Room(old(|Held()|)))
        && accepted == old(accepted) + input[..r.value]
        && old(status).Open? && status.Open?
        && inner.written == old(inner.written + Sealing(input))
        && emitted == old(emitted + Emissions(|Held()|, |input|)) < MAX_SEGMENTS
        && |Held()| == HeldAfter(old(|Held()|), |input|)
        && (old(Fits(|accepted|, |input|)) <==> Fits(|accepted|, |input| - r.value))
      ensures r.Err? ==> accepted == old(accepted) && (old(status).Open? ==> status.Failed?)
      ensures r.Err? && old(status).Open? ==>
        && old(inner.written) <= inner.written <= old(inner.written + Sealing(input))
        && (r.error.Floe? ==> inner.written == old(inner.written) || inner.written == old(inner.written + FullSegment(emitted, Held())))
      ensures !old(status).Open? ==> inner.written == old(inner.written) && status == old(status)
      ensures old(status).Failed? && input != [] ==> r == Err(Poisoned)
      ensures old(status).Finished? && input != [] ==> r == Err(AlreadyFinished)
      ensures old(Able() && status.Open?) && input != [] ==>
        (r.Ok? <==> old(emitted + Emissions(|Held()|, |input|)) < MAX_SEGMENTS)
      ensures old(Able() && status.Open? && Fits(|accepted|, |input|)) ==> r.Ok?
      ensures old(Able()) ==> Able()
    {
      hide EncryptWriter.Writing, EncryptWriter.Complete, EncryptWriter.Abandoned, EncryptWriter.Able, EncryptWriter.Fits, EncryptWriter.FullSegment, SegmentBuffer.Plaintext, Times;
      if input == [] {
        return Ok(0);
      }
      match status {
        case Open =>
        case Finished => return Err(AlreadyFinished);
        case Failed => return Err(Poisoned);
      }
      CountsPositions();
      WhichFit(emitted, |Held()|, |input|);
      var capacity := buffer.parameters.PlaintextSegmentLength();
      if |input| >= capacity && !buffer.state.Plaintext? {
        r := WriteSegmentDirect(input[..capacity]);
        CountsPositions();
        return;
      }
      ghost var held, sealing := Held(), Sealing(input);
      var copied := Stage(input);
      if copied > 0 {
        CountsPositions();
        return Ok(copied);
      }
      assert Held() == held && Sealing(input) == sealing;
      r := WriteBehindFull(input);
      CountsPositions();
    }

    /** Emits the full segment in the buffer, then starts the next one. */
    method WriteBehindFull(input: Bytes) returns (r: IoResult<nat>)
      requires Valid() && status.Open? && input != []
      requires buffer.state == BufferState.Plaintext(context.parameters.PlaintextSegmentLength())
      modifies Repr
      ensures Valid()
      ensures inner.flushScript == old(inner.flushScript)
      ensures var p := context.parameters.PlaintextSegmentLength();
        r.Ok? ==>
          && r.value == Min(|input|, p) && status.Open?
          && accepted == old(accepted) + input[..r.value]
          && emitted == old(emitted) + (if |input| >= p then 2 else 1)
          && |Held()| == (if |input| >= p then 0 else |input|)
          && inner.written == old(inner.written + Sealing(input))
      ensures r.Err? ==>
        && status.Failed? && accepted == old(accepted)
        && old(inner.written) <= inner.written <= old(inner.written + Sealing(input))
        && (r.error.Floe? ==> inner.written == old(inner.written) || inner.written == old(inner.written + FullSegment(emitted, Held())))
      ensures old(Able() && emitted + (if |input| >= context.parameters.PlaintextSegmentLength() then 2 else 1) < MAX_SEGMENTS) ==> r.Ok?
      ensures old(Able()) ==> Able()
    {
      hide EncryptWriter.Writing, EncryptWriter.Complete, EncryptWriter.Abandoned, EncryptWriter.Able, EncryptWriter.FullSegment;
      var capacity := buffer.parameters.PlaintextSegmentLength();
      ghost var first, whole := inner.written + FullSegment(emitted, Held()), inner.written + Sealing(input);
      assert first <= whole;
      var _ :- EmitNonFinal();
      assert inner.written == first;
      if |input| >= capacity {
        assert first + FullSegment(emitted, input[..capacity]) == whole;
        r := WriteSegmentDirect(input[..capacity]);
        return;
      }
      assert first == whole;
      var copied := Stage(input);
      return Ok(copied);
    }

    /** Every non-final segment leaves a position for the next one, and a payload in the buffer is
        not empty. */
    lemma CountsPositions()
      requires Valid()
      ensures status.Open? ==>
        && emitted < MAX_SEGMENTS && (buffer.state.Plaintext? ==> buffer.state.length > 0)
        && |accepted| == Times(emitted, context.parameters.PlaintextSegmentLength()) + |Held()|
    {
      hide NonFinalRun, Encryptor.Nonces;
    }

    /** Input fits exactly when the segments that its first write emits have positions, and what this
        write leaves of it fits. */
    lemma WhichFit(emitted: nat, held: nat, length: nat)
      requires emitted < MAX_SEGMENTS && held <= context.parameters.PlaintextSegmentLength() && length > 0
      ensures var accepted, taken := Times(emitted, context.parameters.PlaintextSegmentLength()) + held, Min(length, Room(held));
        Fits(accepted, length) <==> emitted + Emissions(held, length) < MAX_SEGMENTS && Fits(accepted + taken, length - taken)
    {
      var p := context.parameters.PlaintextSegmentLength();
      Units(emitted, p);
      if emitted + 2 <= MAX_SEGMENTS {
        Units(emitted + 1, p);
        if emitted + 3 <= MAX_SEGMENTS {
          Units(emitted + 2, p);
        }
      }
    }

    /** Below the limit there is room for one more payload, and two positions below it for two. */
    lemma Units(count: nat, p: nat)
      requires count < MAX_SEGMENTS
      ensures Times(count, p) + p <= Times(MAX_SEGMENTS, p)
      ensures Times(count + 1, p) == Times(count, p) + p
      ensures count == MAX_SEGMENTS - 1 <==> count + 1 == MAX_SEGMENTS
    {
      TimesMonotone(count, MAX_SEGMENTS, p);
    }

    /** What is left in the buffer after a piece: less than one payload if the piece has a whole one,
        and something if it has not. */
    ghost predicate LastPiece(length: nat, held: nat)
    {
      var p := context.parameters.PlaintextSegmentLength();
      if length >= p then held < p else held > 0
    }

    /** `Write::write_all`: terminates because every successful write makes progress. In a working
        environment it succeeds exactly when the input fits. */
    method WriteAll(input: Bytes) returns (r: IoResult<()>)
      requires Valid()
      modifies Repr
      ensures Valid()
      ensures inner.flushScript == old(inner.flushScript)
      ensures r.Ok? ==> accepted == old(accepted) + input && status == old(status)
      ensures r.Ok? && old(status).Open? ==> old(Fits(|accepted|, |input|))
      ensures r.Ok? ==> if input == [] then Held() == old(Held()) else LastPiece(|input|, |Held()|)
      ensures r.Err? ==> !status.Open? && exists k :: 0 <= k < |input| && accepted == old(accepted) + input[..k]
      ensures old(Able() && status.Open?) ==> (r.Ok? <==> old(Fits(|accepted|, |input|))) && (r.Ok? ==> Able())
    {
      hide EncryptWriter.Writing, EncryptWriter.Complete, EncryptWriter.Abandoned, EncryptWriter.Able, EncryptWriter.Fits, EncryptWriter.Sealing, EncryptWriter.Emissions, EncryptWriter.FullSegment, SegmentBuffer.Plaintext, Times;
      var done: nat := 0;
      assert input[0..] == input;
      while done < |input|
        invariant Valid() && inner.flushScript == old(inner.flushScript)
        invariant done <= |input| && accepted == old(accepted) + input[..done] && status == old(status)
        invariant status.Open? ==> (old(Fits(|accepted|, |input|)) <==> Fits(|accepted|, |input| - done))
        invariant old(Able() && status.Open?) ==> Able()
        invariant done == 0 ==> Held() == old(Held())
        invariant 0 < done < |input| ==> |Held()| == 0 || |Held()| == context.parameters.PlaintextSegmentLength()
        invariant 0 < done == |input| ==> LastPiece(|input|, |Held()|)
      {
        var written :- Write(input[done..]);
        assert input[..done] + input[done..][..written] == input[..done + written];
        done := done + written;
      }
      assert input[..done] == input;
      NothingMoreFits();
      return Ok(());
    }

    /** What has been accepted has its room. */
    lemma NothingMoreFits()
      requires Valid()
      ensures status.Open? ==> Fits(|accepted|, 0)
    {
      hide EncryptWriter.Writing, SealedSegment;
      CountsPositions();
      if status.Open? {
        Units(emitted, context.parameters.PlaintextSegmentLength());
      }
    }

    /** Flushes what has been emitted; a partial segment stays in the buffer. */
    method Flush() returns (r: IoResult<()>)
      requires Valid()
      modifies Repr
      ensures Valid() && accepted == old(accepted) && status == old(status)
      ensures inner.written == old(inner.written)
      ensures old(status).Failed? ==> r == Err(Poisoned)
      ensures !old(status).Failed? ==> (r.Ok? <==> !old(inner.Clogged()))
      ensures r.Ok? ==> inner.flushed == |inner.written|
    {
      if status.Failed? {
        return Err(Poisoned);
      }
      r := inner.Flush();
    }

    /** Gives up the encryptor for the final segment of what the buffer holds. */
    method SealFinal() returns (r: Outcome<()>)
      requires Valid() && status.Open?
      modifies Repr - {inner}
      ensures Valid() && status.Failed? && accepted == old(accepted) && emitted == old(emitted)
      ensures r.Ok? ==>
        && KeysAvailable(context, emitted)
        && buffer.state.Ciphertext? && buffer.Ciphertext().value == old(Closing())
      ensures Splits(context.parameters, accepted, emitted)
      ensures inner.written + old(Closing()) == start + header + Encoding(context, nonces, accepted, emitted)
      ensures emitted == CanonicalNonFinal(context.parameters, accepted) <==> old(Held()) != [] || accepted == []
      ensures old(Able()) ==> Able() && r.Ok?
    {
      hide NonFinalRun, SealedSegment, SegmentKey, Encryptor.Valid, Encryptor.Nonces, EncryptWriter.Conserved, Times, Encryptor.CanSeal, KeysBefore, KeysAvailable, Rng.Reliable, Sink.Reliable, CanonicalNonFinal, Encoding, Splits, EncryptWriter.Abandoned, EncryptWriter.FrontOf;
      ghost var held := Held();
      CompleteFromHeld(accepted, emitted, held);
      CanonicalFromHeld(accepted, emitted, held);
      BeforeSeal(Final, |held|);
      AbandonFinal();
      var consumed := encryptor;
      encryptor := null;
      status := Failed;
      PrepareHeld();
      var _ :- consumed.EncryptFinalSegmentInPlace(buffer);
      return Ok(());
    }

    /** What the sink has is the front of the message that the final segment closes. */
    lemma AbandonFinal()
      requires Splits(context.parameters, accepted, emitted)
      requires inner.written <= start + header + Encoding(context, nonces, accepted, emitted)
      ensures Abandoned()
    {
      hide Splits, Encoding;
      assert FrontOf(accepted, emitted, inner.written);
    }

    /** Closes the message. The framing is the canonical layout of the accepted bytes, except when
        the last of them left in a full non-final segment: then an empty final segment follows. */
    method FinishMessage() returns (r: IoResult<()>)
      requires Valid() && status.Open?
      modifies Repr
      ensures Valid() && accepted == old(accepted) && emitted == old(emitted)
      ensures r.Ok? ==>
        && status.Finished? && inner.written == old(inner.written + Closing())
        && inner.flushed == |inner.written| && !old(inner.Clogged())
      ensures emitted == CanonicalNonFinal(context.parameters, accepted) <==> old(Held()) != [] || accepted == []
      ensures r.Err? ==>
        && status.Failed?
        && old(inner.written) <= inner.written <= old(inner.written + Closing())
        && (r.error.Floe? ==> inner.written == old(inner.written))
      ensures old(Able()) ==> Able() && r.Ok?
    {
      hide EncryptWriter.Writing, EncryptWriter.Abandoned, EncryptWriter.Closing, KeysAvailable, Encoding, CanonicalNonFinal, Splits;
      var result := SealFinal();
      if result.Err? {
        return Err(Floe(result.error));
      }
      var written := inner.WriteAll(buffer.Ciphertext().value);
      AbandonFinal();
      var _ :- written;
      var _ :- inner.Flush();
      status := Finished;
      return Ok(());
    }

    /** If nothing arrived since the last emitted segment, the message closes with an empty payload. */
    method PrepareHeld()
      requires buffer.Valid()
      modifies buffer
      ensures buffer.Valid() && buffer.Plaintext() == Ok(old(Held()))
    {
      if !buffer.state.Plaintext? {
        var prepared := buffer.PreparePlaintext(0);
        assert buffer.Plaintext().value == [];
      }
    }

    /** Closing over what the buffer holds gives an encoding of all that was accepted. */
    lemma CompleteFromHeld(accepted: Bytes, emitted: nat, held: Bytes)
      requires Conserved(accepted, emitted, held) && |held| <= context.parameters.PlaintextSegmentLength()
      ensures Splits(context.parameters, accepted, emitted)
      ensures Times(emitted, context.parameters.PlaintextSegmentLength()) <= |accepted|
      ensures Encoding(context, nonces, accepted, emitted) ==
              NonFinalRun(context, nonces, accepted, emitted) + SealedSegment(context, emitted, Final, nonces(emitted), held)
    {
      hide SealedSegment, NonFinalRun;
    }

    lemma CanonicalFromHeld(accepted: Bytes, emitted: nat, held: Bytes)
      requires Conserved(accepted, emitted, held) && |held| <= context.parameters.PlaintextSegmentLength()
      ensures emitted == CanonicalNonFinal(context.parameters, accepted) <==> held != [] || accepted == []
    {
      hide CanonicalCount;
      RecountLastUnit(|accepted|, context.parameters.PlaintextSegmentLength(), emitted + 1);
    }

    method TryFinish() returns (r: IoResult<()>)
      requires Valid()
      modifies Repr
      ensures Valid() && accepted == old(accepted) && emitted == old(emitted)
      ensures r.Ok? <==> status.Finished?
      ensures old(status).Open? && r.Ok? ==>
        && inner.written == old(inner.written + Closing())
        && inner.flushed == |inner.written| && !old(inner.Clogged())
      ensures old(status).Open? && r.Err? ==>
        && old(inner.written) <= inner.written <= old(inner.written + Closing())
        && (r.error.Floe? ==> inner.written == old(inner.written))
      ensures old(status).Open? && r.Ok? ==>
        (emitted == CanonicalNonFinal(context.parameters, accepted) <==> old(Held()) != [] || accepted == [])
      ensures r.Err? ==> status.Failed?
      ensures !old(status).Open? ==> inner.written == old(inner.written) && status == old(status)
      ensures old(status).Failed? ==> r == Err(Poisoned)
      ensures old(Able() && status.Open?) ==> r.Ok?
    {
      match status {
        case Finished => return Ok(());
        case Failed => return Err(Poisoned);
        case Open =>
      }
      r := FinishMessage();
    }
  }
}
