/** Sequential segment processing and the one-shot functions (src/online.rs). */
module Online {
  import opened ByteStrings
  import opened Failures
  import opened Arithmetic
  import opened ParameterSets
  import opened CipherSuites
  import opened Segments
  import opened Messages
  import opened Buffers
  import opened Randomness
  import opened States

  /** The kinds of a finished message: non-final segments, then one final segment. */
  ghost predicate IsMessage(log: seq<SegmentKind>) {
    && log != []
    && log[|log| - 1].Final?
    && forall i :: 0 <= i < |log| - 1 ==> log[i].NonFinal?
  }

  /** The position protocol. `log` records the kinds of the operations that succeeded. */
  class SegmentCounter {
    var next: nat
    var closed: bool
    ghost var log: seq<SegmentKind>

    ghost predicate Valid()
      reads this
    {
      && next < MAX_SEGMENTS
      && |log| == next + (if closed then 1 else 0)
      && (forall i :: 0 <= i < next ==> log[i].NonFinal?)
      && (closed ==> log[next].Final?)
    }

    constructor ()
      ensures Valid() && next == 0 && !closed && log == []
    {
      next, closed, log := 0, false, [];
    }

    /** Reserves a position: they are handed out as 0, 1, 2, ..., the last one to a final segment
        only, and none after it. */
    function PositionFor(kind: SegmentKind): (r: Outcome<nat>)
      reads this
      ensures Valid() ==> (r.Ok? <==> !IsMessage(log) && (kind.NonFinal? ==> |log| < MAX_SEGMENTS - 1))
      ensures Valid() && r.Ok? ==> r.value == |log| == next
      ensures Valid() ==> (r == Err(Closed) <==> IsMessage(log))
    {
      if closed then Err(Closed)
      else if kind.NonFinal? && next == MAX_SEGMENTS - 1 then Err(SegmentLimit)
      else if kind.Final? && next >= MAX_SEGMENTS then Err(SegmentLimit)
      else Ok(next)
    }

    method Complete(kind: SegmentKind)
      requires Valid() && PositionFor(kind).Ok?
      modifies this
      ensures Valid() && log == old(log) + [kind]
      ensures next == old(next) + (if kind.NonFinal? then 1 else 0) && closed == kind.Final?
    {
      log := log + [kind];
      match kind
      case NonFinal => next := next + 1;
      case Final => closed := true;
    }

    /** Succeeds exactly after the segments of one complete message. */
    function Finish(): (r: Outcome<()>)
      requires Valid()
      reads this
      ensures r.Ok? <==> IsMessage(log)
      ensures r.Err? ==> r.error == Truncated
    {
      if closed then Ok(()) else Err(Truncated)
    }
  }

  datatype StreamStatus = Open | Finished | Failed

  ghost predicate KeysBefore(context: MessageContext, count: nat) {
    forall position :: 0 <= position < count ==> SegmentKey(context, position).Ok?
  }

  lemma KeysExtend(context: MessageContext, count: nat)
    requires KeysBefore(context, count) && SegmentKey(context, count).Ok?
    ensures KeysBefore(context, count + 1) && KeysAvailable(context, count)
  {
    hide SegmentKey;
  }

  // ---- Encryptor ----

  class Encryptor {
    const state: EncryptionState
    const header: Bytes
    const counter: SegmentCounter

    ghost function Repr(): set<object> {
      state.Repr() + {counter}
    }

    ghost predicate Valid()
      reads Repr()
    {
      state.Valid() && counter.Valid()
    }

    ghost function Nonces(): Nonces {
      state.nonces.Nonces()
    }

    /** In use, and no segment operation has failed yet: segment `k` uses nonce `k`. The final
        segment consumes its encryptor, so the counter of one in use is never closed. */
    ghost predicate InStep()
      reads Repr()
    {
      state.nonces.issued == counter.next && !counter.closed
    }

    /** Nothing stands in the way of the next segment. */
    ghost predicate CanSeal(kind: SegmentKind, plaintextLength: nat)
      reads Repr()
    {
      && state.nonces.rng.Reliable() && counter.PositionFor(kind).Ok?
      && SegmentFits(state.context.parameters, kind, plaintextLength)
      && SegmentKey(state.context, counter.next).Ok?
    }

    constructor (state: EncryptionState, header: Bytes)
      requires state.Valid()
      ensures Valid() && fresh(counter)
      ensures this.state == state && this.header == header && counter.next == 0 && !counter.closed
    {
      this.state, this.header := state, header;
      counter := new SegmentCounter();
    }

    /** Draws the IV, derives the header tag and the message key, and caches the first segment
        key. The nonces follow the IV in the random stream. */
    static method New(suite: CipherSuite, key: Bytes, aad: Bytes, parameters: Parameters, rng: Rng) returns (r: Outcome<Encryptor>)
      modifies rng
      ensures r.Ok? ==>
        && fresh(r.value) && fresh(r.value.Repr() - {rng}) && r.value.Valid() && r.value.InStep()
        && r.value.Nonces() == MessageNonces(rng.stream, old(rng.drawn))
        && r.value.counter.next == 0
        && r.value.header == MessageHeader(suite, key, aad, parameters, rng.stream, old(rng.drawn))
        && r.value.state.context == MessageContextAt(suite, key, aad, parameters, rng.stream, old(rng.drawn))
      ensures r.Ok? ==> r.value.state.nonces.rng == rng
      ensures old(rng.Reliable()) ==> rng.Reliable() && r != Err(RngFailure)
      ensures r.Err? && r.error != RngFailure ==>
        SegmentKey(MessageContextAt(suite, key, aad, parameters, rng.stream, old(rng.drawn)), 0) == Err(r.error)
    {
      hide Header, NewContext, StreamSlice, NonceStream, DeriveSegmentKey, NonceGenerator.Valid, KeyCache.Valid;
      var floeIv := new Byte[FLOE_IV_LENGTH](_ => 0);
      var _ :- rng.Fill(floeIv);
      var context := NewContext(suite, key, aad, parameters, floeIv[..]);
      var header := Header(suite, key, aad, parameters, floeIv[..]);
      var keys :- KeyCache.New(context);
      var nonces := new NonceGenerator(rng);
      var state := new EncryptionState(context, keys, nonces);
      var encryptor := new Encryptor(state, header);
      return Ok(encryptor);
    }

    /** A failure for which there was no cause did not happen. */
    lemma NoFailure(kind: SegmentKind, plaintextLength: nat, position: nat, room: nat, r: Outcome<nat>)
      requires SegmentFits(state.context.parameters, kind, plaintextLength) && room >= OVERHEAD + plaintextLength
      requires r.Err? ==> EncryptionFailure(state.context, kind, plaintextLength, position, room, r.error)
      requires SegmentKey(state.context, position).Ok? && r != Err(RngFailure)
      ensures r.Ok?
    {
      hide SegmentKey;
    }

    method EncryptNonFinalSegmentInto(plaintext: Bytes, output: array<Byte>, lo: nat, hi: nat) returns (r: Outcome<nat>)
      requires Valid()
      requires lo <= hi <= output.Length && output !in Repr()
      modifies Repr(), output
      ensures Valid()
      ensures counter.closed == old(counter.closed)
      ensures r.Ok? ==>
        && |plaintext| == state.context.parameters.PlaintextSegmentLength()
        && SegmentKey(state.context, old(counter.next)).Ok?
        && r.value == OVERHEAD + |plaintext| <= hi - lo
        && counter.next == old(counter.next) + 1 && state.nonces.issued == old(state.nonces.issued) + 1
        && output[..lo] == old(output[..lo]) && output[lo + r.value..] == old(output[lo + r.value..])
        && output[lo..lo + r.value] == SealedSegment(state.context, old(counter.next), NonFinal, Nonces()(old(state.nonces.issued)), plaintext)
      ensures r.Err? ==>
        && counter.next == old(counter.next)
        && output[..lo] == old(output[..lo]) && output[hi..] == old(output[hi..])
        && (EncryptionFailure(state.context, NonFinal, |plaintext|, counter.next, hi - lo, r.error)
            || (r.error == SegmentLimit && counter.next == MAX_SEGMENTS - 1)
            || (r.error == Closed && counter.closed))
      ensures old(state.nonces.rng.Reliable()) ==> state.nonces.rng.Reliable() && r != Err(RngFailure)
      ensures old(CanSeal(NonFinal, |plaintext|)) && hi - lo >= OVERHEAD + |plaintext| ==> r.Ok?
    {
      hide SealedSegment, EncryptionFailure, NonceGenerator.Nonces, Splice;
      ghost var able := CanSeal(NonFinal, |plaintext|) && hi - lo >= OVERHEAD + |plaintext|;
      ghost var before, nonce := output[..], Nonces()(state.nonces.issued);
      var position :- counter.PositionFor(NonFinal);
      var result := state.EncryptSegmentIntoAt(plaintext, position, NonFinal, output, lo, hi);
      if able {
        NoFailure(NonFinal, |plaintext|, position, hi - lo, result);
      }
      var written :- result;
      SpliceAround(before, lo, SealedSegment(state.context, position, NonFinal, nonce, plaintext));
      counter.Complete(NonFinal);
      return Ok(written);
    }

    /** Why an encryption in place failed: no position, a foreign buffer, a buffer without payload, or,
        with the buffer wiped, what makes any encryption fail. */
    ghost predicate RefusedInPlace(kind: SegmentKind, buffer: SegmentBuffer, held: BufferState, error: Error)
      reads counter, buffer, buffer.bytes
    {
      || counter.PositionFor(kind) == Err(error)
      || (error == InvalidParameters && !buffer.Matches(state.context.parameters))
      || (error == InvalidBufferState && !held.Plaintext?)
      || (held.Plaintext? && buffer.Wiped()
          && EncryptionFailure(state.context, kind, held.length, counter.next, buffer.bytes.Length, error))
    }

    method EncryptNonFinalSegmentInPlace(buffer: SegmentBuffer) returns (r: Outcome<nat>)
      requires Valid() && buffer.Valid()
      requires buffer.bytes !in Repr()
      modifies Repr(), buffer, buffer.bytes
      ensures Valid() && buffer.Valid() && counter.closed == old(counter.closed)
      ensures r.Ok? ==>
        && old(buffer.state).Plaintext? && old(buffer.state).length == state.context.parameters.PlaintextSegmentLength()
        && SegmentKey(state.context, old(counter.next)).Ok?
        && counter.next == old(counter.next) + 1 && state.nonces.issued == old(state.nonces.issued) + 1
        && buffer.Ciphertext() == Ok(SealedSegment(state.context, old(counter.next), NonFinal, Nonces()(old(state.nonces.issued)), old(buffer.Plaintext().value)))
        && r.value == buffer.state.length
      ensures r.Err? ==>
        && counter.next == old(counter.next)
        && RefusedInPlace(NonFinal, buffer, old(buffer.state), r.error)
        && (buffer.Wiped() || (buffer.state == old(buffer.state) && buffer.bytes[..] == old(buffer.bytes[..])))
      ensures old(state.nonces.rng.Reliable()) ==> state.nonces.rng.Reliable() && r != Err(RngFailure)
      ensures old(buffer.state.Plaintext? && CanSeal(NonFinal, buffer.state.length)) && buffer.Matches(state.context.parameters) ==> r.Ok?
    {
      hide SealedSegment, EncryptionFailure, NonceGenerator.Nonces;
      ghost var able := buffer.state.Plaintext? && CanSeal(NonFinal, buffer.state.length) && buffer.Matches(state.context.parameters);
      ghost var before := buffer.state;
      var position :- counter.PositionFor(NonFinal);
      var result := state.EncryptSegmentInPlaceAt(buffer, position, NonFinal);
      if able {
        NoFailure(NonFinal, before.length, position, buffer.bytes.Length, result);
      }
      var written :- result;
      counter.Complete(NonFinal);
      return Ok(written);
    }

    /** On success the caller gives this encryptor up. */
    method EncryptFinalSegmentInto(plaintext: Bytes, output: array<Byte>, lo: nat, hi: nat) returns (r: Outcome<nat>)
      requires Valid()
      requires lo <= hi <= output.Length && output !in Repr()
      modifies Repr(), output
      ensures Valid() && counter.next == old(counter.next) && counter.closed == old(counter.closed)
      ensures r.Ok? ==>
        && |plaintext| <= state.context.parameters.PlaintextSegmentLength()
        && SegmentKey(state.context, counter.next).Ok?
        && r.value == OVERHEAD + |plaintext| <= hi - lo
        && output[..lo] == old(output[..lo]) && output[lo + r.value..] == old(output[lo + r.value..])
        && output[lo..lo + r.value] == SealedSegment(state.context, counter.next, Final, Nonces()(old(state.nonces.issued)), plaintext)
      ensures r.Err? ==>
        && output[..lo] == old(output[..lo]) && output[hi..] == old(output[hi..])
        && (EncryptionFailure(state.context, Final, |plaintext|, counter.next, hi - lo, r.error)
            || (r.error == Closed && counter.closed))
      ensures old(state.nonces.rng.Reliable()) ==> state.nonces.rng.Reliable() && r != Err(RngFailure)
      ensures old(CanSeal(Final, |plaintext|)) && hi - lo >= OVERHEAD + |plaintext| ==> r.Ok?
    {
      hide SealedSegment, EncryptionFailure, NonceGenerator.Nonces, Splice;
      ghost var able := CanSeal(Final, |plaintext|) && hi - lo >= OVERHEAD + |plaintext|;
      ghost var before, nonce := output[..], Nonces()(state.nonces.issued);
      var position :- counter.PositionFor(Final);
      var result := state.EncryptSegmentIntoAt(plaintext, position, Final, output, lo, hi);
      if able {
        NoFailure(Final, |plaintext|, position, hi - lo, result);
      }
      var written :- result;
      SpliceAround(before, lo, SealedSegment(state.context, position, Final, nonce, plaintext));
      return Ok(written);
    }

    /** On success the caller gives this encryptor up. */
    method EncryptFinalSegmentInPlace(buffer: SegmentBuffer) returns (r: Outcome<nat>)
      requires Valid() && buffer.Valid()
      requires buffer.bytes !in Repr()
      modifies Repr(), buffer, buffer.bytes
      ensures Valid() && buffer.Valid() && counter.next == old(counter.next) && counter.closed == old(counter.closed)
      ensures r.Ok? ==>
        && old(buffer.state).Plaintext? && old(buffer.state).length <= state.context.parameters.PlaintextSegmentLength()
        && SegmentKey(state.context, counter.next).Ok?
        && buffer.Ciphertext() == Ok(SealedSegment(state.context, counter.next, Final, Nonces()(old(state.nonces.issued)), old(buffer.Plaintext().value)))
        && r.value == buffer.state.length
      ensures r.Err? ==>
        && RefusedInPlace(Final, buffer, old(buffer.state), r.error)
        && (buffer.Wiped() || (buffer.state == old(buffer.state) && buffer.bytes[..] == old(buffer.bytes[..])))
      ensures old(state.nonces.rng.Reliable()) ==> state.nonces.rng.Reliable() && r != Err(RngFailure)
      ensures old(buffer.state.Plaintext? && CanSeal(Final, buffer.state.length)) && buffer.Matches(state.context.parameters) ==> r.Ok?
    {
      hide SealedSegment, EncryptionFailure, NonceGenerator.Nonces;
      ghost var able := buffer.state.Plaintext? && CanSeal(Final, buffer.state.length) && buffer.Matches(state.context.parameters);
      ghost var before := buffer.state;
      var position :- counter.PositionFor(Final);
      r := state.EncryptSegmentInPlaceAt(buffer, position, Final);
      if able {
        NoFailure(Final, before.length, position, buffer.bytes.Length, r);
      }
    }
  }

  // The IV is the next 32 bytes of the random stream, and the nonces follow it.

  function MessageIv(stream: ByteStream, drawn: nat): (r: Bytes)
    ensures |r| == FLOE_IV_LENGTH
  {
    StreamSlice(stream, drawn, FLOE_IV_LENGTH)
  }

  function MessageNonces(stream: ByteStream, drawn: nat): Nonces {
    NonceStream(stream, drawn + FLOE_IV_LENGTH)
  }

  function MessageHeader(suite: CipherSuite, key: Bytes, aad: Bytes, parameters: Parameters, stream: ByteStream, drawn: nat): (r: Bytes)
    ensures |r| == HEADER_LENGTH
  {
    Header(suite, key, aad, parameters, MessageIv(stream, drawn))
  }

  function MessageContextAt(suite: CipherSuite, key: Bytes, aad: Bytes, parameters: Parameters, stream: ByteStream, drawn: nat): (r: MessageContext)
    ensures r.parameters == parameters
  {
    NewContext(suite, key, aad, parameters, MessageIv(stream, drawn))
  }

  /** The random stream on the wire: its next 32 bytes are bytes 10 to 42 of the header, and each nonce
      is the next twelve behind them. */
  lemma RandomnessOnWire(
    suite: CipherSuite, key: Bytes, aad: Bytes, parameters: Parameters, stream: ByteStream, drawn: nat, k: nat, i: nat)
    ensures i < 32 ==> MessageHeader(suite, key, aad, parameters, stream, drawn)[10 + i] == stream(drawn + i)
    ensures i < 12 ==> MessageNonces(stream, drawn)(k)[i] == stream(drawn + 32 + 12 * k + i)
  {
    hide HeaderTag, Parameters.Encode, StreamSlice;
    var iv := MessageIv(stream, drawn);
    HeaderOnWire(suite, key, aad, parameters, iv);
    if i < 32 {
      SliceByte(stream, drawn, 32, i);
      assert MessageHeader(suite, key, aad, parameters, stream, drawn)[10..42][i] == iv[i];
    }
    if i < 12 {
      SliceByte(stream, drawn + 32 + 12 * k, 12, i);
    }
  }

  /** The complete message that encryption of `plaintext` writes from this point of the stream. */
  function CanonicalMessage(suite: CipherSuite, key: Bytes, aad: Bytes, parameters: Parameters, stream: ByteStream, drawn: nat, plaintext: Bytes): Bytes {
    MessageHeader(suite, key, aad, parameters, stream, drawn) +
    CanonicalEncoding(MessageContextAt(suite, key, aad, parameters, stream, drawn), MessageNonces(stream, drawn), plaintext)
  }

  // ---- Decryptor ----

  class Decryptor {
    const state: DecryptionState
    const counter: SegmentCounter

    ghost function Repr(): set<object> {
      {state.keys, counter}
    }

    ghost predicate Valid()
      reads Repr()
    {
      state.Valid() && counter.Valid()
    }

    constructor (state: DecryptionState)
      requires state.Valid()
      ensures Valid() && fresh(counter) && this.state == state && counter.log == []
    {
      this.state := state;
      counter := new SegmentCounter();
    }

    static method New(suite: CipherSuite, key: Bytes, aad: Bytes, required: Option<Parameters>, header: Bytes) returns (r: Outcome<Decryptor>)
      requires |header| == HEADER_LENGTH
      ensures r.Ok? <==> StartContext(suite, key, aad, required, header).Ok?
      ensures r.Err? ==> r.error == StartContext(suite, key, aad, required, header).error
      ensures r.Ok? ==>
        && fresh(r.value) && fresh(r.value.Repr()) && r.value.Valid() && r.value.counter.log == []
        && Ok(r.value.state.context) == StartContext(suite, key, aad, required, header)
    {
      hide StartContext;
      var state :- DecryptionState.Start(suite, key, aad, required, header);
      var decryptor := new Decryptor(state);
      return Ok(decryptor);
    }

    /** The framing a segment's own prefix declares. */
    function Framing(segment: Bytes): (r: Outcome<SegmentFraming>)
      ensures r.Ok? ==> |segment| >= PREFIX_LENGTH && r == SegmentFraming.Decode(state.context.parameters, segment[..PREFIX_LENGTH])
    {
      var prefix :- TakePrefix(segment, state.context.parameters);
      SegmentFraming.Decode(state.context.parameters, prefix)
    }

    /** What decrypting the next segment gives when its framing has been decoded: a position must be
        left, and the segment must open at it. */
    ghost function StepFramed(segment: Bytes, framing: SegmentFraming): (r: Outcome<Bytes>)
      requires framing.ciphertextLength == OVERHEAD + framing.plaintextLength
      reads counter
    {
      var position :- counter.PositionFor(framing.kind);
      FramedOpen(state.context, position, framing, segment)
    }

    /** What decrypting the next segment gives. */
    ghost function Step(segment: Bytes): (r: Outcome<Bytes>)
      reads counter
    {
      var framing :- Framing(segment);
      StepFramed(segment, framing)
    }

    /** Decrypts the next segment into `output[lo..hi]`; a failure uses up no position. */
    method DecryptSegmentIntoFramed(segment: Bytes, framing: SegmentFraming, output: array<Byte>, lo: nat, hi: nat) returns (r: Outcome<nat>)
      requires Valid() && framing.ciphertextLength == OVERHEAD + framing.plaintextLength
      requires lo <= hi <= output.Length
      modifies Repr(), output
      ensures Valid()
      ensures hi - lo >= framing.plaintextLength ==> r == IntoRoom(old(StepFramed(segment, framing)))
      ensures r.Ok? ==>
        && old(StepFramed(segment, framing)).Ok?
        && r.value == framing.plaintextLength <= hi - lo
        && counter.log == old(counter.log) + [framing.kind]
        && counter.closed == framing.kind.Final? && counter.next == old(counter.next) + (if framing.kind.Final? then 0 else 1)
        && output[..] == Splice(old(output[..]), lo, old(StepFramed(segment, framing)).value)
      ensures r.Err? ==> counter.log == old(counter.log) && output[..lo] == old(output[..lo]) && output[hi..] == old(output[hi..])
    {
      hide FramedOpen;
      var position :- counter.PositionFor(framing.kind);
      var written :- state.DecryptSegmentIntoAtFramed(segment, position, framing, output, lo, hi);
      counter.Complete(framing.kind);
      return Ok(written);
    }

    /** Decrypts the next segment into new storage. */
    method DecryptSegment(segment: Bytes) returns (r: Outcome<Bytes>)
      requires Valid()
      modifies Repr()
      ensures Valid()
      ensures r == old(Step(segment))
      ensures counter.log == old(counter.log) + if r.Ok? then [Framing(segment).value.kind] else []
    {
      hide FramedOpen, Decryptor.Framing;
      var framing :- Framing(segment);
      var position :- counter.PositionFor(framing.kind);
      var plaintext :- state.DecryptSegmentAtFramed(segment, position, framing);
      counter.Complete(framing.kind);
      return Ok(plaintext);
    }

    /** Decrypts the next segment, prepared in `buffer`, in place. Every failure wipes the buffer and
        uses up no position. */
    method DecryptSegmentInPlace(buffer: SegmentBuffer) returns (r: Outcome<nat>)
      requires Valid() && buffer.Valid()
      modifies Repr(), buffer, buffer.bytes
      ensures Valid() && buffer.Valid()
      ensures old(buffer.state).Ciphertext? && buffer.Matches(state.context.parameters) ==>
                r == IntoRoom(old(Step(buffer.Ciphertext().value)))
      ensures r.Ok? ==>
        && old(buffer.state).Ciphertext?
        && buffer.Plaintext() == old(Step(buffer.Ciphertext().value))
        && counter.log == old(counter.log) + [Framing(old(buffer.Ciphertext().value)).value.kind]
        && counter.closed == Framing(old(buffer.Ciphertext().value)).value.kind.Final?
        && counter.next == old(counter.next) + (if counter.closed then 0 else 1)
      ensures r.Err? ==> buffer.Wiped() && counter.log == old(counter.log)
    {
      hide FramedOpen, Decryptor.Framing, SegmentFraming.Decode;
      r := AdvanceInPlace(buffer);
      buffer.CompleteDecryption(r);
    }

    method AdvanceInPlace(buffer: SegmentBuffer) returns (r: Outcome<nat>)
      requires Valid() && buffer.Valid()
      modifies Repr(), buffer.bytes
      ensures Valid()
      ensures old(buffer.state).Ciphertext? && buffer.Matches(state.context.parameters) ==>
                r == IntoRoom(old(Step(buffer.Ciphertext().value)))
      ensures r.Ok? ==>
        && old(buffer.state).Ciphertext?
        && r.value <= buffer.parameters.PlaintextSegmentLength()
        && Ok(buffer.bytes[PAYLOAD_OFFSET..PAYLOAD_OFFSET + r.value]) == old(Step(buffer.Ciphertext().value))
        && counter.log == old(counter.log) + [Framing(old(buffer.Ciphertext().value)).value.kind]
        && counter.closed == Framing(old(buffer.Ciphertext().value)).value.kind.Final?
        && counter.next == old(counter.next) + (if counter.closed then 0 else 1)
      ensures r.Err? ==> counter.log == old(counter.log)
    {
      hide FramedOpen, Decryptor.Framing, SegmentFraming.Decode;
      var segment :- buffer.Ciphertext();
      var framing :- Framing(segment);
      var position :- counter.PositionFor(framing.kind);
      var length :- state.DecryptSegmentInPlaceAtFramed(buffer, position, framing);
      counter.Complete(framing.kind);
      return Ok(length);
    }
  }

  function TakePrefix(segment: Bytes, parameters: Parameters): (r: Outcome<Bytes>)
    ensures r.Ok? <==> |segment| >= PREFIX_LENGTH
    ensures r.Ok? ==> r.value == segment[..PREFIX_LENGTH]
  {
    if |segment| < PREFIX_LENGTH then
      Err(InvalidCiphertextLength(|segment|, Between(PREFIX_LENGTH, parameters.ciphertextSegmentLength)))
    else
      Ok(segment[..PREFIX_LENGTH])
  }
}
