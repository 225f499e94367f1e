/** The encrypting reader (src/io.rs:334-576). */
module EncryptReaders {
  import opened ByteStrings
  import opened Failures
  import opened Arithmetic
  import opened ParameterSets
  import opened CipherSuites
  import opened Segments
  import opened Messages
  import opened Buffers
  import opened Randomness
  import opened States
  import opened Online
  import opened Wire

  class EncryptReader {
    const inner: Source
    const header: Bytes
    const buffer: SegmentBuffer
    var encryptor: Encryptor?
    var headerPosition: nat
    var ciphertextPosition: nat
    var ciphertextLength: nat
    var lookahead: Option<Byte>
    var status: StreamStatus

    // The plaintext the source held at the start, and the message it makes
    ghost const plaintext: Bytes
    ghost const context: MessageContext
    ghost const nonces: Nonces
    // The segments produced, and the bytes the caller has been given
    ghost var produced: Bytes
    ghost var delivered: Bytes
    ghost const rng: Rng
    ghost const Repr: set<object>

    /** Nothing stands in the way of encrypting the whole plaintext: the random generator will not
        fail, and every segment of the message has a position within the limit and a usable key. */
    ghost predicate Able()
      reads rng
    {
      rng.Reliable() && KeysAvailable(context, CanonicalNonFinal(context.parameters, plaintext))
    }

    /** The message a one-shot encryption of the plaintext would write. */
    ghost function Message(): Bytes {
      header + CanonicalEncoding(context, nonces, plaintext)
    }

    /** The plaintext not encrypted yet: the byte read ahead, and what the source still has. */
    ghost function Rest(): Bytes
      reads `lookahead, inner
    {
      (if lookahead.Some? then [lookahead.value] else []) + inner.Remaining()
    }

    /** Ciphertext produced but not delivered. */
    ghost function Pending(): Bytes
      requires ciphertextPosition <= ciphertextLength <= buffer.bytes.Length
      reads this, buffer.bytes
    {
      buffer.bytes[ciphertextPosition..ciphertextLength]
    }

    ghost predicate Valid()
      reads this, Repr
    {
      && Sound()
      && (!status.Failed? ==> Flowing())
      && (status.Open? ==> Reading(Rest()))
      && (status.Finished? ==> Complete())
    }

    /** Holds in every state, failed or not: in particular, nothing but the front of the message has
        ever been delivered. */
    ghost predicate Sound()
      reads this, Repr
    {
      && {this, inner, buffer, buffer.bytes} <= Repr
      && buffer.Valid() && buffer.parameters == context.parameters
      && |header| == HEADER_LENGTH && headerPosition <= HEADER_LENGTH
      && delivered <= Message()
    }

    ghost predicate Complete()
      reads `produced
    {
      && produced == CanonicalEncoding(context, nonces, plaintext)
      && KeysAvailable(context, CanonicalNonFinal(context.parameters, plaintext))
    }

    /** What has been delivered and what is pending make up the header and the segments produced. */
    ghost predicate Flowing()
      requires {this, inner, buffer, buffer.bytes} <= Repr && headerPosition <= |header|
      reads this, Repr
    {
      && ciphertextPosition <= ciphertextLength <= buffer.bytes.Length
      && (ciphertextPosition < ciphertextLength ==> buffer.state == BufferState.Ciphertext(ciphertextLength))
      && (headerPosition < HEADER_LENGTH ==> produced == [] && delivered == header[..headerPosition] && ciphertextPosition == ciphertextLength)
      && (headerPosition == HEADER_LENGTH ==> delivered + Pending() == header + produced)
    }

    /** The segments produced are the front of the canonical encoding, and `rest` is the plaintext
        still to come. */
    ghost predicate Reading(rest: Bytes)
      reads `encryptor, `produced, Repr - {this}
    {
      && encryptor != null && encryptor.Repr() <= Repr
      && {this, inner, buffer, buffer.bytes} !! encryptor.Repr()
      && encryptor.Valid() && encryptor.InStep()
      && encryptor.state.context == context && encryptor.Nonces() == nonces && encryptor.state.nonces.rng == rng
      && KeysBefore(context, encryptor.counter.next)
      && Encrypted(encryptor.counter.next, produced, rest)
    }

    ghost predicate Encrypted(count: nat, produced: Bytes, rest: Bytes)
    {
      var p := context.parameters.PlaintextSegmentLength();
      && Times(count, p) <= |plaintext|
      && (count > 0 ==> rest != [])
      && rest == plaintext[Times(count, p)..]
      && produced == NonFinalRun(context, nonces, plaintext, count)
    }

    constructor FromEncryptor(inner: Source, encryptor: Encryptor)
      requires encryptor.Valid() && encryptor.InStep() && encryptor.counter.next == 0
      requires inner !in encryptor.Repr() && |encryptor.header| == HEADER_LENGTH
      ensures Valid() && status == Open && delivered == []
      ensures fresh(Repr - encryptor.Repr() - {inner})
      ensures this.inner == inner && header == encryptor.header && plaintext == inner.Remaining()
      ensures context == encryptor.state.context && nonces == encryptor.Nonces() && rng == encryptor.state.nonces.rng
    {
      hide CanonicalEncoding, CanonicalNonFinal, EncryptReader.Encrypted, NonFinalRun, SealedSegment, Times, Encryptor.Nonces, Encryptor.Valid;
      this.inner, this.header, this.encryptor := inner, encryptor.header, encryptor;
      var storage := new SegmentBuffer(encryptor.state.context.parameters);
      buffer, status, lookahead := storage, Open, None;
      headerPosition, ciphertextPosition, ciphertextLength := 0, 0, 0;
      plaintext, context, nonces := inner.Remaining(), encryptor.state.context, encryptor.Nonces();
      rng := encryptor.state.nonces.rng;
      produced, delivered := [], [];
      Repr := encryptor.Repr() + {this, inner, storage, storage.bytes};
      new;
      NothingEncrypted();
      assert Rest() == plaintext && header[..0] == [];
    }

    /** Nothing has been produced yet, and the whole plaintext is still to come. */
    lemma NothingEncrypted()
      ensures Encrypted(0, [], plaintext)
      ensures [] <= Message()
      ensures KeysBefore(context, 0)
    {
      hide CanonicalEncoding;
      assert plaintext[0..] == plaintext;
    }

    static method New(inner: Source, suite: CipherSuite, key: Bytes, aad: Bytes, parameters: Parameters, rng: Rng)
      returns (r: IoResult<EncryptReader>)
      modifies rng
      ensures r.Ok? ==>
        && fresh(r.value) && fresh(r.value.Repr - {inner, rng}) && r.value.Valid() && r.value.status == Open
        && r.value.inner == inner && r.value.plaintext == old(inner.Remaining()) && r.value.delivered == []
        && r.value.header == MessageHeader(suite, key, aad, parameters, rng.stream, old(rng.drawn))
        && r.value.context == MessageContextAt(suite, key, aad, parameters, rng.stream, old(rng.drawn))
        && r.value.nonces == MessageNonces(rng.stream, old(rng.drawn)) && r.value.rng == rng
      ensures old(rng.Reliable()) ==> rng.Reliable() && r != Err(Floe(RngFailure))
      ensures r.Err? && r.error != Floe(RngFailure) ==>
        SegmentKey(MessageContextAt(suite, key, aad, parameters, rng.stream, old(rng.drawn)), 0).Err?
    {
      hide MessageHeader, MessageContextAt, MessageNonces, Encryptor.Nonces;
      var begun := Encryptor.New(suite, key, aad, parameters, rng);
      var encryptor :- Lift(begun);
      var reader := new EncryptReader.FromEncryptor(inner, encryptor);
      return Ok(reader);
    }

    /** The payload of `rest` that goes into the next segment. */
    ghost function Payload(rest: Bytes): Bytes {
      rest[..Min(context.parameters.PlaintextSegmentLength(), |rest|)]
    }

    /** Fills the buffer with the next payload and reads one byte beyond a full one; returns whether
        the payload is the last. */
    method FillPlaintext() returns (r: IoResult<bool>)
      requires Sound() && Reading(Rest())
      modifies this`lookahead, inner, buffer, buffer.bytes
      ensures Sound() && Reading(old(Rest()))
      ensures r.Ok? ==>
        && var p := context.parameters.PlaintextSegmentLength();
        && buffer.Plaintext() == Ok(Payload(old(Rest())))
        && (r.value <==> |old(Rest())| <= p)
        && (!r.value ==> Rest() == old(Rest())[p..])
      ensures r.Err? ==> r.error == Device
      ensures old(inner.Reliable()) ==> inner.Reliable() && r.Ok?
    {
      hide EncryptReader.Encrypted, EncryptReader.Message, EncryptReader.Rest, Encryptor.Valid, Encryptor.Nonces, SegmentKey, Source.Reliable;
      r := FillBuffer();
    }

    method FillBuffer() returns (r: IoResult<bool>)
      requires buffer.Valid() && buffer.parameters == context.parameters
      modifies this`lookahead, inner, buffer, buffer.bytes
      ensures buffer.Valid()
      ensures r.Ok? ==>
        && var p := context.parameters.PlaintextSegmentLength();
        && buffer.Plaintext() == Ok(Payload(old(Rest())))
        && (r.value <==> |old(Rest())| <= p)
        && (!r.value ==> Rest() == old(Rest())[p..])
      ensures r.Err? ==> r.error == Device
      ensures old(inner.Reliable()) ==> inner.Reliable() && r.Ok?
    {
      hide Source.Remaining, Source.Reliable;
      var capacity := buffer.parameters.PlaintextSegmentLength();
      var _ := buffer.PreparePlaintext(capacity);
      var length :- FillStorage(capacity);
      var isFinal := true;
      if length == capacity {
        lookahead :- ReadOne(inner);
        isFinal := lookahead.None?;
      }
      var _ := buffer.TruncatePlaintext(length);
      return Ok(isFinal);
    }

    /** Moves the byte read ahead and as much of the source as fits into the payload. */
    method FillStorage(capacity: nat) returns (r: IoResult<nat>)
      requires buffer.Valid() && buffer.state == BufferState.Plaintext(capacity) && capacity > 0
      modifies this`lookahead, inner, buffer.bytes
      ensures r.Ok? ==>
        && r.value == Min(capacity, |old(Rest())|)
        && buffer.bytes[PAYLOAD_OFFSET..PAYLOAD_OFFSET + r.value] == old(Rest())[..r.value]
        && lookahead == None && inner.Remaining() == old(Rest())[r.value..]
      ensures r.Err? ==> r.error == Device
      ensures old(inner.Reliable()) ==> inner.Reliable() && r.Ok?
    {
      hide Splice, Source.Remaining, Source.Reliable;
      ghost var ahead := if lookahead.Some? then [lookahead.value] else [];
      ghost var source := inner.Remaining();
      var length := 0;
      if lookahead.Some? {
        buffer.bytes[PAYLOAD_OFFSET] := lookahead.value;
        length := 1;
      }
      lookahead := None;
      var start := PAYLOAD_OFFSET + length;
      ghost var before := buffer.bytes[..];
      var read :- ReadFully(inner, buffer.bytes, start, PAYLOAD_OFFSET + capacity);
      JoinedRead(before, ahead, source, read, capacity);
      assert buffer.bytes[PAYLOAD_OFFSET..start + read] == buffer.bytes[..][PAYLOAD_OFFSET..start + read];
      return Ok(length + read);
    }

    /** The byte read ahead and the bytes read behind it are the front of what was left. */
    lemma JoinedRead(before: Bytes, ahead: Bytes, source: Bytes, read: nat, capacity: nat)
      requires PAYLOAD_OFFSET + capacity <= |before| && |ahead| <= capacity
      requires before[PAYLOAD_OFFSET..PAYLOAD_OFFSET + |ahead|] == ahead
      requires read == Min(capacity - |ahead|, |source|)
      ensures var rest, length := ahead + source, |ahead| + read;
        && length == Min(capacity, |rest|)
        && Splice(before, PAYLOAD_OFFSET + |ahead|, source[..read])[PAYLOAD_OFFSET..PAYLOAD_OFFSET + length] == rest[..length]
        && source[read..] == rest[length..]
    {
    }

    /** The next payload is the next chunk of the canonical encoding, and it is the last one exactly
        when that encoding ends here. */
    lemma NextPayload(count: nat, rest: Bytes)
      requires Encrypted(count, produced, rest)
      ensures var p := context.parameters.PlaintextSegmentLength();
        && (|rest| > p ==>
              && count < CanonicalNonFinal(context.parameters, plaintext)
              && Times(count, p) + p < |plaintext|
              && rest[..p] == Chunk(context.parameters, plaintext, count)
              && Encrypted(count + 1, produced + SealedSegment(context, count, NonFinal, nonces(count), rest[..p]), rest[p..]))
        && (|rest| <= p ==>
              && count == CanonicalNonFinal(context.parameters, plaintext)
              && CanonicalEncoding(context, nonces, plaintext) == produced + SealedSegment(context, count, Final, nonces(count), rest))
    {
      hide SealedSegment, CanonicalNonFinal;
      var p := context.parameters.PlaintextSegmentLength();
      RecountLastPayload(count, rest, p);
      if |rest| > p {
        assert plaintext[Times(count + 1, p)..] == rest[p..];
      }
    }

    /** An able reader can seal its next segment. */
    lemma UsableKey(count: nat)
      ensures KeysAvailable(context, CanonicalNonFinal(context.parameters, plaintext)) && count <= CanonicalNonFinal(context.parameters, plaintext) ==>
        && SegmentKey(context, count).Ok?
        && CanonicalNonFinal(context.parameters, plaintext) < MAX_SEGMENTS
    {
      hide SegmentKey, CanonicalCount;
      if KeysAvailable(context, CanonicalNonFinal(context.parameters, plaintext)) {
        assert SegmentKey(context, CanonicalNonFinal(context.parameters, plaintext)).Ok?;
      }
    }

    lemma RecountLastPayload(count: nat, rest: Bytes, p: nat)
      requires p == context.parameters.PlaintextSegmentLength()
      requires Encrypted(count, produced, rest)
      ensures |rest| <= p ==> count == CanonicalNonFinal(context.parameters, plaintext)
      ensures |rest| > p ==> count < CanonicalNonFinal(context.parameters, plaintext)
    {
      hide CanonicalCount, NonFinalRun;
      if |rest| <= p {
        RecountLastUnit(|plaintext|, p, count + 1);
      } else {
        CanonicalCountBounds(|plaintext|, p);
        if CanonicalNonFinal(context.parameters, plaintext) <= count {
          TimesMonotone(CanonicalNonFinal(context.parameters, plaintext), count, p);
        }
      }
    }

    /** Segments produced on the way are a prefix of the whole message. */
    lemma ProducedPrefix(count: nat, rest: Bytes)
      requires Encrypted(count, produced, rest)
      ensures header + produced <= Message()
    {
      hide SealedSegment, NonFinalRun, CanonicalCount, Encoding;
      var canonical := CanonicalNonFinal(context.parameters, plaintext);
      var p := context.parameters.PlaintextSegmentLength();
      CanonicalCountBounds(|plaintext|, p);
      if count > canonical {
        TimesMonotone(canonical + 1, count, p);
      }
      EncodingFrontToBack(context, nonces, plaintext, canonical, count);
      assert header + (produced + EncodingFrom(context, nonces, plaintext, canonical, count)) ==
             (header + produced) + EncodingFrom(context, nonces, plaintext, canonical, count);
    }

    /** Able to seal the next segment of this kind. */
    ghost predicate CanSealNext(isFinal: bool)
      requires encryptor != null && buffer.Valid()
      reads this, buffer, encryptor.Repr()
    {
      buffer.state.Plaintext? && encryptor.CanSeal(if isFinal then Final else NonFinal, buffer.state.length)
    }

    /** Seals the payload in the buffer in place. The final segment takes the encryptor. */
    method SealStored(isFinal: bool) returns (r: Outcome<nat>)
      requires encryptor != null && encryptor.Valid() && encryptor.InStep() && buffer.Valid() && buffer.state.Plaintext?
      requires {this, inner, buffer, buffer.bytes} !! encryptor.Repr() && buffer.parameters == encryptor.state.context.parameters
      requires encryptor.state.nonces.rng == rng
      modifies `encryptor, `status, encryptor.Repr(), buffer, buffer.bytes
      ensures buffer.Valid()
      ensures encryptor == (if isFinal then null else old(encryptor))
      ensures status == if isFinal then StreamStatus.Finished else old(status)
      ensures old(encryptor).Valid()
      ensures r.Ok? ==>
        && var sealer, position := old(encryptor), old(encryptor.counter.next);
        && SegmentKey(sealer.state.context, position).Ok?
        && buffer.state == BufferState.Ciphertext(r.value)
        && buffer.Ciphertext().value == SealedSegment(sealer.state.context, position, if isFinal then Final else NonFinal,
                                                     sealer.Nonces()(position), old(buffer.Plaintext().value))
        && (!isFinal ==> encryptor.InStep() && encryptor.counter.next == position + 1)
      ensures old(CanSealNext(isFinal)) ==> rng.Reliable() && r.Ok?
    {
      hide SealedSegment, SegmentKey, SegmentFits, Encryptor.Valid, Encryptor.Nonces, Rng.Reliable;
      if isFinal {
        var consumed := encryptor;
        encryptor := null;
        status := Finished;
        r := consumed.EncryptFinalSegmentInPlace(buffer);
      } else {
        r := encryptor.EncryptNonFinalSegmentInPlace(buffer);
      }
    }

    /** Seals the payload in the buffer into the caller's output. The final segment takes the
        encryptor. */
    method SealOut(isFinal: bool, output: array<Byte>) returns (r: Outcome<nat>)
      requires encryptor != null && encryptor.Valid() && encryptor.InStep() && buffer.Valid() && buffer.state.Plaintext?
      requires {this, inner, buffer, buffer.bytes} !! encryptor.Repr() && output !in encryptor.Repr() && output != buffer.bytes
      requires encryptor.state.nonces.rng == rng && output.Length >= OVERHEAD + buffer.state.length
      modifies `encryptor, `status, encryptor.Repr(), output
      ensures encryptor == (if isFinal then null else old(encryptor))
      ensures status == if isFinal then StreamStatus.Finished else old(status)
      ensures old(encryptor).Valid()
      ensures r.Ok? ==>
        && var sealer, position := old(encryptor), old(encryptor.counter.next);
        && SegmentKey(sealer.state.context, position).Ok?
        && OVERHEAD <= r.value <= output.Length
        && output[..r.value] == SealedSegment(sealer.state.context, position, if isFinal then Final else NonFinal,
                                              sealer.Nonces()(position), old(buffer.Plaintext().value))
        && output[r.value..] == old(output[r.value..])
        && (!isFinal ==> encryptor.InStep() && encryptor.counter.next == position + 1)
      ensures old(CanSealNext(isFinal)) ==> rng.Reliable() && r.Ok?
    {
      hide SealedSegment, SegmentKey, SegmentFits, Encryptor.Valid, Encryptor.Nonces, Rng.Reliable, EncryptionFailure;
      var plaintext := buffer.Plaintext().value;
      if isFinal {
        var consumed := encryptor;
        encryptor := null;
        status := Finished;
        r := consumed.EncryptFinalSegmentInto(plaintext, output, 0, output.Length);
      } else {
        r := encryptor.EncryptNonFinalSegmentInto(plaintext, output, 0, output.Length);
      }
    }

    /** What the next seal needs and what it brings. */
    lemma BeforeSeal(isFinal: bool, rest: Bytes)
      requires Sound() && status.Open? && Reading(rest)
      requires buffer.Plaintext() == Ok(Payload(rest))
      requires isFinal <==> |rest| <= context.parameters.PlaintextSegmentLength()
      ensures isFinal ==> Payload(rest) == rest
      ensures Able() ==> CanSealNext(isFinal)
      ensures SegmentKey(context, encryptor.counter.next).Ok? ==> KeysBefore(context, encryptor.counter.next + 1)
      ensures isFinal && SegmentKey(context, encryptor.counter.next).Ok? ==> KeysAvailable(context, CanonicalNonFinal(context.parameters, plaintext))
    {
      hide SealedSegment, NonFinalRun, CanonicalEncoding, CanonicalNonFinal, SegmentKey, Encryptor.Nonces, EncryptReader.Encrypted, EncryptReader.Message, Rng.Reliable;
      NextPayload(encryptor.counter.next, rest);
      UsableKey(encryptor.counter.next);
      if SegmentKey(context, encryptor.counter.next).Ok? {
        KeysExtend(context, encryptor.counter.next);
      }
    }

    /** Encrypts the payload in the buffer as the next segment. */
    method SealBuffer(isFinal: bool, ghost rest: Bytes) returns (r: IoResult<nat>)
      requires Sound() && status.Open? && Reading(rest)
      requires buffer.Plaintext() == Ok(Payload(rest))
      requires isFinal <==> |rest| <= context.parameters.PlaintextSegmentLength()
      requires !isFinal ==> Rest() == rest[context.parameters.PlaintextSegmentLength()..]
      modifies Repr - {inner}
      ensures Sound() && headerPosition == old(headerPosition) && delivered == old(delivered)
      ensures ciphertextPosition == old(ciphertextPosition) && ciphertextLength == old(ciphertextLength)
      ensures r.Ok? ==>
        && buffer.state == BufferState.Ciphertext(r.value)
        && header + produced == (header + old(produced)) + buffer.Ciphertext().value
        && (if isFinal then status.Finished? && Complete() else status.Open? && Reading(Rest()))
      ensures old(Able()) ==> Able() && r.Ok?
    {
      hide SealedSegment, NonFinalRun, CanonicalEncoding, CanonicalNonFinal, SegmentKey, Encryptor.Valid, Encryptor.Nonces, Encryptor.CanSeal,
           EncryptReader.Encrypted, EncryptReader.Message, EncryptReader.Rest, Rng.Reliable, KeysAvailable, KeysBefore;
      NextPayload(encryptor.counter.next, rest);
      BeforeSeal(isFinal, rest);
      var result := SealStored(isFinal);
      if result.Err? {
        return Err(Floe(result.error));
      }
      produced := produced + buffer.Ciphertext().value;
      return Ok(result.value);
    }

    /** Encrypts the payload in the buffer as the next segment, into the caller's output. */
    method SealInto(isFinal: bool, output: array<Byte>, ghost rest: Bytes) returns (r: IoResult<nat>)
      requires Sound() && status.Open? && Reading(rest)
      requires output !in Repr && output.Length >= context.parameters.ciphertextSegmentLength
      requires buffer.Plaintext() == Ok(Payload(rest))
      requires isFinal <==> |rest| <= context.parameters.PlaintextSegmentLength()
      requires !isFinal ==> Rest() == rest[context.parameters.PlaintextSegmentLength()..]
      modifies Repr - {inner}, output
      ensures Sound() && headerPosition == old(headerPosition) && delivered == old(delivered)
      ensures ciphertextPosition == old(ciphertextPosition) && ciphertextLength == old(ciphertextLength)
      ensures r.Ok? ==>
        && 0 < r.value <= output.Length
        && header + produced == (header + old(produced)) + output[..r.value]
        && output[r.value..] == old(output[r.value..])
        && (if isFinal then status.Finished? && Complete() else status.Open? && Reading(Rest()))
      ensures old(Able()) ==> Able() && r.Ok?
    {
      hide SealedSegment, NonFinalRun, CanonicalEncoding, CanonicalNonFinal, SegmentKey, Encryptor.Valid, Encryptor.Nonces, Encryptor.CanSeal,
           EncryptReader.Encrypted, EncryptReader.Message, EncryptReader.Rest, Rng.Reliable, KeysAvailable, KeysBefore;
      NextPayload(encryptor.counter.next, rest);
      BeforeSeal(isFinal, rest);
      var result := SealOut(isFinal, output);
      if result.Err? {
        return Err(Floe(result.error));
      }
      produced := produced + output[..result.value];
      return Ok(result.value);
    }

    method TryLoadSegment() returns (r: IoResult<()>)
      requires Valid() && status.Open? && headerPosition == HEADER_LENGTH && ciphertextPosition == ciphertextLength
      modifies Repr
      ensures Sound() && delivered == old(delivered)
      ensures r.Ok? ==> Valid() && !status.Failed? && headerPosition == HEADER_LENGTH && ciphertextPosition < ciphertextLength
      ensures old(Able() && inner.Reliable()) ==> Able() && inner.Reliable() && r.Ok?
    {
      hide EncryptReader.Reading, EncryptReader.Complete, EncryptReader.Message, EncryptReader.Rest, Source.Reliable, Rng.Reliable, KeysAvailable;
      ghost var rest := Rest();
      assert Pending() == [] && delivered + [] == delivered;
      var isFinal :- FillPlaintext();
      ciphertextPosition := 0;
      ciphertextLength :- SealBuffer(isFinal, rest);
      assert Pending() == buffer.Ciphertext().value;
      return Ok(());
    }

    /** Produces the next segment into the buffer; any failure poisons the reader. */
    method LoadSegment() returns (r: IoResult<()>)
      requires Valid() && status.Open? && headerPosition == HEADER_LENGTH && ciphertextPosition == ciphertextLength
      modifies Repr
      ensures Valid() && delivered == old(delivered)
      ensures r.Ok? ==> !status.Failed? && headerPosition == HEADER_LENGTH && ciphertextPosition < ciphertextLength
      ensures r.Err? ==> status.Failed?
      ensures old(Able() && inner.Reliable()) ==> Able() && inner.Reliable() && r.Ok?
    {
      r := TryLoadSegment();
      if r.Err? {
        status := Failed;
      }
    }

    /** Encrypts the next segment straight into the caller's output. */
    method TryEmitSegmentDirect(output: array<Byte>) returns (r: IoResult<nat>)
      requires Valid() && status.Open? && headerPosition == HEADER_LENGTH && ciphertextPosition == ciphertextLength
      requires output !in Repr && output.Length >= context.parameters.ciphertextSegmentLength
      modifies Repr, output
      ensures Sound()
      ensures r.Ok? ==>
        && Valid() && !status.Failed?
        && 0 < r.value <= output.Length
        && delivered == old(delivered) + output[..r.value] && output[r.value..] == old(output[r.value..])
      ensures r.Err? ==> delivered == old(delivered)
      ensures old(Able() && inner.Reliable()) ==> Able() && inner.Reliable() && r.Ok?
    {
      hide EncryptReader.Reading, EncryptReader.Complete, EncryptReader.Message, EncryptReader.Rest, Source.Reliable, Rng.Reliable, KeysAvailable;
      ghost var rest := Rest();
      assert Pending() == [] && delivered + [] == delivered;
      var isFinal :- FillPlaintext();
      var written :- SealInto(isFinal, output, rest);
      DeliveredAll();
      delivered := header + produced;
      assert Pending() == [] && delivered + [] == delivered;
      return Ok(written);
    }

    /** Everything produced may be delivered. */
    lemma DeliveredAll()
      requires Sound() && !status.Failed?
      requires status.Open? ==> Reading(Rest())
      requires status.Finished? ==> Complete()
      ensures header + produced <= Message()
    {
      hide EncryptReader.Encrypted, Encryptor.Valid, CanonicalEncoding;
      if status.Open? {
        ProducedPrefix(encryptor.counter.next, Rest());
      }
    }

    /** Produces the next segment into the caller's output; any failure poisons the reader. */
    method EmitSegmentDirect(output: array<Byte>) returns (r: IoResult<nat>)
      requires Valid() && status.Open? && headerPosition == HEADER_LENGTH && ciphertextPosition == ciphertextLength
      requires output !in Repr && output.Length >= context.parameters.ciphertextSegmentLength
      modifies Repr, output
      ensures Valid()
      ensures r.Ok? ==>
        && !status.Failed?
        && 0 < r.value <= output.Length
        && delivered == old(delivered) + output[..r.value] && output[r.value..] == old(output[r.value..])
      ensures r.Err? ==> status.Failed? && delivered == old(delivered)
      ensures old(Able() && inner.Reliable()) ==> Able() && inner.Reliable() && r.Ok?
    {
      r := TryEmitSegmentDirect(output);
      if r.Err? {
        status := Failed;
      }
    }

    /** The caller has the whole message. */
    predicate IsFinished()
      reads this
    {
      status.Finished? && ciphertextPosition == ciphertextLength
    }

    /** Delivers the next bytes of the message. Nothing is delivered only at its end. */
    method Read(output: array<Byte>) returns (r: IoResult<nat>)
      requires Valid() && output !in Repr
      modifies Repr, output
      ensures Valid()
      ensures r.Ok? ==>
        && r.value <= output.Length
        && delivered == old(delivered) + output[..r.value] && output[r.value..] == old(output[r.value..])
      ensures r.Ok? && r.value == 0 && output.Length > 0 ==> delivered == Message() && IsFinished()
      ensures r.Err? ==> status.Failed? && delivered == old(delivered)
      ensures r.Ok? && output.Length > 0 ==> !status.Failed?
      ensures old(status).Failed? && output.Length > 0 ==> r == Err(Poisoned)
      ensures old(Able() && inner.Reliable()) && !old(status).Failed? ==> Able() && inner.Reliable() && r.Ok?
    {
      hide EncryptReader.Reading, EncryptReader.Rest, KeysAvailable, CanonicalEncoding, CanonicalNonFinal;
      if output.Length == 0 {
        assert delivered + [] == delivered;
        return Ok(0);
      }
      if status.Failed? {
        return Err(Poisoned);
      }
      if headerPosition < HEADER_LENGTH {
        r := DeliverHeader(output);
        return;
      }
      if ciphertextPosition == ciphertextLength {
        if status.Finished? {
          assert delivered + [] == delivered;
          return Ok(0);
        }
        if output.Length >= buffer.parameters.ciphertextSegmentLength {
          r := EmitSegmentDirect(output);
          return;
        }
        var _ :- LoadSegment();
      }
      r := DeliverPending(output);
    }

    method DeliverHeader(output: array<Byte>) returns (r: IoResult<nat>)
      requires Valid() && !status.Failed? && headerPosition < HEADER_LENGTH
      requires output !in Repr && output.Length > 0
      modifies this`headerPosition, this`delivered, output
      ensures Valid()
      ensures r.Ok? && 0 < r.value <= output.Length
      ensures delivered == old(delivered) + output[..r.value] && output[r.value..] == old(output[r.value..])
    {
      hide EncryptReader.Reading, EncryptReader.Rest, KeysAvailable, CanonicalEncoding, CanonicalNonFinal;
      var read := Min(output.Length, HEADER_LENGTH - headerPosition);
      var end := headerPosition + read;
      forall i | 0 <= i < read {
        output[i] := header[headerPosition + i];
      }
      assert output[..read] == header[headerPosition..end];
      assert header[..headerPosition] + header[headerPosition..end] == header[..end];
      headerPosition := end;
      delivered := header[..end];
      assert delivered <= header;
      return Ok(read);
    }

    method DeliverPending(output: array<Byte>) returns (r: IoResult<nat>)
      requires Valid() && !status.Failed? && headerPosition == HEADER_LENGTH && ciphertextPosition < ciphertextLength
      requires output !in Repr && output.Length > 0
      modifies this`ciphertextPosition, this`delivered, output
      ensures Valid()
      ensures r.Ok? && 0 < r.value <= output.Length
      ensures delivered == old(delivered) + output[..r.value] && output[r.value..] == old(output[r.value..])
    {
      hide EncryptReader.Reading, EncryptReader.Complete, EncryptReader.Rest, EncryptReader.Message, CanonicalNonFinal;
      DeliveredAll();
      ghost var pending, given := Pending(), delivered;
      var ciphertext := buffer.Ciphertext().value;
      var read := Min(output.Length, ciphertextLength - ciphertextPosition);
      var end := ciphertextPosition + read;
      forall i | 0 <= i < read {
        output[i] := ciphertext[ciphertextPosition + i];
      }
      assert output[..read] == pending[..read];
      ciphertextPosition := end;
      delivered := delivered + pending[..read];
      assert Pending() == pending[read..];
      assert (given + pending[..read]) + pending[read..] == given + pending;
      return Ok(read);
    }
  }
}
