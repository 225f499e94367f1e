/** Whole messages in memory: `encrypt`, `decrypt` and `decrypt_with_parameters` (src/online.rs). */
module OneShot {
  import opened ByteStrings
  import opened Failures
  import opened Arithmetic
  import opened ParameterSets
  import opened CipherSuites
  import opened Segments
  import opened Messages
  import opened Authenticity
  import opened Randomness
  import opened States
  import opened Online

  /** The segments of a planned layout are the chunks of the canonical encoding. */
  lemma LayoutChunks(layout: MessageLayout, plaintext: Bytes, position: nat)
    requires layout.Canonical() && |plaintext| == layout.plaintextLength && position < layout.segmentCount
    ensures layout.segmentCount - 1 == CanonicalNonFinal(layout.parameters, plaintext)
    ensures var s, p := SegmentAt(layout, position), layout.parameters.PlaintextSegmentLength();
      && s.plaintextOffset == Times(position, p)
      && s.plaintextOffset + s.plaintextLength <= |plaintext|
      && s.ciphertextOffset == HEADER_LENGTH + Times(position, layout.parameters.ciphertextSegmentLength)
      && SegmentFits(layout.parameters, s.kind, s.plaintextLength)
      && (s.kind.NonFinal? ==>
           && Times(position + 1, p) <= |plaintext|
           && plaintext[s.plaintextOffset..s.plaintextOffset + s.plaintextLength] == Chunk(layout.parameters, plaintext, position))
      && (s.kind.Final? ==> plaintext[s.plaintextOffset..s.plaintextOffset + s.plaintextLength] == plaintext[Times(position, p)..])
  {
    var p := layout.parameters.PlaintextSegmentLength();
    CanonicalCountUnique(|plaintext|, p, layout.segmentCount);
    LayoutTiles(layout, position);
    if position + 1 < layout.segmentCount {
      OffsetBounds(layout, position + 1);
    }
  }

  /** The part of a message written after `position` segments of its layout. */
  function Written(context: MessageContext, header: Bytes, nonces: Nonces, layout: MessageLayout, plaintext: Bytes, position: nat): (r: Bytes)
    requires layout.parameters == context.parameters && layout.Canonical() && |plaintext| == layout.plaintextLength
    requires position <= layout.segmentCount
  {
    LayoutChunks(layout, plaintext, 0);
    if position == layout.segmentCount then
      header + CanonicalEncoding(context, nonces, plaintext)
    else
      LayoutChunks(layout, plaintext, position);
      header + NonFinalRun(context, nonces, plaintext, position)
  }

  /** One more segment of the layout extends what is written by exactly that sealed segment, and
      keeps within the ciphertext length of the layout. */
  lemma WrittenGrows(context: MessageContext, header: Bytes, nonces: Nonces, layout: MessageLayout, plaintext: Bytes, position: nat)
    requires layout.parameters == context.parameters && layout.Canonical() && |plaintext| == layout.plaintextLength
    requires position < layout.segmentCount && |header| == HEADER_LENGTH
    ensures var s := SegmentAt(layout, position);
      && s.plaintextOffset + s.plaintextLength <= |plaintext|
      && |Written(context, header, nonces, layout, plaintext, position)| == s.ciphertextOffset
      && Written(context, header, nonces, layout, plaintext, position + 1) ==
         Written(context, header, nonces, layout, plaintext, position) +
         SealedSegment(context, position, s.kind, nonces(position), plaintext[s.plaintextOffset..s.plaintextOffset + s.plaintextLength])
  {
    hide SealedSegment, SegmentAt, Chunk, CanonicalCount, Encoding;
    LayoutTiles(layout, position);
    LayoutChunks(layout, plaintext, position);
    var s := SegmentAt(layout, position);
    var chunk := plaintext[s.plaintextOffset..s.plaintextOffset + s.plaintextLength];
    var run, segment := NonFinalRun(context, nonces, plaintext, position), SealedSegment(context, position, s.kind, nonces(position), chunk);
    assert header + (run + segment) == (header + run) + segment;
    if s.kind.Final? {
      EncodingParts(context, nonces, plaintext, position);
    }
  }

  lemma EncodingParts(context: MessageContext, nonces: Nonces, plaintext: Bytes, count: nat)
    requires Splits(context.parameters, plaintext, count)
    ensures Encoding(context, nonces, plaintext, count) ==
            NonFinalRun(context, nonces, plaintext, count) +
            SealedSegment(context, count, Final, nonces(count), plaintext[Times(count, context.parameters.PlaintextSegmentLength())..])
  {
  }

  /** Encrypts the next segment of the layout behind the `length` bytes already written. */
  method EncryptPlannedSegment(encryptor: Encryptor, layout: MessageLayout, plaintext: Bytes, position: nat, ciphertext: array<Byte>, length: nat)
    returns (r: Outcome<nat>)
    requires encryptor.Valid() && encryptor.InStep() && encryptor.counter.next == position < layout.segmentCount
    requires layout.parameters == encryptor.state.context.parameters && layout.Canonical() && |plaintext| == layout.plaintextLength
    requires |encryptor.header| == HEADER_LENGTH
    requires ciphertext !in encryptor.Repr() && length <= ciphertext.Length == layout.ciphertextLength
    requires ciphertext[..length] == Written(encryptor.state.context, encryptor.header, encryptor.Nonces(), layout, plaintext, position)
    modifies encryptor.Repr(), ciphertext
    ensures encryptor.Valid()
    ensures r.Ok? ==>
      && SegmentKey(encryptor.state.context, position).Ok?
      && length <= r.value <= ciphertext.Length
      && ciphertext[..r.value] == Written(encryptor.state.context, encryptor.header, encryptor.Nonces(), layout, plaintext, position + 1)
      && (if position + 1 < layout.segmentCount then encryptor.InStep() && encryptor.counter.next == position + 1
          else r.value == ciphertext.Length)
    ensures r.Err? ==> r.error == RngFailure || SegmentKey(encryptor.state.context, position) == Err(r.error)
    ensures old(encryptor.state.nonces.rng.Reliable()) ==> encryptor.state.nonces.rng.Reliable() && r != Err(RngFailure)
  {
    hide SealedSegment, SegmentKey, SegmentAt, Encryptor.Nonces, Written, EncryptionFailure, NonFinalRun, CanonicalCount, Times, Rng.Reliable;
    LayoutTiles(layout, position);
    LayoutChunks(layout, plaintext, position);
    WrittenGrows(encryptor.state.context, encryptor.header, encryptor.Nonces(), layout, plaintext, position);
    var segment := SegmentAt(layout, position);
    var chunk := plaintext[segment.plaintextOffset..segment.plaintextOffset + segment.plaintextLength];
    var end := length + segment.ciphertextLength;
    ghost var before := ciphertext[..length];
    var written: Outcome<nat>;
    match segment.kind {
      case NonFinal => written := encryptor.EncryptNonFinalSegmentInto(chunk, ciphertext, length, end);
      case Final => written := encryptor.EncryptFinalSegmentInto(chunk, ciphertext, length, end);
    }
    if written.Err? {
      FailureCause(encryptor.state.context, segment.kind, |chunk|, position, end - length, written.error);
      return Err(written.error);
    }
    assert ciphertext[..end] == before + SealedSegment(encryptor.state.context, position, segment.kind, encryptor.Nonces()(position), chunk);
    return Ok(end);
  }

  /** Encrypts segment by segment into one allocation of the planned length. */
  method EncryptBody(encryptor: Encryptor, plaintext: Bytes) returns (r: Outcome<Bytes>)
    requires encryptor.Valid() && encryptor.InStep() && encryptor.counter.next == 0
    requires |encryptor.header| == HEADER_LENGTH && |plaintext| <= U64_MAX
    modifies encryptor.Repr()
    ensures var context := encryptor.state.context;
            var layout := context.parameters.PlaintextLayout(|plaintext|);
      && (layout.Err? ==> r == Err(layout.error))
      && (r.Ok? ==>
            && r.value == encryptor.header + CanonicalEncoding(context, encryptor.Nonces(), plaintext)
            && KeysAvailable(context, CanonicalNonFinal(context.parameters, plaintext)))
      && (layout.Ok? && r.Err? && r.error != RngFailure ==>
            exists position :: 0 <= position < layout.value.segmentCount && SegmentKey(context, position) == Err(r.error))
    ensures old(encryptor.state.nonces.rng.Reliable()) ==> r != Err(RngFailure)
  {
    hide SegmentKey, Encryptor.Valid, Encryptor.Nonces, CanonicalEncoding, Written, CanonicalCount, Rng.Reliable;
    var context := encryptor.state.context;
    var layout :- context.parameters.PlaintextLayout(|plaintext|);
    var ciphertext := new Byte[layout.ciphertextLength](_ => 0);
    forall i | 0 <= i < HEADER_LENGTH {
      ciphertext[i] := encryptor.header[i];
    }
    var length: nat := HEADER_LENGTH;
    assert ciphertext[..length] == encryptor.header;
    WrittenStart(context, encryptor.header, encryptor.Nonces(), layout, plaintext);
    for position := 0 to layout.segmentCount
      invariant encryptor.Valid()
      invariant position < layout.segmentCount ==> encryptor.InStep() && encryptor.counter.next == position
      invariant length <= ciphertext.Length
      invariant ciphertext[..length] == Written(context, encryptor.header, encryptor.Nonces(), layout, plaintext, position)
      invariant position == layout.segmentCount ==> length == ciphertext.Length
      invariant old(encryptor.state.nonces.rng.Reliable()) ==> encryptor.state.nonces.rng.Reliable()
      invariant forall p :: 0 <= p < position ==> SegmentKey(context, p).Ok?
    {
      length :- EncryptPlannedSegment(encryptor, layout, plaintext, position, ciphertext, length);
    }
    LayoutChunks(layout, plaintext, 0);
    WrittenEnd(context, encryptor.header, encryptor.Nonces(), layout, plaintext);
    return Ok(ciphertext[..length]);
  }

  lemma WrittenStart(context: MessageContext, header: Bytes, nonces: Nonces, layout: MessageLayout, plaintext: Bytes)
    requires layout.parameters == context.parameters && layout.Canonical() && |plaintext| == layout.plaintextLength
    ensures Written(context, header, nonces, layout, plaintext, 0) == header
  {
    assert header + [] == header;
  }

  lemma WrittenEnd(context: MessageContext, header: Bytes, nonces: Nonces, layout: MessageLayout, plaintext: Bytes)
    requires layout.parameters == context.parameters && layout.Canonical() && |plaintext| == layout.plaintextLength
    ensures Written(context, header, nonces, layout, plaintext, layout.segmentCount) == header + CanonicalEncoding(context, nonces, plaintext)
  {
  }

  /** Encrypts a complete plaintext, header included. */
  method Encrypt(suite: CipherSuite, key: Bytes, aad: Bytes, parameters: Parameters, plaintext: Bytes, rng: Rng) returns (r: Outcome<Bytes>)
    requires |plaintext| <= U64_MAX
    modifies rng
    ensures r.Ok? ==>
      && r.value == CanonicalMessage(suite, key, aad, parameters, rng.stream, old(rng.drawn), plaintext)
      && OpenMessage(suite, key, aad, None, r.value) == Some(plaintext)
      && parameters.PlaintextLayout(|plaintext|).Ok?
      && KeysAvailable(MessageContextAt(suite, key, aad, parameters, rng.stream, old(rng.drawn)), CanonicalNonFinal(parameters, plaintext))
    ensures old(rng.Reliable()) ==>
      (r.Ok? <==>
        && parameters.PlaintextLayout(|plaintext|).Ok?
        && KeysAvailable(MessageContextAt(suite, key, aad, parameters, rng.stream, old(rng.drawn)), CanonicalNonFinal(parameters, plaintext)))
  {
    hide MessageHeader, MessageNonces, CanonicalEncoding, OpenMessage, Encryptor.Nonces, EncryptionFailure;
    var encryptor :- Encryptor.New(suite, key, aad, parameters, rng);
    var message :- EncryptBody(encryptor, plaintext);
    CanonicalMessageOpens(suite, key, aad, parameters, rng.stream, old(rng.drawn), plaintext, None);
    return Ok(message);
  }

  lemma CanonicalMessageOpens(
    suite: CipherSuite, key: Bytes, aad: Bytes, parameters: Parameters, stream: ByteStream, drawn: nat, plaintext: Bytes, required: Option<Parameters>)
    requires KeysAvailable(MessageContextAt(suite, key, aad, parameters, stream, drawn), CanonicalNonFinal(parameters, plaintext))
    requires required.Some? ==> required.value == parameters
    ensures OpenMessage(suite, key, aad, required, CanonicalMessage(suite, key, aad, parameters, stream, drawn, plaintext)) == Some(plaintext)
  {
    hide OpenMessage, Header, Encoding, NonceStream, CanonicalCount, NewContext;
    MessageRoundTrip(suite, key, aad, parameters, MessageIv(stream, drawn), MessageNonces(stream, drawn), plaintext,
                     CanonicalNonFinal(parameters, plaintext), required);
  }

  function SplitHeader(ciphertext: Bytes): (r: Outcome<(Bytes, Bytes)>)
    ensures r.Ok? <==> |ciphertext| >= HEADER_LENGTH
    ensures r.Ok? ==> |r.value.0| == HEADER_LENGTH && r.value.0 + r.value.1 == ciphertext
  {
    if |ciphertext| < HEADER_LENGTH then Err(InvalidHeaderLength(|ciphertext|))
    else Ok((ciphertext[..HEADER_LENGTH], ciphertext[HEADER_LENGTH..]))
  }

  /** Where the decryption of a body stands once `rest` is left of it. */
  ghost predicate DecryptingBody(decryptor: Decryptor, body: Bytes, rest: Bytes, plaintext: Bytes)
    reads decryptor.Repr()
  {
    && decryptor.Valid()
    && |rest| <= |body| && rest == body[|body| - |rest|..]
    && |plaintext| + Times(|decryptor.counter.log|, OVERHEAD) + |rest| == |body|
    && (decryptor.counter.closed ==> rest == [] && Accepts(decryptor.state.context, body, plaintext))
    && (!decryptor.counter.closed ==>
         Progress(decryptor.state.context, body, decryptor.counter.next, |body| - |rest|, plaintext))
  }

  /** Decrypts the segment at the front of `rest` behind the `length` bytes of plaintext gathered so
      far. Framing keeps the storage, as long as the body, large enough. */
  method DecryptFrontSegment(decryptor: Decryptor, ghost body: Bytes, rest: Bytes, storage: array<Byte>, length: nat)
    returns (r: Outcome<(Bytes, nat)>)
    requires rest != [] && length <= storage.Length == |body|
    requires DecryptingBody(decryptor, body, rest, storage[..length])
    modifies decryptor.Repr(), storage
    ensures r.Ok? ==>
      && |r.value.0| < |rest| && length <= r.value.1 <= storage.Length
      && DecryptingBody(decryptor, body, r.value.0, storage[..r.value.1])
    ensures r.Err? ==> !Acceptable(decryptor.state.context, body)
  {
    hide FramedOpen, SegmentFraming.Decode, DecodeFrame, Progress;
    ghost var context, position, consumed, before := decryptor.state.context, decryptor.counter.next, |body| - |rest|, storage[..length];
    assert body[consumed..] == rest;
    if CannotStart(context, position, rest) {
      StuckProgress(context, body, position, consumed, before);
    } else {
      StepProgress(context, body, position, consumed, before, SegmentFraming.Decode(context.parameters, rest[..PREFIX_LENGTH]).value);
    }
    var prefix :- TakePrefix(rest, decryptor.state.context.parameters);
    var framing :- SegmentFraming.Decode(decryptor.state.context.parameters, prefix);
    var segmentLength := framing.ciphertextLength;
    if |rest| < segmentLength {
      return Err(InvalidCiphertextLength(|rest|, AtLeast(segmentLength)));
    }
    var segment := rest[..segmentLength];
    if framing.kind.Final? && segmentLength != |rest| {
      return Err(InvalidCiphertextLength(|rest|, Exactly(segmentLength)));
    }
    var end := length + framing.plaintextLength;
    var written :- decryptor.DecryptSegmentIntoFramed(segment, framing, storage, length, end);
    assert storage[..end] == before + FramedOpen(context, position, framing, segment).value;
    assert rest[segmentLength..] == body[consumed + segmentLength..];
    return Ok((rest[segmentLength..], end));
  }

  /** Decrypts a body that must be exactly one message. */
  method DecryptBody(decryptor: Decryptor, body: Bytes) returns (r: Outcome<Bytes>)
    requires decryptor.Valid() && decryptor.counter.log == []
    modifies decryptor.Repr()
    ensures r.Ok? <==> Acceptable(decryptor.state.context, body)
    ensures r.Ok? ==> Accepts(decryptor.state.context, body, r.value)
  {
    hide DecodeFrame, DecryptingBody;
    var rest := body;
    var storage := new Byte[|body|](_ => 0);
    var length: nat := 0;
    assert storage[..0] == [];
    NothingDecrypted(decryptor, body);
    while rest != []
      invariant length <= storage.Length
      invariant DecryptingBody(decryptor, body, rest, storage[..length])
      decreases |rest|
    {
      var next :- DecryptFrontSegment(decryptor, body, rest, storage, length);
      rest, length := next.0, next.1;
    }
    AllDecrypted(decryptor, body, storage[..length]);
    var _ :- decryptor.counter.Finish();
    return Ok(storage[..length]);
  }

  lemma NothingDecrypted(decryptor: Decryptor, body: Bytes)
    requires decryptor.Valid() && decryptor.counter.log == []
    ensures DecryptingBody(decryptor, body, body, [])
  {
    hide KeyCache.Valid;
  }

  /** With nothing left of the body, it was one message exactly if the final segment has come. */
  lemma AllDecrypted(decryptor: Decryptor, body: Bytes, plaintext: Bytes)
    requires DecryptingBody(decryptor, body, [], plaintext)
    ensures decryptor.counter.Valid()
    ensures if IsMessage(decryptor.counter.log) then Accepts(decryptor.state.context, body, plaintext)
            else !Acceptable(decryptor.state.context, body)
  {
    hide DecodeFrame, KeyCache.Valid;
    if !decryptor.counter.closed {
      StuckProgress(decryptor.state.context, body, decryptor.counter.next, |body|, plaintext);
    }
  }

  /** Decrypts a complete ciphertext, with the parameters its header declares or with required ones.
      It succeeds exactly when the provider opens every segment at its place. */
  method Decrypt(suite: CipherSuite, key: Bytes, aad: Bytes, required: Option<Parameters>, ciphertext: Bytes) returns (r: Outcome<Bytes>)
    ensures r.Ok? <==> OpenMessage(suite, key, aad, required, ciphertext).Some?
    ensures r.Ok? ==> OpenMessage(suite, key, aad, required, ciphertext) == Some(r.value)
    ensures forall plaintext :: r == Ok(plaintext) <==>
      && HeaderOpens(suite, key, aad, required, ciphertext)
      && Authentic(OpenedContext(suite, key, aad, required, ciphertext), ciphertext[HEADER_LENGTH..], plaintext)
  {
    hide StartContext, DecodeFrame, Authentic;
    forall plaintext
      ensures OpenMessage(suite, key, aad, required, ciphertext) == Some(plaintext) <==>
              && HeaderOpens(suite, key, aad, required, ciphertext)
              && Authentic(OpenedContext(suite, key, aad, required, ciphertext), ciphertext[HEADER_LENGTH..], plaintext)
    {
      OpensExactly(suite, key, aad, required, ciphertext, plaintext);
    }
    var parts :- SplitHeader(ciphertext);
    var (header, body) := parts;
    assert header == ciphertext[..HEADER_LENGTH] && body == ciphertext[HEADER_LENGTH..];
    var decryptor :- Decryptor.New(suite, key, aad, required, header);
    r := DecryptBody(decryptor, body);
  }
}
