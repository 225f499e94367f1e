/** Whole runs of the adapters, with any buffer sizes, any chunking, and any pattern of short reads
    and interruptions: the loops a caller of `std::io` writes around them (README.md:98-190). */
module Runs {
  import opened ByteStrings
  import opened Failures
  import opened Arithmetic
  import opened ParameterSets
  import opened CipherSuites
  import opened Segments
  import opened Messages
  import opened Randomness
  import opened States
  import opened Online
  import opened OneShot
  import opened Wire
  import opened EncryptWriters
  import opened EncryptReaders
  import opened DecryptReaders
  import opened RandomAccess
  import opened RandomReaders

  /** The `n`th buffer a caller offers has `sizes(n) + 1` bytes. */
  type BufferSizes = nat -> nat

  /** These bytes come from the segments at the front of a stream that open, and from nothing else. */
  ghost predicate FromSegments(context: MessageContext, stream: Bytes, bytes: Bytes) {
    exists count: nat :: OpenedRun(context, stream, count).Some? && bytes <= OpenedRun(context, stream, count).value.plaintext
  }

  /** These bytes are the plaintext of all segments at the front of a stream that open. */
  ghost predicate AllThatOpens(context: MessageContext, stream: Bytes, bytes: Bytes) {
    exists count: nat ::
      && OpenedRun(context, stream, count).Some? && OpenedRun(context, stream, count).value.plaintext == bytes
      && OpenedRun(context, stream, count + 1) == None
  }

  /** Decrypts a stream by reading it to the end and finishing. The result is that of one-shot
      decryption, whatever the buffer sizes; only a failing source can make it fail otherwise. On every
      stream, truncated or forged ones included, the caller has got plaintext of opened segments only,
      and without a failing source all of it. */
  method DecryptStream(
    suite: CipherSuite, key: Bytes, aad: Bytes, required: Option<Parameters>,
    ciphertext: Bytes, readScript: seq<ReadEvent>, sizes: BufferSizes)
    returns (r: IoResult<Bytes>, got: Bytes)
    ensures r.Ok? ==> OpenMessage(suite, key, aad, required, ciphertext) == Some(r.value) && got == r.value
    ensures r.Err? && r.error != Device ==> OpenMessage(suite, key, aad, required, ciphertext) == None
    ensures Fail !in readScript ==> r != Err(Device)
    ensures !HeaderOpens(suite, key, aad, required, ciphertext) ==> got == []
    ensures HeaderOpens(suite, key, aad, required, ciphertext) ==>
      var context := OpenedContext(suite, key, aad, required, ciphertext);
      && FromSegments(context, ciphertext[HEADER_LENGTH..], got)
      && (r != Err(Device) ==> AllThatOpens(context, ciphertext[HEADER_LENGTH..], got))
  {
    hide StartContext, DecodeFrame, OpenedRun, Source.Reliable, DecryptReader.Live;
    var source := new Source(ciphertext, 0, readScript, []);
    ReliableFrom(source);
    assert source.Remaining() == ciphertext;
    got := [];
    var opening := DecryptReader.New(source, suite, key, aad, required);
    if opening.Err? {
      if HeaderOpens(suite, key, aad, required, ciphertext) {
        NothingOpened(OpenedContext(suite, key, aad, required, ciphertext), ciphertext[HEADER_LENGTH..]);
      }
      return Err(opening.error), got;
    }
    var reader := opening.value;
    var atEnd := false;
    var n := 0;
    while !atEnd
      invariant reader.Valid() && fresh(reader.Repr) && reader.inner == source
      invariant got == reader.delivered && reader.untouched && !reader.skipped && !reader.status.Failed?
      invariant atEnd ==> reader.IsFinished() && reader.delivered == reader.unsealed
      invariant Fail !in readScript ==> source.Reliable()
      decreases !atEnd, |ciphertext| - |got|
    {
      var output := new Byte[sizes(n) + 1](_ => 0);
      var read := ReadSome(reader, output);
      if read.Err? {
        return Err(read.error), got;
      }
      got := got + output[..read.value];
      atEnd := read.value == 0;
      n := n + 1;
    }
    AllOpened(reader);
    var finished := Finish(reader);
    return if finished.Ok? then Ok(got) else Err(finished.error), got;
  }

  lemma NothingOpened(context: MessageContext, stream: Bytes)
    ensures FromSegments(context, stream, [])
  {
    hide OpenNext;
    assert OpenedRun(context, stream, 0) == Some(Run([], 0, false));
  }

  /** The segments a finished reader has opened cannot be followed by another. */
  lemma AllOpened(reader: DecryptReader)
    requires reader.Valid() && reader.IsFinished()
    ensures AllThatOpens(reader.context, reader.stream, reader.unsealed)
    ensures FromSegments(reader.context, reader.stream, reader.unsealed)
  {
    hide OpenNext, DecryptReader.Flowing, Source.Remaining;
    RunUnfolds(reader.context, reader.stream, reader.segments);
  }

  /** One read of an unfinished, unspoiled reader. */
  method ReadSome(reader: DecryptReader, output: array<Byte>) returns (r: IoResult<nat>)
    requires reader.Valid() && output !in reader.Repr && output.Length > 0
    requires reader.untouched && !reader.skipped && !reader.status.Failed?
    modifies reader.Repr, output
    ensures reader.Valid()
    ensures r.Ok? ==>
      && r.value <= output.Length && reader.delivered == old(reader.delivered) + output[..r.value]
      && reader.untouched && !reader.skipped && !reader.status.Failed?
      && |reader.delivered| <= |reader.stream|
      && (r.value == 0 ==> reader.IsFinished() && reader.delivered == reader.unsealed)
    ensures r.Err? ==> FromSegments(reader.context, reader.stream, old(reader.delivered))
    ensures r.Err? && r.error != Device ==>
      && DecodeFrame(reader.context, 0, reader.stream) == None
      && AllThatOpens(reader.context, reader.stream, old(reader.delivered))
    ensures old(reader.inner.Reliable()) ==> reader.inner.Reliable() && r != Err(Device)
  {
    hide DecodeFrame, OpenedRun, Source.Reliable, DecryptReader.Reading;
    r := reader.Read(output);
  }

  method Finish(reader: DecryptReader) returns (r: IoResult<()>)
    requires reader.Valid() && reader.untouched && !reader.skipped && reader.IsFinished()
    modifies reader.Repr
    ensures r.Ok? ==> Accepts(reader.context, reader.stream, old(reader.unsealed))
    ensures r.Err? && r.error != Device ==> !Acceptable(reader.context, reader.stream)
    ensures old(reader.inner.Reliable()) ==> r != Err(Device)
  {
    hide DecodeFrame, OpenedRun, Source.Reliable, DecryptReader.Reading;
    ghost var unsealed, consumed := reader.unsealed, reader.consumed;
    assert DecodeFrame(reader.context, 0, reader.stream) == Some(Frame(unsealed, consumed));
    r := reader.TryFinish();
  }

  /** Decrypts a stream through the random-access reader, all of it as one range. */
  method DecryptSeekable(
    suite: CipherSuite, key: Bytes, aad: Bytes, required: Option<Parameters>,
    ciphertext: Bytes, readScript: seq<ReadEvent>, seekScript: seq<bool>)
    returns (r: IoResult<Bytes>)
    requires |ciphertext| <= U64_MAX
    ensures r.Ok? ==> OpenMessage(suite, key, aad, required, ciphertext) == Some(r.value)
    ensures r.Err? && r.error != Device ==> OpenMessage(suite, key, aad, required, ciphertext) == None
    ensures Fail !in readScript && false !in seekScript ==> r != Err(Device)
  {
    hide SeekableOpens, StartContext, DecodeFrame, OpenAt, Source.Reliable, IsRange, Unreadable, Reader.Remembering, Parameters.CiphertextLayout;
    var source := new Source(ciphertext, 0, readScript, seekScript);
    ReliableFrom(source);
    assert source.Remaining() == ciphertext;
    var reader :- Reader.New(source, suite, key, aad, required);
    r := reader.ReadRange(Unbounded, Unbounded);
    if r.Ok? {
      WholeRangeAccepts(reader.state.context, reader.layout, reader.Body(), r.value);
    } else if r.error != Device {
      BlockedMessage(reader.state.context, reader.layout, reader.Body(), 0, reader.layout.plaintextLength);
    }
  }

  /** A body with a segment that does not open is no message. */
  lemma BlockedMessage(context: MessageContext, layout: MessageLayout, body: Bytes, from: nat, end: nat)
    requires context.parameters == layout.parameters && HEADER_LENGTH + |body| == layout.ciphertextLength
    requires context.parameters.CiphertextLayout(layout.ciphertextLength) == Ok(layout)
    requires Unreadable(context, layout, body, from, end)
    ensures !Acceptable(context, body)
  {
    hide DecodeFrame, OpenAt, Parameters.CiphertextLayout;
    if Acceptable(context, body) {
      DecodersAgree(context, body, DecodeFrame(context, 0, body).value.plaintext);
    }
  }

  /** The three decoders accept the same ciphertexts with the same plaintext. */
  method ThreeDecoders(
    suite: CipherSuite, key: Bytes, aad: Bytes, required: Option<Parameters>,
    ciphertext: Bytes, readScript: seq<ReadEvent>, sizes: BufferSizes)
    returns (whole: Outcome<Bytes>, streamed: IoResult<Bytes>, seekable: IoResult<Bytes>)
    requires |ciphertext| <= U64_MAX && Fail !in readScript
    ensures whole.Ok? == streamed.Ok? == seekable.Ok?
    ensures whole.Ok? ==> whole.value == streamed.value == seekable.value
  {
    hide OpenMessage, HeaderOpens, FromSegments, AllThatOpens;
    whole := Decrypt(suite, key, aad, required, ciphertext);
    var got;
    streamed, got := DecryptStream(suite, key, aad, required, ciphertext, readScript, sizes);
    seekable := DecryptSeekable(suite, key, aad, required, ciphertext, readScript, []);
  }

  /** Every segment of the message has a position within the limit and a usable key. */
  ghost predicate MessageKeys(suite: CipherSuite, key: Bytes, aad: Bytes, parameters: Parameters, stream: ByteStream, plaintext: Bytes) {
    KeysAvailable(MessageContextAt(suite, key, aad, parameters, stream, 0), CanonicalNonFinal(parameters, plaintext))
  }

  lemma FirstKey(suite: CipherSuite, key: Bytes, aad: Bytes, parameters: Parameters, stream: ByteStream, plaintext: Bytes)
    ensures MessageKeys(suite, key, aad, parameters, stream, plaintext) ==>
              SegmentKey(MessageContextAt(suite, key, aad, parameters, stream, 0), 0).Ok?
  {
    hide SegmentKey;
  }

  /** No fill of the random generator is going to fail. */
  ghost predicate Steady(fills: seq<FillEvent>) {
    forall i :: 0 <= i < |fills| ==> fills[i].Success?
  }

  lemma ReliableRng(rng: Rng)
    ensures Steady(rng.script) ==> rng.Reliable()
  {
  }

  /** Encrypts a stream by reading the encrypting reader to its end. */
  method EncryptStream(
    suite: CipherSuite, key: Bytes, aad: Bytes, parameters: Parameters,
    plaintext: Bytes, readScript: seq<ReadEvent>, sizes: BufferSizes, stream: ByteStream, fills: seq<FillEvent>)
    returns (r: IoResult<Bytes>)
    ensures r.Ok? ==> r.value == CanonicalMessage(suite, key, aad, parameters, stream, 0, plaintext)
    ensures r.Ok? ==> MessageKeys(suite, key, aad, parameters, stream, plaintext)
    ensures Fail !in readScript && Steady(fills) ==> (r.Ok? <==> MessageKeys(suite, key, aad, parameters, stream, plaintext))
  {
    hide Source.Reliable, Rng.Reliable, Steady, CanonicalEncoding, MessageHeader, MessageContextAt, MessageNonces, MessageKeys,
         EncryptReader.Flowing, EncryptReader.Reading, EncryptReader.Complete, EncryptReader.Able;
    var rng := new Rng(stream, fills);
    var source := new Source(plaintext, 0, readScript, []);
    ReliableFrom(source);
    ReliableRng(rng);
    FirstKey(suite, key, aad, parameters, stream, plaintext);
    assert source.Remaining() == plaintext;
    var reader :- EncryptReader.New(source, suite, key, aad, parameters, rng);
    AbleReader(reader, suite, key, aad, parameters, stream);
    var ciphertext: Bytes := [];
    var atEnd := false;
    var n := 0;
    while !atEnd
      invariant reader.Valid() && fresh(reader.Repr)
      invariant ciphertext == reader.delivered
      invariant atEnd ==> reader.delivered == reader.Message() && reader.IsFinished()
      invariant !reader.status.Failed?
      invariant Fail !in readScript && Steady(fills) && MessageKeys(suite, key, aad, parameters, stream, plaintext) ==> reader.Able() && source.Reliable()
      decreases !atEnd, |reader.Message()| - |ciphertext|
    {
      var output := new Byte[sizes(n) + 1](_ => 0);
      var read :- reader.Read(output);
      ciphertext := ciphertext + output[..read];
      atEnd := read == 0;
      n := n + 1;
    }
    FinishedReader(reader, suite, key, aad, parameters, stream);
    return Ok(ciphertext);
  }

  /** A reader is able exactly when its random generator works and the message has its keys. */
  lemma AbleReader(reader: EncryptReader, suite: CipherSuite, key: Bytes, aad: Bytes, parameters: Parameters, stream: ByteStream)
    requires reader.context == MessageContextAt(suite, key, aad, parameters, stream, 0)
    ensures reader.Able() <==> reader.rng.Reliable() && MessageKeys(suite, key, aad, parameters, stream, reader.plaintext)
  {
    hide MessageContextAt, KeysAvailable, CanonicalNonFinal, Rng.Reliable;
  }

  /** A finished reader has had all keys. */
  lemma FinishedReader(reader: EncryptReader, suite: CipherSuite, key: Bytes, aad: Bytes, parameters: Parameters, stream: ByteStream)
    requires reader.Valid() && reader.IsFinished()
    requires reader.context == MessageContextAt(suite, key, aad, parameters, stream, 0)
    ensures MessageKeys(suite, key, aad, parameters, stream, reader.plaintext)
  {
    hide MessageContextAt, KeysAvailable, CanonicalNonFinal, CanonicalEncoding, EncryptReader.Sound, EncryptReader.Flowing;
  }

  /** Keys for every segment leave the length of the plan as the only obstacle to it. */
  lemma KeysWithinLimit(suite: CipherSuite, key: Bytes, aad: Bytes, parameters: Parameters, stream: ByteStream, plaintext: Bytes)
    requires |plaintext| <= U64_MAX && MessageKeys(suite, key, aad, parameters, stream, plaintext)
    ensures parameters.PlaintextLayout(|plaintext|) != Err(SegmentLimit)
  {
    hide SegmentKey, MessageContextAt, Times;
    var count := CanonicalNonFinal(parameters, plaintext);
    assert SegmentKey(MessageContextAt(suite, key, aad, parameters, stream, 0), count).Ok?;
    CountLimit(|plaintext|, parameters.PlaintextSegmentLength(), MAX_SEGMENTS);
  }

  /** Encrypting as a stream and in one call write the same bytes from the same random stream. */
  method EncryptorsAgree(
    suite: CipherSuite, key: Bytes, aad: Bytes, parameters: Parameters,
    plaintext: Bytes, readScript: seq<ReadEvent>, sizes: BufferSizes, stream: ByteStream, fills: seq<FillEvent>)
    returns (whole: Outcome<Bytes>, streamed: IoResult<Bytes>)
    requires |plaintext| <= U64_MAX
    ensures whole.Ok? && streamed.Ok? ==> whole.value == streamed.value
    ensures Fail !in readScript && Steady(fills) ==>
      && (streamed.Ok? <==> MessageKeys(suite, key, aad, parameters, stream, plaintext))
      && (whole.Ok? <==> streamed.Ok? && parameters.PlaintextLayout(|plaintext|) != Err(LengthOverflow))
    ensures whole.Ok? ==> OpenMessage(suite, key, aad, None, whole.value) == Some(plaintext)
  {
    hide OpenMessage, CanonicalMessage, Rng.Reliable, Steady, KeysAvailable, CanonicalNonFinal, MessageContextAt;
    var rng := new Rng(stream, fills);
    ReliableRng(rng);
    whole := Encrypt(suite, key, aad, parameters, plaintext, rng);
    streamed := EncryptStream(suite, key, aad, parameters, plaintext, readScript, sizes, stream, fills);
    if MessageKeys(suite, key, aad, parameters, stream, plaintext) {
      KeysWithinLimit(suite, key, aad, parameters, stream, plaintext);
    }
  }

  /** Asks one cache for the keys of any sequence of positions. Every answer is a fresh derivation's,
      and as long as none fails the number of derivations is the number of changes of key. */
  method KeysFor(context: MessageContext, keys: KeyCache, positions: seq<nat>) returns (answers: seq<Outcome<Bytes>>)
    requires keys.Valid(context)
    modifies keys
    ensures keys.Valid(context) && |answers| == |positions|
    ensures forall i :: 0 <= i < |positions| ==> answers[i] == SegmentKey(context, positions[i])
    ensures (forall i :: 0 <= i < |positions| ==> SegmentKey(context, positions[i]).Ok?) ==>
      keys.derived == old(keys.derived) + Derivations(old(keys.Held()), positions)
  {
    hide SegmentKey, KeyCache.Valid;
    answers := [];
    assert positions[..0] == [];
    for n := 0 to |positions|
      invariant keys.Valid(context) && |answers| == n
      invariant forall i :: 0 <= i < n ==> answers[i] == SegmentKey(context, positions[i])
      invariant (forall i :: 0 <= i < n ==> SegmentKey(context, positions[i]).Ok?) ==>
        && keys.derived == old(keys.derived) + Derivations(old(keys.Held()), positions[..n])
        && keys.Held() == HeldAfter(old(keys.Held()), positions[..n])
    {
      DerivationsGrow(old(keys.Held()), positions[..n], positions[n]);
      assert positions[..n + 1] == positions[..n] + [positions[n]];
      var answer := keys.KeyForPosition(context, positions[n]);
      answers := answers + [answer];
    }
    assert positions[..|positions|] == positions;
  }

  /** Encrypting or decrypting n segments in order, on the cache a message starts with, derives one
      key for every 2^20 segments or part of them. */
  method KeysInOrder(context: MessageContext, n: nat) returns (r: Outcome<KeyCache>)
    ensures KeysBefore(context, n) && SegmentKey(context, 0).Ok? ==>
      r.Ok? && r.value.derived == CanonicalCount(n, ROTATION_PERIOD)
  {
    hide SegmentKey, KeyCache.Valid, CanonicalCount;
    InOrderDerivations(n);
    FirstKeyDerives(context);
    var keys :- KeyCache.New(context);
    var answers := KeysFor(context, keys, seq(n, i => i));
    return Ok(keys);
  }

  lemma FirstKeyDerives(context: MessageContext)
    ensures SegmentKey(context, 0) == DeriveSegmentKey(context, 0)
  {
  }
}
