/** The body of a message as a value: how it is printed, how it is parsed, and the laws that tie
    the two together. The encoders and decoders of the other modules refine these functions. */
module Messages {
  import opened ByteStrings
  import opened Failures
  import opened Arithmetic
  import opened ParameterSets
  import opened CipherSuites
  import opened Segments

  /** The result of reading one message from the front of a stream: its plaintext and how many
      bytes of the stream it occupies. */
  datatype Frame = Frame(plaintext: Bytes, length: nat)

  /** Reads the segments of a message from the front of `stream`, which may go on after it. */
  function DecodeFrame(context: MessageContext, position: nat, stream: Bytes): (r: Option<Frame>)
    ensures r.Some? ==> OVERHEAD <= r.value.length <= |stream|
    decreases |stream|
  {
    if |stream| < PREFIX_LENGTH then None
    else
      var framing := SegmentFraming.Decode(context.parameters, stream[..PREFIX_LENGTH]);
      if framing.Err? || |stream| < framing.value.ciphertextLength then None
      else
        var length := framing.value.ciphertextLength;
        var unsealed := OpenSegment(context, position, framing.value.kind, stream[..length]);
        if unsealed.Err? then None
        else if framing.value.kind.Final? then Some(Frame(unsealed.value, length))
        else if position == MAX_SEGMENTS - 1 then None
        else Prepend(unsealed.value, length, DecodeFrame(context, position + 1, stream[length..]))
  }

  function Prepend(plaintext: Bytes, length: nat, rest: Option<Frame>): Option<Frame> {
    if rest.None? then None else Some(Frame(plaintext + rest.value.plaintext, length + rest.value.length))
  }

  /** `body` is exactly one message with this plaintext. */
  predicate Accepts(context: MessageContext, body: Bytes, plaintext: Bytes) {
    DecodeFrame(context, 0, body) == Some(Frame(plaintext, |body|))
  }

  predicate Acceptable(context: MessageContext, body: Bytes) {
    var frame := DecodeFrame(context, 0, body);
    frame.Some? && frame.value.length == |body|
  }

  /** What decrypting a complete ciphertext, header included, means. */
  function OpenMessage(suite: CipherSuite, key: Bytes, aad: Bytes, required: Option<Parameters>, ciphertext: Bytes): Option<Bytes> {
    if |ciphertext| < HEADER_LENGTH then None
    else
      var context := StartContext(suite, key, aad, required, ciphertext[..HEADER_LENGTH]);
      if context.Err? then None
      else
        var frame := DecodeFrame(context.value, 0, ciphertext[HEADER_LENGTH..]);
        if frame.Some? && HEADER_LENGTH + frame.value.length == |ciphertext| then Some(frame.value.plaintext) else None
  }

  /** Round trip of whole messages: what any of the encoders writes, header and body, opens to the
      plaintext under the same key and AAD. */
  lemma MessageRoundTrip(
    suite: CipherSuite, key: Bytes, aad: Bytes, parameters: Parameters, floeIv: Bytes,
    nonces: Nonces, plaintext: Bytes, count: nat, required: Option<Parameters>)
    requires |floeIv| == FLOE_IV_LENGTH && Splits(parameters, plaintext, count)
    requires required.Some? ==> required.value == parameters
    requires KeysAvailable(NewContext(suite, key, aad, parameters, floeIv), count)
    ensures var context := NewContext(suite, key, aad, parameters, floeIv);
            var message := Header(suite, key, aad, parameters, floeIv) + Encoding(context, nonces, plaintext, count);
            OpenMessage(suite, key, aad, required, message) == Some(plaintext)
  {
    hide Header, HeaderContext, Encoding, DecodeFrame, DeriveSegmentKey;
    var context := NewContext(suite, key, aad, parameters, floeIv);
    var header, body := Header(suite, key, aad, parameters, floeIv), Encoding(context, nonces, plaintext, count);
    assert (header + body)[..HEADER_LENGTH] == header && (header + body)[HEADER_LENGTH..] == body;
    assert SegmentKey(context, 0).Ok?;
    HeaderAccepted(suite, key, aad, required, header, context);
    EncodingDecodes(context, nonces, plaintext, count, []);
  }

  /** A complete ciphertext that opens has no proper prefix and no proper extension that opens. */
  lemma MessageSelfDelimiting(suite: CipherSuite, key: Bytes, aad: Bytes, required: Option<Parameters>, ciphertext: Bytes, other: Bytes)
    requires OpenMessage(suite, key, aad, required, ciphertext).Some?
    requires |other| != |ciphertext| && (other <= ciphertext || ciphertext <= other)
    ensures OpenMessage(suite, key, aad, required, other).None?
  {
    hide StartContext, DecodeFrame;
    if |other| >= HEADER_LENGTH {
      assert other[..HEADER_LENGTH] == ciphertext[..HEADER_LENGTH];
      var context := StartContext(suite, key, aad, required, ciphertext[..HEADER_LENGTH]).value;
      var a, b := ciphertext[HEADER_LENGTH..], other[HEADER_LENGTH..];
      assert b <= a || a <= b;
      SelfDelimiting(context, a, b);
    }
  }

  lemma PrependAssociates(a: Bytes, m: nat, b: Bytes, n: nat, rest: Option<Frame>)
    ensures Prepend(a, m, Prepend(b, n, rest)) == Prepend(a + b, m + n, rest)
  {
    if rest.Some? {
      assert a + (b + rest.value.plaintext) == (a + b) + rest.value.plaintext;
    }
  }

  // ---- Self-delimitation ----

  /** What follows a message does not change how the message reads. */
  lemma {:induction false} FrameIgnoresSuffix(context: MessageContext, position: nat, stream: Bytes, other: Bytes)
    requires var frame := DecodeFrame(context, position, stream);
             frame.Some? && frame.value.length <= |other| && other[..frame.value.length] == stream[..frame.value.length]
    ensures DecodeFrame(context, position, other) == DecodeFrame(context, position, stream)
    decreases |stream|
  {
    var n := DecodeFrame(context, position, stream).value.length;
    assert other[..PREFIX_LENGTH] == other[..n][..PREFIX_LENGTH] == stream[..n][..PREFIX_LENGTH] == stream[..PREFIX_LENGTH];
    var framing := SegmentFraming.Decode(context.parameters, stream[..PREFIX_LENGTH]).value;
    var length := framing.ciphertextLength;
    assert other[..length] == other[..n][..length] == stream[..n][..length] == stream[..length];
    if framing.kind.NonFinal? {
      var rest := DecodeFrame(context, position + 1, stream[length..]).value.length;
      assert other[length..][..rest] == other[..n][length..] == stream[..n][length..] == stream[length..][..rest];
      FrameIgnoresSuffix(context, position + 1, stream[length..], other[length..]);
    }
  }

  /** An acceptable body has no acceptable proper prefix and no acceptable proper extension. */
  lemma SelfDelimiting(context: MessageContext, body: Bytes, other: Bytes)
    requires Acceptable(context, body)
    requires |other| != |body|
    requires other <= body || body <= other
    ensures !Acceptable(context, other)
  {
    if Acceptable(context, other) {
      if body <= other {
        FrameIgnoresSuffix(context, 0, body, other);
      } else {
        FrameIgnoresSuffix(context, 0, other, body);
      }
    }
  }

  /** Framing costs exactly 32 bytes a segment, and the segment count stays within the limit. */
  lemma {:induction false} FrameLength(context: MessageContext, position: nat, stream: Bytes) returns (nonFinal: nat)
    requires position < MAX_SEGMENTS
    requires DecodeFrame(context, position, stream).Some?
    ensures var frame := DecodeFrame(context, position, stream).value;
            var p := context.parameters.PlaintextSegmentLength();
      && position + nonFinal < MAX_SEGMENTS
      && frame.length == |frame.plaintext| + Times(nonFinal + 1, OVERHEAD)
      && Times(nonFinal, p) <= |frame.plaintext| <= Times(nonFinal, p) + p
    decreases |stream|
  {
    hide OpenSegment, SegmentFraming.Decode;
    var framing := SegmentFraming.Decode(context.parameters, stream[..PREFIX_LENGTH]).value;
    if framing.kind.Final? {
      nonFinal := 0;
    } else {
      var rest := FrameLength(context, position + 1, stream[framing.ciphertextLength..]);
      nonFinal := rest + 1;
    }
  }

  // ---- Segment by segment ----

  /** The plaintext of the segments at the front of a stream, the bytes they occupy, and whether the
      last of them is final. */
  datatype Run = Run(plaintext: Bytes, length: nat, closed: bool)

  /** The first `count` segments of a stream, each opened at its own position, of which only the last
      may be final. There is no such run if the stream does not hold them or one does not open. */
  function OpenedRun(context: MessageContext, stream: Bytes, count: nat): (r: Option<Run>)
    ensures r.Some? ==>
      && r.value.length == |r.value.plaintext| + Times(count, OVERHEAD) <= |stream|
      && (if r.value.closed then 1 <= count <= MAX_SEGMENTS else count < MAX_SEGMENTS)
  {
    if count == 0 then Some(Run([], 0, false))
    else
      var front := OpenedRun(context, stream, count - 1);
      if front.None? || front.value.closed then None else OpenNext(context, stream, count - 1, front.value)
  }

  /** One segment more, at this position. */
  function OpenNext(context: MessageContext, stream: Bytes, position: nat, front: Run): (r: Option<Run>)
    requires front.length <= |stream|
    ensures r.Some? ==>
      && r.value.length == front.length + OVERHEAD + (|r.value.plaintext| - |front.plaintext|) <= |stream|
      && front.plaintext <= r.value.plaintext
      && (!r.value.closed ==> position != MAX_SEGMENTS - 1)
  {
    var rest := stream[front.length..];
    if CannotStart(context, position, rest) then None
    else
      var framing := SegmentFraming.Decode(context.parameters, rest[..PREFIX_LENGTH]).value;
      if framing.kind.NonFinal? && position == MAX_SEGMENTS - 1 then None
      else
        var unsealed := FramedOpen(context, position, framing, rest[..framing.ciphertextLength]).value;
        Some(Run(front.plaintext + unsealed, front.length + framing.ciphertextLength, framing.kind.Final?))
  }

  /** No complete segment opens at the front of `rest`. */
  predicate CannotStart(context: MessageContext, position: nat, rest: Bytes) {
    || |rest| < PREFIX_LENGTH
    || var framing := SegmentFraming.Decode(context.parameters, rest[..PREFIX_LENGTH]);
       || framing.Err?
       || |rest| < framing.value.ciphertextLength
       || FramedOpen(context, position, framing.value, rest[..framing.value.ciphertextLength]).Err?
  }

  /** How far the reading of a message has come: the segments before `position`, all non-final, take
      the first `consumed` bytes and open to this plaintext. */
  ghost predicate Progress(context: MessageContext, body: Bytes, position: nat, consumed: nat, plaintext: Bytes) {
    OpenedRun(context, body, position) == Some(Run(plaintext, consumed, false))
  }

  lemma PrependNothing(rest: Option<Frame>)
    ensures Prepend([], 0, rest) == rest
  {
    if rest.Some? {
      assert [] + rest.value.plaintext == rest.value.plaintext;
    }
  }

  /** What a run of segments says about the message: a closed run is the message, and an open one
      leaves the rest of the message to be read from the next position on. */
  lemma {:induction false} RunReads(context: MessageContext, stream: Bytes, count: nat)
    requires OpenedRun(context, stream, count).Some?
    ensures var run := OpenedRun(context, stream, count).value;
            DecodeFrame(context, 0, stream) ==
            if run.closed then Some(Frame(run.plaintext, run.length))
            else Prepend(run.plaintext, run.length, DecodeFrame(context, count, stream[run.length..]))
  {
    hide DecodeFrame, OpenNext;
    if count == 0 {
      PrependNothing(DecodeFrame(context, 0, stream));
      assert stream[0..] == stream;
    } else {
      RunReads(context, stream, count - 1);
      RunStep(context, stream, count - 1);
    }
  }

  /** One segment of a message, read by the parser and added to a run. */
  lemma RunStep(context: MessageContext, stream: Bytes, position: nat)
    requires OpenedRun(context, stream, position + 1).Some?
    ensures var front, run := OpenedRun(context, stream, position).value, OpenedRun(context, stream, position + 1).value;
            Prepend(front.plaintext, front.length, DecodeFrame(context, position, stream[front.length..])) ==
            if run.closed then Some(Frame(run.plaintext, run.length))
            else Prepend(run.plaintext, run.length, DecodeFrame(context, position + 1, stream[run.length..]))
  {
    hide OpenSegment, SegmentFraming.Decode, OpenedRun;
    RunUnfolds(context, stream, position);
    var front := OpenedRun(context, stream, position).value;
    var rest := stream[front.length..];
    var framing := SegmentFraming.Decode(context.parameters, rest[..PREFIX_LENGTH]).value;
    var unsealed := FramedOpen(context, position, framing, rest[..framing.ciphertextLength]).value;
    assert rest[framing.ciphertextLength..] == stream[front.length + framing.ciphertextLength..];
    PrependAssociates(front.plaintext, front.length, unsealed, framing.ciphertextLength,
                      DecodeFrame(context, position + 1, rest[framing.ciphertextLength..]));
  }

  lemma RunUnfolds(context: MessageContext, stream: Bytes, position: nat)
    ensures var front := OpenedRun(context, stream, position);
            OpenedRun(context, stream, position + 1) ==
            if front.None? || front.value.closed then None else OpenNext(context, stream, position, front.value)
  {
  }

  /** Where an open run cannot go on, no message is to be read. */
  lemma StuckRun(context: MessageContext, stream: Bytes, count: nat)
    requires OpenedRun(context, stream, count).Some? && !OpenedRun(context, stream, count).value.closed
    requires OpenedRun(context, stream, count + 1) == None
    ensures DecodeFrame(context, 0, stream) == None
  {
    hide OpenSegment, SegmentFraming.Decode, OpenedRun;
    RunReads(context, stream, count);
    RunUnfolds(context, stream, count);
  }

  /** One segment further. */
  lemma StepProgress(context: MessageContext, body: Bytes, position: nat, consumed: nat, plaintext: Bytes, framing: SegmentFraming)
    requires Progress(context, body, position, consumed, plaintext)
    requires var rest := body[consumed..];
      && |rest| >= PREFIX_LENGTH && SegmentFraming.Decode(context.parameters, rest[..PREFIX_LENGTH]) == Ok(framing)
      && framing.ciphertextLength <= |rest|
      && FramedOpen(context, position, framing, rest[..framing.ciphertextLength]).Ok?
    ensures var segment := body[consumed..][..framing.ciphertextLength];
            var next, length := plaintext + FramedOpen(context, position, framing, segment).value, consumed + framing.ciphertextLength;
      && (framing.kind.Final? ==>
            && OpenedRun(context, body, position + 1) == Some(Run(next, length, true))
            && DecodeFrame(context, 0, body) == Some(Frame(next, length)))
      && (framing.kind.NonFinal? && position == MAX_SEGMENTS - 1 ==>
            OpenedRun(context, body, position + 1) == None && DecodeFrame(context, 0, body) == None)
      && (framing.kind.NonFinal? && position < MAX_SEGMENTS - 1 ==> Progress(context, body, position + 1, length, next))
  {
    hide FramedOpen, SegmentFraming.Decode, OpenedRun, DecodeFrame;
    RunUnfolds(context, body, position);
    if OpenedRun(context, body, position + 1) == None {
      StuckRun(context, body, position);
    } else {
      RunReads(context, body, position + 1);
    }
  }

  /** A segment that does not open ends the run, and the message is not to be read. */
  lemma StuckProgress(context: MessageContext, body: Bytes, position: nat, consumed: nat, plaintext: Bytes)
    requires Progress(context, body, position, consumed, plaintext)
    requires CannotStart(context, position, body[consumed..])
    ensures OpenedRun(context, body, position + 1) == None
    ensures DecodeFrame(context, 0, body) == None
  {
    hide FramedOpen, SegmentFraming.Decode, OpenedRun, DecodeFrame;
    RunUnfolds(context, body, position);
    StuckRun(context, body, position);
  }

  /** The parser reads a message exactly when some run of segments closes, and then reads that run. */
  lemma FrameIsClosedRun(context: MessageContext, stream: Bytes, frame: Frame)
    ensures DecodeFrame(context, 0, stream) == Some(frame) <==>
            exists count :: OpenedRun(context, stream, count) == Some(Run(frame.plaintext, frame.length, true))
  {
    hide DecodeFrame, OpenNext;
    if DecodeFrame(context, 0, stream) == Some(frame) {
      var count := CloseRun(context, stream, 0);
      RunReads(context, stream, count);
    }
    forall count | OpenedRun(context, stream, count) == Some(Run(frame.plaintext, frame.length, true))
      ensures DecodeFrame(context, 0, stream) == Some(frame)
    {
      RunReads(context, stream, count);
    }
  }

  /** A readable message closes every run in it. */
  lemma {:induction false} CloseRun(context: MessageContext, stream: Bytes, from: nat) returns (count: nat)
    requires DecodeFrame(context, 0, stream).Some? && OpenedRun(context, stream, from).Some?
    ensures OpenedRun(context, stream, count).Some? && OpenedRun(context, stream, count).value.closed
    decreases MAX_SEGMENTS - from
  {
    hide DecodeFrame, OpenNext;
    if OpenedRun(context, stream, from).value.closed {
      count := from;
    } else {
      if OpenedRun(context, stream, from + 1) == None {
        StuckRun(context, stream, from);
      }
      count := CloseRun(context, stream, from + 1);
    }
  }

  /** A longer run extends a shorter one. */
  lemma {:induction false} RunExtends(context: MessageContext, stream: Bytes, count: nat, more: nat)
    requires count <= more && OpenedRun(context, stream, more).Some?
    ensures OpenedRun(context, stream, count).Some?
    ensures OpenedRun(context, stream, count).value.plaintext <= OpenedRun(context, stream, more).value.plaintext
    ensures count < more ==> !OpenedRun(context, stream, count).value.closed
  {
    hide OpenNext;
    if count < more {
      RunExtends(context, stream, count, more - 1);
    }
  }

  // ---- Printing ----

  /** The `index`th full chunk of a plaintext. */
  function Chunk(parameters: Parameters, plaintext: Bytes, index: nat): (r: Bytes)
    requires Times(index, parameters.PlaintextSegmentLength()) + parameters.PlaintextSegmentLength() <= |plaintext|
    ensures |r| == parameters.PlaintextSegmentLength()
  {
    var p := parameters.PlaintextSegmentLength();
    plaintext[Times(index, p)..Times(index, p) + p]
  }

  /** The first `count` segments, all full and non-final, in position order. */
  function NonFinalRun(context: MessageContext, nonces: Nonces, plaintext: Bytes, count: nat): (r: Bytes)
    requires Times(count, context.parameters.PlaintextSegmentLength()) <= |plaintext|
    ensures |r| == Times(count, context.parameters.ciphertextSegmentLength)
    decreases count
  {
    if count == 0 then []
    else
      NonFinalRun(context, nonces, plaintext, count - 1) +
      SealedSegment(context, count - 1, NonFinal, nonces(count - 1), Chunk(context.parameters, plaintext, count - 1))
  }

  /** The segments written so far do not depend on plaintext still to come. */
  lemma {:induction false} NonFinalRunPrefix(context: MessageContext, nonces: Nonces, plaintext: Bytes, more: Bytes, count: nat)
    requires Times(count, context.parameters.PlaintextSegmentLength()) <= |plaintext|
    ensures NonFinalRun(context, nonces, plaintext + more, count) == NonFinalRun(context, nonces, plaintext, count)
  {
    hide SealedSegment;
    if count > 0 {
      NonFinalRunPrefix(context, nonces, plaintext, more, count - 1);
      assert Chunk(context.parameters, plaintext + more, count - 1) == Chunk(context.parameters, plaintext, count - 1);
    }
  }

  /** `count` full non-final segments can be followed by a final one that holds the rest. */
  predicate Splits(parameters: Parameters, plaintext: Bytes, count: nat) {
    var p := parameters.PlaintextSegmentLength();
    Times(count, p) <= |plaintext| <= Times(count, p) + p
  }

  /** A whole body: `count` non-final segments and the final segment with the rest. */
  function Encoding(context: MessageContext, nonces: Nonces, plaintext: Bytes, count: nat): Bytes
    requires Splits(context.parameters, plaintext, count)
  {
    NonFinalRun(context, nonces, plaintext, count) +
    SealedSegment(context, count, Final, nonces(count), plaintext[Times(count, context.parameters.PlaintextSegmentLength())..])
  }

  /** The number of non-final segments the layout of a plaintext plans. */
  function CanonicalNonFinal(parameters: Parameters, plaintext: Bytes): (r: nat)
    ensures Splits(parameters, plaintext, r)
  {
    CanonicalCountBounds(|plaintext|, parameters.PlaintextSegmentLength());
    CanonicalCount(|plaintext|, parameters.PlaintextSegmentLength()) - 1
  }

  function CanonicalEncoding(context: MessageContext, nonces: Nonces, plaintext: Bytes): Bytes {
    Encoding(context, nonces, plaintext, CanonicalNonFinal(context.parameters, plaintext))
  }

  /** A plaintext splits in its canonical way only, except that a positive multiple of the segment
      payload also splits into full segments and an empty final one. */
  lemma SplitsTwoWays(parameters: Parameters, plaintext: Bytes, count: nat)
    ensures var p := parameters.PlaintextSegmentLength();
            var canonical := CanonicalNonFinal(parameters, plaintext);
            Splits(parameters, plaintext, count) <==>
              || count == canonical
              || (|plaintext| > 0 && |plaintext| == Times(canonical + 1, p) && count == canonical + 1)
  {
    var p := parameters.PlaintextSegmentLength();
    var canonical := CanonicalNonFinal(parameters, plaintext);
    CanonicalCountBounds(|plaintext|, p);
    if Splits(parameters, plaintext, count) {
      RecountLastUnit(|plaintext|, p, count + 1);
    }
  }

  /** Segments `from`, `from + 1`, ... of an encoding, front to back. */
  function EncodingFrom(context: MessageContext, nonces: Nonces, plaintext: Bytes, count: nat, from: nat): Bytes
    requires Splits(context.parameters, plaintext, count) && from <= count
    decreases count - from
  {
    var p := context.parameters.PlaintextSegmentLength();
    if from == count then SealedSegment(context, count, Final, nonces(count), plaintext[Times(count, p)..])
    else
      TimesMonotone(from, count, p);
      SealedSegment(context, from, NonFinal, nonces(from), Chunk(context.parameters, plaintext, from)) +
      EncodingFrom(context, nonces, plaintext, count, from + 1)
  }

  lemma PartialLength(parameters: Parameters, plaintext: Bytes, count: nat, from: nat)
    requires Splits(parameters, plaintext, count) && from <= count
    ensures var p := parameters.PlaintextSegmentLength();
      && Times(from, p) <= |plaintext|
      && (from < count ==> Times(from, p) + p <= |plaintext|)
  {
    TimesMonotone(from, count, parameters.PlaintextSegmentLength());
  }

  lemma {:induction false} EncodingFrontToBack(context: MessageContext, nonces: Nonces, plaintext: Bytes, count: nat, from: nat)
    requires Splits(context.parameters, plaintext, count) && from <= count
    ensures Times(from, context.parameters.PlaintextSegmentLength()) <= |plaintext|
    ensures Encoding(context, nonces, plaintext, count) ==
            NonFinalRun(context, nonces, plaintext, from) + EncodingFrom(context, nonces, plaintext, count, from)
    decreases count - from
  {
    hide SealedSegment, Chunk, Splits;
    var p := context.parameters.PlaintextSegmentLength();
    PartialLength(context.parameters, plaintext, count, from);
    if from < count {
      EncodingFrontToBack(context, nonces, plaintext, count, from + 1);
      var segment := SealedSegment(context, from, NonFinal, nonces(from), Chunk(context.parameters, plaintext, from));
      var run, rest := NonFinalRun(context, nonces, plaintext, from), EncodingFrom(context, nonces, plaintext, count, from + 1);
      assert run + (segment + rest) == (run + segment) + rest;
    }
  }

  ghost predicate KeysAvailable(context: MessageContext, count: nat) {
    forall position :: 0 <= position <= count ==> SegmentKey(context, position).Ok?
  }

  /** The parser takes a sealed segment off the front of a stream. */
  lemma DecodeSealed(context: MessageContext, position: nat, kind: SegmentKind, nonce: Nonce, plaintext: Bytes, rest: Bytes)
    requires SegmentFits(context.parameters, kind, |plaintext|)
    requires SegmentKey(context, position).Ok?
    ensures var segment := SealedSegment(context, position, kind, nonce, plaintext);
            DecodeFrame(context, position, segment + rest) ==
            if kind.Final? then Some(Frame(plaintext, |segment|))
            else if position == MAX_SEGMENTS - 1 then None
            else Prepend(plaintext, |segment|, DecodeFrame(context, position + 1, rest))
  {
    hide SealedSegment, OpenSegment, SegmentKey, SegmentFraming.Decode;
    var segment := SealedSegment(context, position, kind, nonce, plaintext);
    var stream := segment + rest;
    FramingPrintParse(context, position, kind, nonce, plaintext);
    OpenSealed(context, position, kind, nonce, plaintext);
    assert stream[..PREFIX_LENGTH] == segment[..PREFIX_LENGTH];
    assert stream[..|segment|] == segment && stream[|segment|..] == rest;
  }

  /** Decoding what was printed, with anything after it. */
  lemma {:induction false} DecodeEncodingFrom(
    context: MessageContext, nonces: Nonces, plaintext: Bytes, count: nat, from: nat, trailing: Bytes)
    requires Splits(context.parameters, plaintext, count) && from <= count
    requires KeysAvailable(context, count)
    ensures Times(from, context.parameters.PlaintextSegmentLength()) <= |plaintext|
    ensures var body := EncodingFrom(context, nonces, plaintext, count, from);
            DecodeFrame(context, from, body + trailing) ==
            Some(Frame(plaintext[Times(from, context.parameters.PlaintextSegmentLength())..], |body|))
    decreases count - from
  {
    hide SealedSegment, SegmentKey, DecodeFrame;
    var p := context.parameters.PlaintextSegmentLength();
    TimesMonotone(from, count, p);
    assert SegmentKey(context, from).Ok?;
    if from == count {
      DecodeSealed(context, count, Final, nonces(count), plaintext[Times(count, p)..], trailing);
    } else {
      assert SegmentKey(context, count).Ok?;
      var chunk := Chunk(context.parameters, plaintext, from);
      var segment := SealedSegment(context, from, NonFinal, nonces(from), chunk);
      var rest := EncodingFrom(context, nonces, plaintext, count, from + 1);
      DecodeSealed(context, from, NonFinal, nonces(from), chunk, rest + trailing);
      assert (segment + rest) + trailing == segment + (rest + trailing);
      DecodeEncodingFrom(context, nonces, plaintext, count, from + 1, trailing);
      assert plaintext[Times(from, p)..] == chunk + plaintext[Times(from + 1, p)..];
    }
  }

  /** Round trip: however a plaintext was split, its body decodes to it, and leaves alone the bytes
      that follow. */
  lemma EncodingDecodes(context: MessageContext, nonces: Nonces, plaintext: Bytes, count: nat, trailing: Bytes)
    requires Splits(context.parameters, plaintext, count)
    requires KeysAvailable(context, count)
    ensures var body := Encoding(context, nonces, plaintext, count);
            DecodeFrame(context, 0, body + trailing) == Some(Frame(plaintext, |body|))
    ensures Accepts(context, Encoding(context, nonces, plaintext, count), plaintext)
  {
    EncodingFrontToBack(context, nonces, plaintext, count, 0);
    var body := Encoding(context, nonces, plaintext, count);
    assert NonFinalRun(context, nonces, plaintext, 0) == [];
    assert EncodingFrom(context, nonces, plaintext, count, 0) == body;
    DecodeEncodingFrom(context, nonces, plaintext, count, 0, trailing);
    DecodeEncodingFrom(context, nonces, plaintext, count, 0, []);
    assert body + [] == body;
  }

  lemma EncodingLength(context: MessageContext, nonces: Nonces, plaintext: Bytes, count: nat)
    requires Splits(context.parameters, plaintext, count)
    ensures |Encoding(context, nonces, plaintext, count)| == |plaintext| + Times(count + 1, OVERHEAD)
  {
    hide SealedSegment, NonFinalRun;
    TimesDistributes(count, context.parameters.PlaintextSegmentLength(), OVERHEAD);
  }

  // ---- Layout-driven decoding ----

  /** The ciphertext of one segment of a layout, as a slice of the body. */
  function SegmentSlice(layout: MessageLayout, body: Bytes, position: nat): (r: Bytes)
    requires HEADER_LENGTH + |body| == layout.ciphertextLength
    requires position < layout.segmentCount
    ensures |r| == SegmentAt(layout, position).ciphertextLength
  {
    var s := SegmentAt(layout, position);
    OffsetBounds(layout, position);
    if position + 1 < layout.segmentCount then
      OffsetBounds(layout, position + 1);
      body[s.ciphertextOffset - HEADER_LENGTH..s.ciphertextOffset - HEADER_LENGTH + s.ciphertextLength]
    else
      body[s.ciphertextOffset - HEADER_LENGTH..]
  }

  function OpenAt(context: MessageContext, layout: MessageLayout, body: Bytes, position: nat): (r: Outcome<Bytes>)
    requires HEADER_LENGTH + |body| == layout.ciphertextLength
    requires position < layout.segmentCount
    ensures r.Ok? ==> |r.value| == SegmentAt(layout, position).plaintextLength
  {
    LayoutTiles(layout, position);
    CheckedOpen(context, position, SegmentAt(layout, position).kind, SegmentSlice(layout, body, position))
  }

  ghost predicate AllOpen(context: MessageContext, layout: MessageLayout, body: Bytes, from: nat)
    requires HEADER_LENGTH + |body| == layout.ciphertextLength
  {
    forall position :: from <= position < layout.segmentCount ==> OpenAt(context, layout, body, position).Ok?
  }

  /** The unsealed segments of a layout from `from` on, concatenated. */
  function OpenedFrom(context: MessageContext, layout: MessageLayout, body: Bytes, from: nat): Bytes
    requires HEADER_LENGTH + |body| == layout.ciphertextLength
    requires from <= layout.segmentCount && AllOpen(context, layout, body, from)
    decreases layout.segmentCount - from
  {
    if from == layout.segmentCount then []
    else OpenAt(context, layout, body, from).value + OpenedFrom(context, layout, body, from + 1)
  }

  /** A stream no longer than one segment is one message exactly when it opens as a final segment. */
  lemma LastSegmentAgrees(context: MessageContext, position: nat, rest: Bytes)
    requires OVERHEAD <= |rest| <= context.parameters.ciphertextSegmentLength
    ensures var frame := DecodeFrame(context, position, rest);
            var unsealed := CheckedOpen(context, position, Final, rest);
      && (unsealed.Ok? <==> frame.Some? && frame.value.length == |rest|)
      && (unsealed.Ok? ==> frame.value.plaintext == unsealed.value)
  {
    FastValidationRefinesSlow(context.parameters, rest, Final);
    assert rest[..|rest|] == rest;
    var framing := SegmentFraming.Decode(context.parameters, rest[..PREFIX_LENGTH]);
    if framing.Ok? && framing.value.kind.NonFinal? && |rest| == framing.value.ciphertextLength {
      assert rest[framing.value.ciphertextLength..] == [];
    }
  }

  /** A stream longer than one segment is one message exactly when a full segment opens as a
      non-final one and the rest is one message. */
  lemma FullSegmentAgrees(context: MessageContext, position: nat, rest: Bytes)
    requires |rest| > context.parameters.ciphertextSegmentLength
    requires position + 1 < MAX_SEGMENTS
    ensures var c := context.parameters.ciphertextSegmentLength;
            var frame := DecodeFrame(context, position, rest);
            var first := CheckedOpen(context, position, NonFinal, rest[..c]);
            var next := DecodeFrame(context, position + 1, rest[c..]);
      && (frame.Some? && frame.value.length == |rest| <==> first.Ok? && next.Some? && next.value.length == |rest| - c)
      && (first.Ok? && next.Some? ==> frame.Some? && frame.value.plaintext == first.value + next.value.plaintext)
  {
    hide OpenSegment, ValidateSegment, SegmentFraming.Decode;
    var c := context.parameters.ciphertextSegmentLength;
    assert rest[..c][..PREFIX_LENGTH] == rest[..PREFIX_LENGTH];
    FastValidationRefinesSlow(context.parameters, rest[..c], NonFinal);
  }

  /** From every position on, reading by prefixes to the end of the body succeeds exactly when
      every segment of the layout opens, and gives the same plaintext. */
  lemma {:induction false} PrefixesAgreeWithLayout(context: MessageContext, layout: MessageLayout, body: Bytes, from: nat)
    requires context.parameters == layout.parameters
    requires HEADER_LENGTH + |body| == layout.ciphertextLength
    requires from < layout.segmentCount
    ensures Times(from, layout.parameters.ciphertextSegmentLength) <= |body|
    ensures var rest := body[Times(from, layout.parameters.ciphertextSegmentLength)..];
            var frame := DecodeFrame(context, from, rest);
      && (AllOpen(context, layout, body, from) <==> frame.Some? && frame.value.length == |rest|)
      && (AllOpen(context, layout, body, from) ==> frame.value.plaintext == OpenedFrom(context, layout, body, from))
    decreases layout.segmentCount - from
  {
    hide OpenAt, SegmentAt, CheckedOpen, DecodeFrame;
    var c := layout.parameters.ciphertextSegmentLength;
    OpenAtSuffix(context, layout, body, from);
    LayoutTiles(layout, from);
    var rest := body[Times(from, c)..];
    assert AllOpen(context, layout, body, from) <==>
           OpenAt(context, layout, body, from).Ok? && AllOpen(context, layout, body, from + 1);
    if from == layout.segmentCount - 1 {
      assert rest[..|rest|] == rest;
      LastSegmentAgrees(context, from, rest);
      if OpenAt(context, layout, body, from).Ok? {
        assert OpenedFrom(context, layout, body, from + 1) == [];
      }
    } else {
      PrefixesAgreeWithLayout(context, layout, body, from + 1);
      assert rest[c..] == body[Times(from + 1, c)..];
      FullSegmentAgrees(context, from, rest);
    }
  }

  /** A segment of the layout is the front of what is left of the body at its position. */
  lemma OpenAtSuffix(context: MessageContext, layout: MessageLayout, body: Bytes, position: nat)
    requires HEADER_LENGTH + |body| == layout.ciphertextLength
    requires position < layout.segmentCount
    ensures var c, s := layout.parameters.ciphertextSegmentLength, SegmentAt(layout, position);
      && Times(position, c) + s.ciphertextLength <= |body|
      && OpenAt(context, layout, body, position) ==
         CheckedOpen(context, position, s.kind, body[Times(position, c)..][..s.ciphertextLength])
      && (s.kind.NonFinal? ==> s.ciphertextLength == c && Times(position, c) + c < |body|)
      && (s.kind.Final? ==> OVERHEAD <= s.ciphertextLength == |body| - Times(position, c) <= c)
  {
    hide CheckedOpen, FinalSegment;
    var c, s := layout.parameters.ciphertextSegmentLength, SegmentAt(layout, position);
    LayoutTiles(layout, position);
    if s.kind.NonFinal? {
      LayoutTiles(layout, position + 1);
    }
    assert s.ciphertextOffset == HEADER_LENGTH + Times(position, c);
    hide SegmentForPosition, Times;
    assert SegmentSlice(layout, body, position) == body[Times(position, c)..][..s.ciphertextLength];
  }

  /** The layout of a body that reads as one message exists. */
  lemma AcceptableHasLayout(context: MessageContext, body: Bytes)
    requires Acceptable(context, body)
    requires HEADER_LENGTH + |body| <= U64_MAX
    ensures context.parameters.CiphertextLayout(HEADER_LENGTH + |body|).Ok?
  {
    hide DecodeFrame, Parameters.CiphertextLayout;
    var nonFinal := FrameLength(context, 0, body);
    var p := context.parameters.PlaintextSegmentLength();
    TimesDistributes(nonFinal, p, OVERHEAD);
    LayoutExists(context.parameters, nonFinal, |body|);
  }

  /** A length that full segments and a last one can make up is the length of a layout. */
  lemma LayoutExists(parameters: Parameters, nonFinal: nat, length: nat)
    requires nonFinal < MAX_SEGMENTS && HEADER_LENGTH + length <= U64_MAX
    requires var c := parameters.ciphertextSegmentLength;
             Times(nonFinal, c) + OVERHEAD <= length <= Times(nonFinal, c) + c
    ensures parameters.CiphertextLayout(HEADER_LENGTH + length).Ok?
  {
    hide DivCeil;
    CanonicalCountUnique(length, parameters.ciphertextSegmentLength, nonFinal + 1);
  }

  /** Prefix-driven and layout-driven decoding accept the same bodies with the same plaintext. */
  lemma DecodersAgree(context: MessageContext, body: Bytes, plaintext: Bytes)
    requires HEADER_LENGTH + |body| <= U64_MAX
    ensures Accepts(context, body, plaintext) <==>
            var layout := context.parameters.CiphertextLayout(HEADER_LENGTH + |body|);
            && layout.Ok?
            && AllOpen(context, layout.value, body, 0)
            && plaintext == OpenedFrom(context, layout.value, body, 0)
  {
    var layout := context.parameters.CiphertextLayout(HEADER_LENGTH + |body|);
    if layout.Ok? {
      PrefixesAgreeWithLayout(context, layout.value, body, 0);
      assert body[0..] == body;
    } else if Accepts(context, body, plaintext) {
      AcceptableHasLayout(context, body);
    }
  }

  /** Each opened segment is the slice of the whole plaintext its layout names. */
  lemma {:induction false} OpenedSlice(context: MessageContext, layout: MessageLayout, body: Bytes, from: nat, position: nat)
    requires HEADER_LENGTH + |body| == layout.ciphertextLength
    requires from <= position < layout.segmentCount && AllOpen(context, layout, body, from)
    ensures var s, base := SegmentAt(layout, position), SegmentAt(layout, from).plaintextOffset;
            var whole := OpenedFrom(context, layout, body, from);
      && |whole| == layout.plaintextLength - base
      && base <= s.plaintextOffset && s.plaintextOffset - base + s.plaintextLength <= |whole|
      && whole[s.plaintextOffset - base..s.plaintextOffset - base + s.plaintextLength] == OpenAt(context, layout, body, position).value
    decreases layout.segmentCount - from
  {
    hide OpenAt, SegmentSlice, SegmentAt, Times, FinalSegment;
    LayoutTiles(layout, from);
    LayoutTiles(layout, position);
    var head := OpenAt(context, layout, body, from).value;
    if from + 1 == layout.segmentCount {
      assert OpenedFrom(context, layout, body, from) == head + [];
    } else {
      OpenedSlice(context, layout, body, from + 1, if position == from then from + 1 else position);
      var tail := OpenedFrom(context, layout, body, from + 1);
      var s := SegmentAt(layout, position);
      if position == from {
        assert (head + tail)[..|head|] == head;
      } else {
        SliceOfTail(head, tail, s.plaintextOffset - SegmentAt(layout, from + 1).plaintextOffset, s.plaintextLength);
      }
    }
  }

  lemma SliceOfTail(head: Bytes, tail: Bytes, at: nat, length: nat)
    requires at + length <= |tail|
    ensures (head + tail)[|head| + at..|head| + at + length] == tail[at..at + length]
  {
  }
}
