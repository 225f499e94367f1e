/** Whole runs of the random-access reader: any interleaving of operations is answered as an abstract
    machine over the plaintext position demands (src/random_access.rs:205-498). */
module RandomRuns {
  import opened ByteStrings
  import opened Failures
  import opened ParameterSets
  import opened CipherSuites
  import opened Segments
  import opened Messages
  import opened Wire
  import opened RandomAccess
  import opened RandomReaders
  import opened Runs

  /** What a caller may do with a random-access reader, in any order. `Reposition` moves the source
      behind the reader's back, through the mutable reference it hands out. */
  datatype Operation =
    | ReadNext(size: nat)
    | SeekTo(target: SeekFrom)
    | OneSegment(position: u64)
    | OneRange(lower: Bound, upper: Bound)
    | Reposition(place: nat)

  /** What an operation demands: a range of the plaintext, and the plaintext position afterwards. */
  datatype Demand = Refused | Granted(from: u64, end: u64, next: u64)

  /** The abstract machine. It knows the layout and the plaintext position, and nothing of sources,
      segments in a cache, or ciphertext. */
  function Ask(layout: MessageLayout, at: u64, operation: Operation): (r: Demand)
    ensures r.Granted? ==> r.from <= r.end
    ensures r.Granted? && r.from < r.end ==> r.end <= layout.plaintextLength
  {
    match operation
    case ReadNext(size) =>
      var read := ReadableAt(layout, at, size);
      Granted(at, at + read, at + read)
    case SeekTo(target) =>
      var wanted := Resolve(target, layout.plaintextLength, at);
      if 0 <= wanted <= U64_MAX then Granted(wanted, wanted, wanted) else Refused
    case OneSegment(position) =>
      if position >= layout.segmentCount then Refused
      else
        LayoutTiles(layout, position);
        var s := SegmentAt(layout, position);
        Granted(s.plaintextOffset, s.plaintextOffset + s.plaintextLength, at)
    case OneRange(lower, upper) =>
      var range := ResolveBounds(lower, upper, layout.plaintextLength);
      if range.Ok? then Granted(range.value.0, range.value.1, at) else Refused
    case Reposition(_) => Granted(at, at, at)
  }

  /** Some segment of a demanded range does not open. */
  ghost predicate Blocked(context: MessageContext, layout: MessageLayout, body: Bytes, demand: Demand)
    requires HEADER_LENGTH + |body| == layout.ciphertextLength
  {
    demand.Granted? && demand.from < demand.end && Unreadable(context, layout, body, demand.from, demand.end)
  }

  /** An answer delivers exactly the plaintext demanded. Apart from device failures, there is none
      exactly when the demand is refused or a segment of the range does not open. */
  ghost predicate Answers(context: MessageContext, layout: MessageLayout, body: Bytes, demand: Demand, answer: IoResult<Bytes>)
    requires HEADER_LENGTH + |body| == layout.ciphertextLength
  {
    match answer
    case Ok(bytes) =>
      && demand.Granted? && !Blocked(context, layout, body, demand)
      && |bytes| == demand.end - demand.from
      && (bytes != [] ==> IsRange(context, layout, body, demand.from, bytes))
    case Err(error) =>
      error == Device || demand.Refused? || Blocked(context, layout, body, demand)
  }

  function NextPosition(at: u64, demand: Demand, answer: IoResult<Bytes>): u64 {
    if answer.Ok? && demand.Granted? then demand.next else at
  }

  method PerformRead(reader: Reader, size: nat) returns (r: IoResult<Bytes>)
    requires reader.Valid()
    modifies reader.Repr
    ensures reader.Valid()
    ensures var demand := Ask(reader.layout, old(reader.plaintextPosition), ReadNext(size));
      && Answers(reader.state.context, reader.layout, reader.Body(), demand, r)
      && reader.plaintextPosition == NextPosition(old(reader.plaintextPosition), demand, r)
    ensures old(reader.inner.Reliable()) ==> reader.inner.Reliable() && r != Err(Device)
  {
    hide Reader.Whole, Reader.Remembering, Reader.FinalOpens, OpenAt, SegmentForPosition, IsRange, Unreadable, ReadableAt, Source.Reliable;
    ghost var at := reader.plaintextPosition;
    ghost var context, layout, body := reader.state.context, reader.layout, reader.Body();
    var output := new Byte[size](_ => 0);
    var read := reader.Read(output);
    if read.Err? {
      if read.error != Device {
        UnreadableWidens(context, layout, body, at, at + 1, at + ReadableAt(layout, at, size));
      }
      return Err(read.error);
    }
    if read.value > 0 {
      RangeIsReadable(context, layout, body, at, output[..read.value]);
    }
    return Ok(output[..read.value]);
  }

  lemma UnreadableWidens(context: MessageContext, layout: MessageLayout, body: Bytes, from: nat, end: nat, more: nat)
    requires HEADER_LENGTH + |body| == layout.ciphertextLength && end <= more
    requires Unreadable(context, layout, body, from, end)
    ensures Unreadable(context, layout, body, from, more)
  {
    hide OpenAt, SegmentForPosition;
  }

  method PerformSegment(reader: Reader, position: u64) returns (r: IoResult<Bytes>)
    requires reader.Valid()
    modifies reader.Repr
    ensures reader.Valid()
    ensures var demand := Ask(reader.layout, old(reader.plaintextPosition), OneSegment(position));
      && Answers(reader.state.context, reader.layout, reader.Body(), demand, r)
      && reader.plaintextPosition == NextPosition(old(reader.plaintextPosition), demand, r)
    ensures old(reader.inner.Reliable()) ==> reader.inner.Reliable() && r != Err(Device)
  {
    hide Reader.Whole, Reader.Remembering, Reader.FinalOpens, OpenAt, SegmentForPosition, IsRange, Unreadable, Source.Reliable;
    r := reader.ReadSegment(position);
    SegmentAnswers(reader, position, r);
  }

  /** Reading a segment is reading its range; an empty one is the final segment, which opens. */
  lemma SegmentAnswers(reader: Reader, position: u64, answer: IoResult<Bytes>)
    requires reader.Valid()
    requires answer.Ok? ==>
      && position < reader.layout.segmentCount
      && OpenAt(reader.state.context, reader.layout, reader.Body(), position) == Ok(answer.value)
    requires position < reader.layout.segmentCount && answer.Err? && answer.error != Device ==>
      OpenAt(reader.state.context, reader.layout, reader.Body(), position).Err?
    ensures Answers(reader.state.context, reader.layout, reader.Body(), Ask(reader.layout, reader.plaintextPosition, OneSegment(position)), answer)
  {
    hide Reader.Whole, Reader.Remembering, OpenAt, SegmentForPosition, IsRange, Source.Reliable;
    if position < reader.layout.segmentCount {
      LayoutTiles(reader.layout, position);
      if answer.Ok? {
        ghost var bytes := answer.value;
        SegmentIsRange(reader.state.context, reader.layout, reader.Body(), position, 0, |bytes|);
        assert bytes[0..|bytes|] == bytes;
        if bytes != [] {
          RangeIsReadable(reader.state.context, reader.layout, reader.Body(), SegmentAt(reader.layout, position).plaintextOffset, bytes);
        }
      }
    }
  }

  method PerformRange(reader: Reader, lower: Bound, upper: Bound) returns (r: IoResult<Bytes>)
    requires reader.Valid()
    modifies reader.Repr
    ensures reader.Valid()
    ensures var demand := Ask(reader.layout, old(reader.plaintextPosition), OneRange(lower, upper));
      && Answers(reader.state.context, reader.layout, reader.Body(), demand, r)
      && reader.plaintextPosition == NextPosition(old(reader.plaintextPosition), demand, r)
    ensures old(reader.inner.Reliable()) ==> reader.inner.Reliable() && r != Err(Device)
  {
    hide Reader.Whole, Reader.Remembering, Reader.FinalOpens, ResolveBounds, IsRange, Unreadable, Source.Reliable;
    r := reader.ReadRange(lower, upper);
    if r.Ok? && r.value != [] {
      RangeIsReadable(reader.state.context, reader.layout, reader.Body(),
                      ResolveBounds(lower, upper, reader.layout.plaintextLength).value.0, r.value);
    }
  }

  method PerformReposition(reader: Reader, place: nat)
    requires reader.Valid()
    modifies reader.Repr
    ensures reader.Valid() && reader.plaintextPosition == old(reader.plaintextPosition)
    ensures old(reader.inner.Reliable()) ==> reader.inner.Reliable()
  {
    hide Reader.FinalOpens;
    var source := reader.GetMut();
    source.position := place;
  }

  /** Performs one operation. It answers what the machine demands, and moves the plaintext position as
      the machine does; a failure leaves it. */
  method Perform(reader: Reader, operation: Operation) returns (r: IoResult<Bytes>)
    requires reader.Valid()
    modifies reader.Repr
    ensures reader.Valid()
    ensures var demand := Ask(reader.layout, old(reader.plaintextPosition), operation);
      && Answers(reader.state.context, reader.layout, reader.Body(), demand, r)
      && reader.plaintextPosition == NextPosition(old(reader.plaintextPosition), demand, r)
    ensures old(reader.inner.Reliable()) ==> reader.inner.Reliable() && r != Err(Device)
  {
    hide Reader.Whole, Reader.Remembering, Reader.FinalOpens, OpenAt, SegmentForPosition, IsRange, Unreadable, Source.Reliable;
    match operation
    case ReadNext(size) => r := PerformRead(reader, size);
    case SeekTo(target) =>
      var moved := reader.Seek(target);
      r := if moved.Ok? then Ok([]) else Err(moved.error);
    case OneSegment(position) => r := PerformSegment(reader, position);
    case OneRange(lower, upper) => r := PerformRange(reader, lower, upper);
    case Reposition(place) =>
      PerformReposition(reader, place);
      r := Ok([]);
  }

  /** The plaintext position before operation `i`, which follows from the answers so far. */
  function PositionBefore(layout: MessageLayout, operations: seq<Operation>, answers: seq<IoResult<Bytes>>, i: nat): u64
    requires i <= |operations| && i <= |answers|
  {
    if i == 0 then 0
    else
      var at := PositionBefore(layout, operations, answers, i - 1);
      NextPosition(at, Ask(layout, at, operations[i - 1]), answers[i - 1])
  }

  /** One answer for each operation, each the one demanded at the position its predecessors left. */
  ghost predicate AnswersAll(
    context: MessageContext, layout: MessageLayout, body: Bytes, operations: seq<Operation>, answers: seq<IoResult<Bytes>>, count: nat)
    requires HEADER_LENGTH + |body| == layout.ciphertextLength && count <= |operations| && count <= |answers|
  {
    forall i :: 0 <= i < count ==>
      Answers(context, layout, body, Ask(layout, PositionBefore(layout, operations, answers, i), operations[i]), answers[i])
  }

  lemma {:induction false} PositionStays(layout: MessageLayout, operations: seq<Operation>, answers: seq<IoResult<Bytes>>, more: IoResult<Bytes>, i: nat)
    requires i <= |operations| && i <= |answers|
    ensures PositionBefore(layout, operations, answers + [more], i) == PositionBefore(layout, operations, answers, i)
  {
    if i > 0 {
      PositionStays(layout, operations, answers, more, i - 1);
    }
  }

  lemma PositionMoves(layout: MessageLayout, operations: seq<Operation>, answers: seq<IoResult<Bytes>>, answer: IoResult<Bytes>)
    requires |answers| < |operations|
    ensures var at := PositionBefore(layout, operations, answers, |answers|);
            PositionBefore(layout, operations, answers + [answer], |answers| + 1) ==
            NextPosition(at, Ask(layout, at, operations[|answers|]), answer)
  {
    hide Ask, NextPosition;
    PositionStays(layout, operations, answers, answer, |answers|);
  }

  lemma OneMoreAnswer(
    context: MessageContext, layout: MessageLayout, body: Bytes, operations: seq<Operation>, answers: seq<IoResult<Bytes>>, answer: IoResult<Bytes>)
    requires HEADER_LENGTH + |body| == layout.ciphertextLength && |answers| < |operations|
    requires AnswersAll(context, layout, body, operations, answers, |answers|)
    requires var at := PositionBefore(layout, operations, answers, |answers|);
             Answers(context, layout, body, Ask(layout, at, operations[|answers|]), answer)
    ensures AnswersAll(context, layout, body, operations, answers + [answer], |answers| + 1)
  {
    hide Answers, Ask, NextPosition, PositionBefore;
    forall i | 0 <= i < |answers| + 1
      ensures Answers(context, layout, body, Ask(layout, PositionBefore(layout, operations, answers + [answer], i), operations[i]),
                      (answers + [answer])[i])
    {
      PositionStays(layout, operations, answers, answer, i);
    }
  }

  lemma NothingAsked(context: MessageContext, layout: MessageLayout, body: Bytes, operations: seq<Operation>)
    requires HEADER_LENGTH + |body| == layout.ciphertextLength
    ensures PositionBefore(layout, operations, [], 0) == 0
    ensures AnswersAll(context, layout, body, operations, [], 0)
  {
  }

  /** Any interleaving of operations, over any ciphertext and a source that may fail at any point.
      Without such failures the ciphertext opens exactly when its header, its length and its final
      segment allow it; then every operation gets its answer. */
  method RandomRun(
    suite: CipherSuite, key: Bytes, aad: Bytes, required: Option<Parameters>, ciphertext: Bytes,
    readScript: seq<ReadEvent>, seekScript: seq<bool>, operations: seq<Operation>)
    returns (opening: IoResult<MessageLayout>, answers: seq<IoResult<Bytes>>)
    requires |ciphertext| <= U64_MAX
    ensures opening.Ok? ==>
      && SeekableOpens(suite, key, aad, required, ciphertext)
      && var context := OpenedContext(suite, key, aad, required, ciphertext);
      && context.parameters.CiphertextLayout(|ciphertext|) == Ok(opening.value)
      && |answers| == |operations|
      && AnswersAll(context, opening.value, ciphertext[HEADER_LENGTH..], operations, answers, |operations|)
    ensures opening.Err? && opening.error != Device ==> !SeekableOpens(suite, key, aad, required, ciphertext)
    ensures opening.Err? ==> answers == []
    ensures Fail !in readScript && false !in seekScript ==> opening != Err(Device) && Err(Device) !in answers
  {
    hide SeekableOpens, StartContext, AnswersAll, PositionBefore, Answers, Ask, NextPosition, OpenAt, Reader.Whole, Reader.Remembering, Reader.FinalOpens, Parameters.CiphertextLayout, Source.Reliable;
    answers := [];
    var source := new Source(ciphertext, 0, readScript, seekScript);
    ReliableFrom(source);
    assert source.Remaining() == ciphertext;
    var begun := Reader.New(source, suite, key, aad, required);
    if begun.Err? {
      return Err(begun.error), answers;
    }
    var reader := begun.value;
    reader.Seekable();
    ghost var context, layout, body := reader.state.context, reader.layout, reader.Body();
    assert SeekableOpens(suite, key, aad, required, ciphertext) && context == OpenedContext(suite, key, aad, required, ciphertext);
    NothingAsked(context, layout, body, operations);
    for n := 0 to |operations|
      invariant reader.Valid() && fresh(reader.Repr) && reader.Body() == body
      invariant |answers| == n && AnswersAll(context, layout, body, operations, answers, n)
      invariant reader.plaintextPosition == PositionBefore(layout, operations, answers, n)
      invariant Fail !in readScript && false !in seekScript ==> reader.inner.Reliable() && Err(Device) !in answers
    {
      var answer := Perform(reader, operations[n]);
      OneMoreAnswer(context, layout, body, operations, answers, answer);
      PositionMoves(layout, operations, answers, answer);
      answers := answers + [answer];
    }
    return Ok(reader.layout), answers;
  }

  /** Where the whole message opens, an answer is the slice of its plaintext that was demanded, and
      apart from device failures there is one unless the demand is refused. */
  lemma WholeMessageAnswers(
    context: MessageContext, layout: MessageLayout, body: Bytes, plaintext: Bytes, demand: Demand, answer: IoResult<Bytes>)
    requires context.parameters == layout.parameters && HEADER_LENGTH + |body| == layout.ciphertextLength
    requires context.parameters.CiphertextLayout(layout.ciphertextLength) == Ok(layout)
    requires Accepts(context, body, plaintext) && Answers(context, layout, body, demand, answer)
    ensures |plaintext| == layout.plaintextLength
    ensures answer.Ok? ==>
      && demand.Granted?
      && (demand.from < demand.end ==> demand.end <= |plaintext| && answer.value == plaintext[demand.from..demand.end])
      && (demand.from >= demand.end ==> answer.value == [])
    ensures answer.Err? && answer.error != Device ==> demand.Refused?
  {
    hide DecodeFrame, PlainByte, Parameters.CiphertextLayout, OpenAt;
    DecodersAgree(context, body, plaintext);
    LayoutTiles(layout, 0);
    OpenedSlice(context, layout, body, 0, 0);
    if answer.Ok? && answer.value != [] {
      RangeOfMessage(context, layout, body, plaintext, demand.from, answer.value);
    }
  }

  /** Seeking to where one is keeps the position, and relative seeks add up. */
  lemma SeeksCompose(layout: MessageLayout, at: u64, a: u64, b: int)
    ensures Ask(layout, at, SeekTo(Current(0))) == Granted(at, at, at)
    ensures var first := Ask(layout, at, SeekTo(Start(a)));
            first.Granted? && Ask(layout, first.next, SeekTo(Current(b))) ==
            if 0 <= a + b <= U64_MAX then Ask(layout, at, SeekTo(Start(a + b))) else Refused
    ensures Ask(layout, at, SeekTo(End(b))) ==
            if 0 <= layout.plaintextLength + b <= U64_MAX then Ask(layout, at, SeekTo(Start(layout.plaintextLength + b))) else Refused
  {
  }

  /** Seeks, and then reads to the end in any buffer sizes. Of a message that opens this delivers its
      plaintext from the target on: after `End(-k)`, the last `k` bytes. */
  method SeekAndDrain(reader: Reader, target: SeekFrom, sizes: BufferSizes, ghost plaintext: Bytes) returns (r: IoResult<Bytes>)
    requires reader.Valid() && Accepts(reader.state.context, reader.Body(), plaintext)
    modifies reader.Repr
    ensures reader.Valid()
    ensures var place := match target
              case Start(offset) => offset
              case End(delta) => |plaintext| + delta
              case Current(delta) => old(reader.plaintextPosition) + delta;
      && (r.Ok? ==> 0 <= place && r.value == if place <= |plaintext| then plaintext[place..] else [])
      && (old(reader.inner.Reliable()) && 0 <= place <= U64_MAX ==> r.Ok?)
  {
    hide Ask, Answers, NextPosition, DecodeFrame, OpenAt, Reader.Remembering, Reader.FinalOpens, Reader.Whole, Source.Reliable;
    WholeLength(reader, plaintext);
    var _ :- reader.Seek(target);
    r := Drain(reader, sizes, plaintext);
  }

  /** Reads to the end in any buffer sizes. */
  method Drain(reader: Reader, sizes: BufferSizes, ghost plaintext: Bytes) returns (r: IoResult<Bytes>)
    requires reader.Valid() && Accepts(reader.state.context, reader.Body(), plaintext)
    modifies reader.Repr
    ensures reader.Valid()
    ensures var place := old(reader.plaintextPosition);
      r.Ok? ==> r.value == if place <= |plaintext| then plaintext[place..] else []
    ensures old(reader.inner.Reliable()) ==> r.Ok?
  {
    hide Accepts, OpenAt, Reader.Remembering, Reader.FinalOpens, Reader.Whole, Source.Reliable, Drained;
    ghost var place := reader.plaintextPosition;
    var bytes: Bytes := [];
    var atEnd := false;
    var n := 0;
    NothingDrained(plaintext, place);
    while !atEnd
      invariant reader.Valid() && Accepts(reader.state.context, reader.Body(), plaintext)
      invariant reader.plaintextPosition == place + |bytes| && Drained(plaintext, place, bytes)
      invariant atEnd ==> reader.plaintextPosition >= |plaintext|
      invariant old(reader.inner.Reliable()) ==> reader.inner.Reliable()
      decreases !atEnd, |plaintext| - reader.plaintextPosition
    {
      var read :- DrainStep(reader, sizes(n) + 1, plaintext);
      DrainedFurther(plaintext, place, bytes, read);
      bytes := bytes + read;
      atEnd := read == [];
      n := n + 1;
    }
    AllDrained(plaintext, place, bytes);
    return Ok(bytes);
  }

  lemma NothingDrained(plaintext: Bytes, place: nat)
    ensures Drained(plaintext, place, [])
  {
  }

  lemma DrainedFurther(plaintext: Bytes, place: nat, bytes: Bytes, read: Bytes)
    requires Drained(plaintext, place, bytes)
    requires read != [] ==>
      var at := place + |bytes|;
      at + |read| <= |plaintext| && read == plaintext[at..at + |read|]
    ensures Drained(plaintext, place, bytes + read)
  {
    if read != [] {
      SliceGrows(plaintext, place, place + |bytes|, place + |bytes| + |read|);
    }
  }

  lemma AllDrained(plaintext: Bytes, place: nat, bytes: Bytes)
    requires Drained(plaintext, place, bytes) && place + |bytes| >= |plaintext|
    ensures bytes == if place <= |plaintext| then plaintext[place..] else []
  {
  }

  /** These bytes are what the plaintext has from a place on. */
  ghost predicate Drained(plaintext: Bytes, place: nat, bytes: Bytes) {
    if place <= |plaintext| then place + |bytes| <= |plaintext| && bytes == plaintext[place..place + |bytes|] else bytes == []
  }

  lemma WholeLength(reader: Reader, plaintext: Bytes)
    requires reader.Valid() && Accepts(reader.state.context, reader.Body(), plaintext)
    ensures |plaintext| == reader.layout.plaintextLength
  {
    hide DecodeFrame, OpenAt, Reader.Remembering, Parameters.CiphertextLayout;
    assert IsRange(reader.state.context, reader.layout, reader.Body(), 0, []);
    RangeOfMessage(reader.state.context, reader.layout, reader.Body(), plaintext, 0, []);
  }

  /** One read of a message that opens. */
  method DrainStep(reader: Reader, size: nat, ghost plaintext: Bytes) returns (r: IoResult<Bytes>)
    requires reader.Valid() && size > 0 && Accepts(reader.state.context, reader.Body(), plaintext)
    modifies reader.Repr
    ensures reader.Valid()
    ensures r.Ok? ==>
      && var at := old(reader.plaintextPosition);
      && reader.plaintextPosition == at + |r.value|
      && (r.value == [] <==> at >= |plaintext|)
      && (r.value != [] ==> at + |r.value| <= |plaintext| && r.value == plaintext[at..at + |r.value|])
    ensures old(reader.inner.Reliable()) ==> reader.inner.Reliable() && r.Ok?
  {
    hide DecodeFrame, OpenAt, IsRange, Unreadable, Reader.Remembering, Reader.FinalOpens, Reader.Whole, Source.Reliable, Parameters.CiphertextLayout;
    ghost var at := reader.plaintextPosition;
    WholeLength(reader, plaintext);
    r := PerformRead(reader, size);
    DrainAnswers(reader, plaintext, Ask(reader.layout, at, ReadNext(size)), r);
  }

  lemma DrainAnswers(reader: Reader, plaintext: Bytes, demand: Demand, answer: IoResult<Bytes>)
    requires reader.Valid() && Accepts(reader.state.context, reader.Body(), plaintext)
    requires Answers(reader.state.context, reader.layout, reader.Body(), demand, answer)
    ensures answer.Ok? ==>
      && demand.Granted?
      && (demand.from < demand.end ==> demand.end <= |plaintext| && answer.value == plaintext[demand.from..demand.end])
      && (demand.from >= demand.end ==> answer.value == [])
    ensures answer.Err? && answer.error != Device ==> demand.Refused?
  {
    hide DecodeFrame, OpenAt, IsRange, Unreadable, Answers, Reader.Remembering, Reader.FinalOpens, Parameters.CiphertextLayout;
    WholeMessageAnswers(reader.state.context, reader.layout, reader.Body(), plaintext, demand, answer);
  }
}
