/** The random-access reader: a one-segment plaintext cache and a tracked source position
    (src/random_access.rs:34-498). */
module RandomReaders {
  import opened ByteStrings
  import opened Failures
  import opened Arithmetic
  import opened ParameterSets
  import opened CipherSuites
  import opened Segments
  import opened Messages
  import opened Buffers
  import opened States
  import opened Wire
  import opened RandomAccess

  datatype SeekFrom = Start(offset: u64) | End(delta: int) | Current(delta: int)

  class Reader {
    const inner: Source
    const state: DecryptionState
    const header: Bytes
    const layout: MessageLayout
    const messageStart: nat
    const scratch: SegmentBuffer
    var plaintextPosition: u64
    var cachedPosition: Option<nat>
    var innerPosition: Option<nat>
    ghost const Repr: set<object>

    /** The source holds the whole of a segment. */
    ghost predicate InSource(position: nat)
      requires position < layout.segmentCount
    {
      var s := SegmentAt(layout, position);
      messageStart + s.ciphertextOffset + s.ciphertextLength <= |inner.data|
    }

    ghost function Segment(position: nat): Bytes
      requires position < layout.segmentCount && InSource(position)
    {
      var s := SegmentAt(layout, position);
      inner.data[messageStart + s.ciphertextOffset..messageStart + s.ciphertextOffset + s.ciphertextLength]
    }

    ghost function Open(position: nat): Outcome<Bytes>
      requires position < layout.segmentCount && InSource(position)
    {
      CheckedOpen(state.context, position, SegmentAt(layout, position).kind, Segment(position))
    }

    ghost predicate Tracking()
      reads this, Repr
    {
      Owned() && Remembering()
    }

    ghost predicate Owned()
      reads this
    {
      && Repr == {this, inner, state.keys, scratch, scratch.bytes}
      && state.context.parameters == layout.parameters == scratch.parameters
    }

    /** The two facts the reader remembers are true: the scratch buffer holds the plaintext of the
        cached segment, and the source is at the tracked position. */
    ghost predicate Remembering()
      requires Owned()
      reads this, Repr
    {
      && state.Valid() && scratch.Valid()
      && (cachedPosition.Some? ==>
           && cachedPosition.value < layout.segmentCount && InSource(cachedPosition.value)
           && scratch.Plaintext().Ok? && scratch.Plaintext() == Open(cachedPosition.value))
      && (innerPosition.Some? ==> inner.position == innerPosition.value)
    }

    /** The whole message is in the source. */
    ghost predicate Valid()
      reads this, Repr
    {
      Tracking() && Whole() && FinalOpens()
    }

    /** The final segment was authenticated when the reader was opened. */
    ghost predicate FinalOpens()
      requires Whole()
    {
      OpenAt(state.context, layout, Body(), layout.segmentCount - 1).Ok?
    }

    ghost predicate Whole() {
      && messageStart + layout.ciphertextLength <= |inner.data| <= U64_MAX
      && layout.parameters.CiphertextLayout(layout.ciphertextLength) == Ok(layout)
    }

    /** The body of the message. */
    ghost function Body(): (r: Bytes)
      requires Whole()
      ensures HEADER_LENGTH + |r| == layout.ciphertextLength
    {
      inner.data[messageStart + HEADER_LENGTH..messageStart + layout.ciphertextLength]
    }

    /** What this reader opens at a position is the segment of the body there. */
    lemma OpensBody(position: nat)
      requires Whole() && position < layout.segmentCount
      ensures InSource(position)
      ensures Open(position) == OpenAt(state.context, layout, Body(), position)
    {
      hide CheckedOpen, SegmentForPosition, Parameters.CiphertextLayout, SegmentSlice, Source.Reliable;
      LayoutTiles(layout, position);
      SegmentOfBody(position);
    }

    lemma SegmentOfBody(position: nat)
      requires Whole() && position < layout.segmentCount && InSource(position)
      ensures Segment(position) == SegmentSlice(layout, Body(), position)
    {
      hide SegmentForPosition, Parameters.CiphertextLayout, Source.Reliable;
      LayoutTiles(layout, position);
      var s := SegmentAt(layout, position);
      var from := s.ciphertextOffset - HEADER_LENGTH;
      SliceOfSlice(inner.data, messageStart + HEADER_LENGTH, messageStart + layout.ciphertextLength, from, from + s.ciphertextLength);
      if s.kind.Final? {
        assert Body()[from..] == Body()[from..from + s.ciphertextLength];
      }
    }

    static lemma FrontOfTail(data: Bytes, from: nat, length: nat)
      requires from + length <= |data| && HEADER_LENGTH <= length
      ensures data[from..][..length][..HEADER_LENGTH] == data[from..][..HEADER_LENGTH]
      ensures data[from..][..length][HEADER_LENGTH..] == data[from + HEADER_LENGTH..from + length]
    {
      assert data[from..][..length] == data[from..from + length];
    }

    lemma SliceOfSlice(data: Bytes, from: nat, end: nat, lo: nat, hi: nat)
      requires from <= end <= |data| && lo <= hi <= end - from
      ensures data[from..end][lo..hi] == data[from + lo..from + hi]
    {
      var a, b := data[from..end][lo..hi], data[from + lo..from + hi];
      forall i | 0 <= i < hi - lo
        ensures a[i] == b[i]
      {
        assert a[i] == data[from..end][lo + i] == data[from + (lo + i)];
        assert b[i] == data[(from + lo) + i];
      }
    }

    /** The fields of a reader whose final segment is still to be opened. */
    constructor Unopened(inner: Source, state: DecryptionState, header: Bytes, messageStart: nat, layout: MessageLayout)
      requires state.Valid() && state.context.parameters == layout.parameters
      ensures Tracking() && fresh(Repr - {inner, state.keys})
      ensures this.inner == inner && this.state == state && this.header == header
      ensures this.messageStart == messageStart && this.layout == layout
      ensures plaintextPosition == 0 && cachedPosition == None && innerPosition == None
    {
      this.inner, this.state, this.header, this.messageStart, this.layout := inner, state, header, messageStart, layout;
      var storage := new SegmentBuffer(layout.parameters);
      scratch := storage;
      plaintextPosition, cachedPosition, innerPosition := 0, None, None;
      Repr := {this, inner, state.keys, storage, storage.bytes};
    }

    /** Skips the seek when the source is known to be there already. */
    method SeekInnerTo(offset: nat) returns (r: IoResult<()>)
      requires innerPosition.Some? ==> inner.position == innerPosition.value
      modifies `innerPosition, inner
      ensures r.Ok? ==> innerPosition == Some(offset) && inner.position == offset
      ensures r.Err? ==> r.error == Device && innerPosition == None
      ensures old(inner.Reliable()) ==> inner.Reliable() && r != Err(Device)
    {
      if innerPosition == Some(offset) {
        return Ok(());
      }
      innerPosition := None;
      var _ :- inner.Seek(offset);
      innerPosition := Some(offset);
      return Ok(());
    }

    method SeekToSegment(segment: SegmentLayout) returns (r: IoResult<()>)
      requires innerPosition.Some? ==> inner.position == innerPosition.value
      modifies `innerPosition, inner
      ensures r.Ok? ==> innerPosition == Some(messageStart + segment.ciphertextOffset) && inner.position == messageStart + segment.ciphertextOffset
      ensures r.Err? ==> innerPosition.Some? ==> inner.position == innerPosition.value
      ensures r.Err? && r.error != Device ==> messageStart + segment.ciphertextOffset > U64_MAX
      ensures old(inner.Reliable()) ==> inner.Reliable() && r != Err(Device)
    {
      if messageStart + segment.ciphertextOffset > U64_MAX {
        return Err(Floe(LengthOverflow));
      }
      r := SeekInnerTo(messageStart + segment.ciphertextOffset);
    }

    /** Invalidates the plaintext cache, then reads the ciphertext of a segment. While the read is
        outstanding the position is not trusted. */
    method FetchSegmentCiphertext(position: nat) returns (r: IoResult<()>)
      requires Tracking() && position < layout.segmentCount
      modifies `cachedPosition, `innerPosition, inner, scratch, scratch.bytes
      ensures Tracking() && cachedPosition == None
      ensures r.Ok? ==> InSource(position) && scratch.Ciphertext() == Ok(Segment(position))
      ensures r.Err? && r.error != Device ==> |inner.data| > U64_MAX || !InSource(position)
      ensures old(inner.Reliable()) ==> inner.Reliable() && r != Err(Device)
    {
      hide CheckedOpen, SegmentForPosition, KeyCache.Valid, Source.Reliable;
      LayoutTiles(layout, position);
      var segment := SegmentAt(layout, position);
      cachedPosition := None;
      var _ :- SeekToSegment(segment);
      var start := innerPosition.value;
      innerPosition := None;
      var _ := scratch.PrepareCiphertext(segment.ciphertextLength);
      ghost var remaining := inner.Remaining();
      var _ :- ReadExactSegment(inner, scratch.bytes, segment.ciphertextLength);
      innerPosition := if start + segment.ciphertextLength > U64_MAX then None else Some(start + segment.ciphertextLength);
      assert remaining[..segment.ciphertextLength] == Segment(position);
      return Ok(());
    }

    /** Opens a segment into the cache. */
    method LoadSegment(position: nat) returns (r: IoResult<()>)
      requires Tracking() && position < layout.segmentCount
      modifies `cachedPosition, `innerPosition, inner, scratch, scratch.bytes, state.keys
      ensures Tracking()
      ensures r.Ok? ==> cachedPosition == Some(position)
      ensures r.Err? ==> cachedPosition == None
      ensures r.Err? && r.error != Device ==> |inner.data| > U64_MAX || !InSource(position) || Open(position).Err?
      ensures old(inner.Reliable()) ==> inner.Reliable() && r != Err(Device)
    {
      hide CheckedOpen, SegmentForPosition, KeyCache.Valid, Source.Reliable;
      LayoutTiles(layout, position);
      var _ :- FetchSegmentCiphertext(position);
      var result := state.DecryptSegmentInPlace(scratch, SegmentAt(layout, position));
      if result.Err? {
        return Err(Floe(result.error));
      }
      cachedPosition := Some(position);
      return Ok(());
    }

    method LoadCachedSegment(position: nat) returns (r: IoResult<()>)
      requires Tracking() && position < layout.segmentCount
      modifies `cachedPosition, `innerPosition, inner, scratch, scratch.bytes, state.keys
      ensures Tracking()
      ensures r.Ok? ==> cachedPosition == Some(position)
      ensures r.Err? && r.error != Device ==> |inner.data| > U64_MAX || !InSource(position) || Open(position).Err?
      ensures old(inner.Reliable()) ==> inner.Reliable() && r != Err(Device)
    {
      if cachedPosition == Some(position) {
        return Ok(());
      }
      r := LoadSegment(position);
    }

    /** Opens a segment into `output[lo..hi]`, which has its plaintext length. */
    method DecryptSegmentDirect(position: nat, output: array<Byte>, lo: nat, hi: nat) returns (r: IoResult<()>)
      requires Tracking() && position < layout.segmentCount
      requires output !in Repr && lo <= hi <= output.Length && hi - lo == SegmentAt(layout, position).plaintextLength
      modifies `cachedPosition, `innerPosition, inner, scratch, scratch.bytes, state.keys, output
      ensures Tracking()
      ensures output[..lo] == old(output[..lo]) && output[hi..] == old(output[hi..])
      ensures r.Ok? ==> InSource(position) && Open(position) == Ok(output[lo..hi])
      ensures r.Err? && r.error != Device ==> |inner.data| > U64_MAX || !InSource(position) || Open(position).Err?
      ensures old(inner.Reliable()) ==> inner.Reliable() && r != Err(Device)
    {
      hide CheckedOpen, SegmentForPosition, KeyCache.Valid, Splice, Source.Reliable;
      LayoutTiles(layout, position);
      var _ :- FetchSegmentCiphertext(position);
      ghost var before := output[..];
      var result := state.DecryptSegmentInto(scratch.Ciphertext().value, SegmentAt(layout, position), output, lo, hi);
      if result.Err? {
        return Err(Floe(result.error));
      }
      SpliceAround(before, lo, Open(position).value);
      return Ok(());
    }

    /** Opens the final segment first, so a reader exists only for a source with a whole message,
        as far as lengths and finality go. */
    static method FromParts(inner: Source, state: DecryptionState, header: Bytes, messageStart: nat, ciphertextLength: u64)
      returns (r: IoResult<Reader>)
      requires state.Valid() && |inner.data| <= U64_MAX
      modifies inner, state.keys
      ensures r.Ok? ==>
        && fresh(r.value) && fresh(r.value.Repr - {inner, state.keys}) && r.value.Valid()
        && r.value.inner == inner && r.value.state == state && r.value.messageStart == messageStart
        && r.value.layout.ciphertextLength == ciphertextLength
        && r.value.plaintextPosition == 0 && r.value.cachedPosition == None
      ensures r.Err? && r.error != Device ==>
        || state.context.parameters.CiphertextLayout(ciphertextLength).Err?
        || messageStart + ciphertextLength > |inner.data|
        || FinalFails(state.context, inner.data[messageStart + HEADER_LENGTH..messageStart + ciphertextLength])
      ensures old(inner.Reliable()) ==> inner.Reliable() && r != Err(Device)
    {
      hide OpenAt, Parameters.CiphertextLayout, KeyCache.Valid, Source.Reliable;
      var layout :- Lift(state.context.parameters.CiphertextLayout(ciphertextLength));
      var reader := new Reader.Unopened(inner, state, header, messageStart, layout);
      var _ :- reader.AuthenticateFinal();
      return Ok(reader);
    }

    /** Opens the final segment, forgets it again, and goes to the start of the body. */
    method AuthenticateFinal() returns (r: IoResult<()>)
      requires Tracking() && |inner.data| <= U64_MAX
      requires layout.parameters.CiphertextLayout(layout.ciphertextLength) == Ok(layout)
      modifies `cachedPosition, `innerPosition, inner, scratch, scratch.bytes, state.keys
      ensures r.Ok? ==> Valid() && cachedPosition == None
      ensures r.Err? && r.error != Device ==> !Whole() || !FinalOpens()
      ensures old(inner.Reliable()) ==> inner.Reliable() && r != Err(Device)
    {
      hide OpenAt, SegmentForPosition, Parameters.CiphertextLayout, KeyCache.Valid, CheckedOpen, Source.Reliable;
      var last := layout.segmentCount - 1;
      LayoutTiles(layout, last);
      if Whole() {
        OpensBody(last);
      }
      var _ :- LoadSegment(last);
      scratch.Clear();
      cachedPosition := None;
      var _ :- SeekInnerTo(messageStart + HEADER_LENGTH);
      return Ok(());
    }

    /** Opens the bytes from the source's position to its end. Without a device failure this fails
        only when they are not one message. */
    static method New(inner: Source, suite: CipherSuite, key: Bytes, aad: Bytes, required: Option<Parameters>)
      returns (r: IoResult<Reader>)
      requires |inner.data| <= U64_MAX
      modifies inner
      ensures r.Ok? ==>
        && |old(inner.Remaining())| >= HEADER_LENGTH
        && fresh(r.value) && fresh(r.value.Repr - {inner}) && r.value.Valid()
        && r.value.inner == inner && r.value.plaintextPosition == 0
        && StartContext(suite, key, aad, required, old(inner.Remaining())[..HEADER_LENGTH]) == Ok(r.value.state.context)
        && r.value.Body() == old(inner.Remaining())[HEADER_LENGTH..]
      ensures r.Ok? ==>
        && HEADER_LENGTH <= |old(inner.Remaining())| == r.value.layout.ciphertextLength
        && SeekableOpens(suite, key, aad, required, old(inner.Remaining()))
      ensures r.Err? && r.error != Device ==> !SeekableOpens(suite, key, aad, required, old(inner.Remaining()))
      ensures r.Err? && r.error != Device ==> OpenMessage(suite, key, aad, required, old(inner.Remaining())) == None
      ensures old(inner.Reliable()) ==> inner.Reliable() && r != Err(Device)
    {
      hide StartContext, KeyCache.Valid, OpenAt, DecodeFrame, Parameters.CiphertextLayout, Source.Reliable, Reader.Remembering, Reader.FinalOpens, FinalFails;
      ghost var ciphertext := inner.Remaining();
      var messageStart :- inner.StreamPosition();
      var header :- ReadHeader(inner);
      var begun := DecryptionState.Start(suite, key, aad, required, header);
      var state :- Lift(begun);
      var end :- inner.SeekEnd();
      assert ciphertext[HEADER_LENGTH..] == inner.data[messageStart + HEADER_LENGTH..end];
      FinalMustOpen(state.context, ciphertext[HEADER_LENGTH..]);
      r := FromParts(inner, state, header, messageStart, end - messageStart);
      if r.Ok? {
        r.value.Seekable();
      }
    }

    /** Opens a message of a given length that other data may follow. */
    static method NewWithLength(
      inner: Source, suite: CipherSuite, key: Bytes, aad: Bytes, required: Option<Parameters>, ciphertextLength: u64)
      returns (r: IoResult<Reader>)
      requires |inner.data| <= U64_MAX
      modifies inner
      ensures r.Ok? ==>
        && HEADER_LENGTH <= ciphertextLength <= |old(inner.Remaining())|
        && SeekableOpens(suite, key, aad, required, old(inner.Remaining())[..ciphertextLength])
        && fresh(r.value) && fresh(r.value.Repr - {inner}) && r.value.Valid()
        && r.value.inner == inner && r.value.plaintextPosition == 0
        && StartContext(suite, key, aad, required, old(inner.Remaining())[..HEADER_LENGTH]) == Ok(r.value.state.context)
        && r.value.Body() == old(inner.Remaining())[HEADER_LENGTH..ciphertextLength]
      ensures r.Err? && r.error != Device ==>
        || ciphertextLength > |old(inner.Remaining())|
        || !SeekableOpens(suite, key, aad, required, old(inner.Remaining())[..ciphertextLength])
      ensures r.Err? && r.error != Device ==>
        || ciphertextLength > |old(inner.Remaining())|
        || OpenMessage(suite, key, aad, required, old(inner.Remaining())[..ciphertextLength]) == None
      ensures old(inner.Reliable()) ==> inner.Reliable() && r != Err(Device)
    {
      hide StartContext, KeyCache.Valid, OpenAt, DecodeFrame, Parameters.CiphertextLayout, Source.Reliable;
      ghost var ciphertext := inner.Remaining();
      if ciphertextLength < HEADER_LENGTH {
        return Err(Floe(InvalidHeaderLength(ciphertextLength)));
      }
      var messageStart :- inner.StreamPosition();
      var header :- ReadHeader(inner);
      var begun := DecryptionState.Start(suite, key, aad, required, header);
      if ciphertextLength <= |ciphertext| {
        FrontOfTail(inner.data, messageStart, ciphertextLength);
      }
      var state :- Lift(begun);
      if ciphertextLength <= |ciphertext| {
        FinalMustOpen(state.context, ciphertext[..ciphertextLength][HEADER_LENGTH..]);
      }
      r := FromParts(inner, state, header, messageStart, ciphertextLength);
      if r.Ok? {
        FrontOfTail(inner.data, messageStart, ciphertextLength);
        r.value.Seekable();
      }
    }

    /** What a reader exists for. */
    lemma Seekable()
      requires Valid()
      ensures state.context.parameters.CiphertextLayout(layout.ciphertextLength) == Ok(layout)
      ensures !FinalFails(state.context, Body())
    {
      hide OpenAt, Parameters.CiphertextLayout, CheckedOpen, SegmentForPosition, Source.Reliable;
    }

    // ---- Reading ----

    ghost predicate Reads(from: nat, bytes: Bytes)
      requires Whole()
    {
      IsRange(state.context, layout, Body(), from, bytes)
    }

    ghost predicate Blocked(from: nat, end: nat)
      requires Whole()
    {
      Unreadable(state.context, layout, Body(), from, end)
    }

    /** Reads one segment into `output`. */
    method ReadSegmentInto(position: u64, output: array<Byte>) returns (r: IoResult<nat>)
      requires Valid() && output !in Repr
      modifies Repr - {this}, `cachedPosition, `innerPosition, output
      ensures Valid()
      ensures r.Ok? ==>
        && position < layout.segmentCount && r.value <= output.Length
        && OpenAt(state.context, layout, Body(), position) == Ok(output[..r.value])
        && output[r.value..] == old(output[r.value..])
      ensures position >= layout.segmentCount ==> r == Err(InvalidInput)
      ensures position < layout.segmentCount && r.Err? && r.error != Device ==>
        || output.Length < SegmentAt(layout, position).plaintextLength
        || OpenAt(state.context, layout, Body(), position).Err?
      ensures old(inner.Reliable()) ==> inner.Reliable() && r != Err(Device)
    {
      hide OpenAt, CheckedOpen, SegmentForPosition, Parameters.CiphertextLayout, KeyCache.Valid, Source.Reliable;
      if position >= layout.segmentCount {
        return Err(InvalidInput);
      }
      var required := SegmentAt(layout, position).plaintextLength;
      if output.Length < required {
        return Err(Floe(OutputTooSmall(output.Length, required)));
      }
      OpensBody(position);
      var _ :- DecryptSegmentDirect(position, output, 0, required);
      return Ok(required);
    }

    method ReadSegment(position: u64) returns (r: IoResult<Bytes>)
      requires Valid()
      modifies Repr - {this}, `cachedPosition, `innerPosition
      ensures Valid()
      ensures r.Ok? ==> position < layout.segmentCount && OpenAt(state.context, layout, Body(), position) == Ok(r.value)
      ensures position < layout.segmentCount && r.Err? && r.error != Device ==> OpenAt(state.context, layout, Body(), position).Err?
      ensures old(inner.Reliable()) ==> inner.Reliable() && r != Err(Device)
    {
      hide OpenAt, SegmentForPosition, Parameters.CiphertextLayout, KeyCache.Valid, Reader.Remembering, Source.Reliable;
      if position >= layout.segmentCount {
        return Err(InvalidInput);
      }
      var plaintext := new Byte[SegmentAt(layout, position).plaintextLength](_ => 0);
      var written :- ReadSegmentInto(position, plaintext);
      assert plaintext[..written] == plaintext[..];
      return Ok(plaintext[..]);
    }

    /** Where the part of `[start, end)` in the segments before `position` ends. */
    ghost function Reach(start: nat, end: nat, position: nat): nat {
      var offset := Times(position, layout.parameters.PlaintextSegmentLength());
      if offset <= start then start else if offset >= end then end else offset
    }

    /** The segment at `position` has the part of the range between two reaches. */
    lemma ReachWithin(start: nat, end: nat, position: nat)
      requires start < end <= layout.plaintextLength
      requires Quotient(start, layout.parameters.PlaintextSegmentLength()) <= position <= Quotient(end - 1, layout.parameters.PlaintextSegmentLength())
      ensures position < layout.segmentCount
      ensures var s := SegmentAt(layout, position);
        && s.plaintextOffset <= Reach(start, end, position) <= Reach(start, end, position + 1) <= s.plaintextOffset + s.plaintextLength
        && s.plaintextOffset < end && start < s.plaintextOffset + s.plaintextLength
        && Reach(start, end, position) == (if s.plaintextOffset <= start then start else s.plaintextOffset)
        && Reach(start, end, position + 1) == (if s.plaintextOffset + s.plaintextLength >= end then end else s.plaintextOffset + s.plaintextLength)
    {
      hide SegmentForPosition, Source.Reliable;
      var p := layout.parameters.PlaintextSegmentLength();
      QuotientBounds(start, p);
      QuotientBounds(end - 1, p);
      OffsetLookup(layout, end - 1);
      TimesMonotone(Quotient(start, p), position, p);
      TimesMonotone(position, Quotient(end - 1, p), p);
      SegmentExtent(position);
    }

    lemma SegmentExtent(position: nat)
      requires position < layout.segmentCount
      ensures var s, p := SegmentAt(layout, position), layout.parameters.PlaintextSegmentLength();
        && s.plaintextOffset == Times(position, p)
        && (position + 1 < layout.segmentCount ==> s.plaintextLength == p)
        && (position + 1 == layout.segmentCount ==> s.plaintextOffset + s.plaintextLength == layout.plaintextLength)
        && s.plaintextOffset + s.plaintextLength <= layout.plaintextLength <= U64_MAX
        && s.plaintextLength <= p
    {
      LayoutTiles(layout, position);
    }

    /** Reads what the segment at `position` has of `[start, end)` behind the bytes already written:
        straight into the output if the segment is wholly inside the range, through the cache if not. */
    method ReadPart(start: u64, end: u64, position: nat, output: array<Byte>, written: nat) returns (r: IoResult<nat>)
      requires Valid() && output !in Repr
      requires start < end <= layout.plaintextLength && end - start <= output.Length
      requires Quotient(start, layout.parameters.PlaintextSegmentLength()) <= position <= Quotient(end - 1, layout.parameters.PlaintextSegmentLength())
      requires written == Reach(start, end, position) - start
      requires Reads(start, output[..written])
      modifies Repr - {this}, `cachedPosition, `innerPosition, output
      ensures Valid()
      ensures r.Ok? ==> r.value == Reach(start, end, position + 1) - start && r.value <= output.Length && Reads(start, output[..r.value])
      ensures output[end - start..] == old(output[end - start..])
      ensures r.Err? && r.error != Device ==> Blocked(start, end)
      ensures old(inner.Reliable()) ==> inner.Reliable() && r != Err(Device)
    {
      hide OpenAt, SegmentForPosition, Reader.Whole, Reader.Remembering, Reader.FinalOpens, Reader.Reach, IsRange, Unreadable, Quotient, Source.Reliable;
      ReachWithin(start, end, position);
      BlockedBy(position, start, end);
      LayoutTiles(layout, position);
      var segment := SegmentAt(layout, position);
      if start <= segment.plaintextOffset && segment.plaintextOffset + segment.plaintextLength <= end {
        r := ReadWholeSegment(segment, start, end - start, output, written);
      } else {
        r := ReadPartialSegment(segment, start, end, output, written);
      }
    }

    /** A segment wholly inside the range goes straight into the output, before `limit`. */
    method ReadWholeSegment(segment: SegmentLayout, ghost start: nat, ghost limit: nat, output: array<Byte>, written: nat) returns (r: IoResult<nat>)
      requires Valid() && segment.position < layout.segmentCount && segment == SegmentAt(layout, segment.position)
      requires output !in Repr && written + segment.plaintextLength <= limit <= output.Length
      requires Reads(start, output[..written]) && start + written == segment.plaintextOffset
      modifies Repr - {this}, `cachedPosition, `innerPosition, output
      ensures Valid()
      ensures output[limit..] == old(output[limit..])
      ensures r.Ok? ==> r.value == written + segment.plaintextLength && Reads(start, output[..r.value])
      ensures r.Err? && r.error != Device ==> OpenAt(state.context, layout, Body(), segment.position).Err?
      ensures old(inner.Reliable()) ==> inner.Reliable() && r != Err(Device)
    {
      hide OpenAt, SegmentForPosition, Reader.Whole, Reader.Remembering, Reader.FinalOpens, IsRange, Source.Reliable;
      ghost var before := output[..written];
      var end := written + segment.plaintextLength;
      ghost var rest := output[end..];
      var opening := OpenInto(segment.position, output, written, end);
      assert output[limit..] == rest[limit - end..];
      if opening.Err? {
        return Err(opening.error);
      }
      ghost var plaintext := OpenAt(state.context, layout, Body(), segment.position).value;
      PartJoins(segment.position, 0, |plaintext|, start, before);
      assert output[..end] == before + plaintext[0..|plaintext|];
      return Ok(end);
    }

    /** A segment partly inside the range is copied from the cache. */
    method ReadPartialSegment(segment: SegmentLayout, start: nat, end: nat, output: array<Byte>, written: nat) returns (r: IoResult<nat>)
      requires Valid() && segment.position < layout.segmentCount && segment == SegmentAt(layout, segment.position)
      requires start < end && output !in Repr && written <= end - start <= output.Length
      requires segment.plaintextOffset < end && start < segment.plaintextOffset + segment.plaintextLength
      requires Reads(start, output[..written])
      requires start + written == if start > segment.plaintextOffset then start else segment.plaintextOffset
      modifies Repr - {this}, `cachedPosition, `innerPosition, output
      ensures Valid()
      ensures output[end - start..] == old(output[end - start..])
      ensures r.Ok? ==>
        && start + r.value == Min(end, segment.plaintextOffset + segment.plaintextLength)
        && r.value <= output.Length && Reads(start, output[..r.value])
      ensures r.Err? && r.error != Device ==> OpenAt(state.context, layout, Body(), segment.position).Err?
      ensures old(inner.Reliable()) ==> inner.Reliable() && r != Err(Device)
    {
      hide OpenAt, SegmentForPosition, Reader.Whole, Reader.Remembering, Reader.FinalOpens, IsRange, Source.Reliable;
      var plaintext :- OpenCached(segment.position);
      var lo := Min(if start > segment.plaintextOffset then start - segment.plaintextOffset else 0, |plaintext|);
      var hi := Min(end, segment.plaintextOffset + |plaintext|) - segment.plaintextOffset;
      PartJoins(segment.position, lo, hi, start, output[..written]);
      var reached := written + (hi - lo);
      ghost var rest := output[reached..];
      CopyInto(plaintext[lo..hi], output, written);
      assert output[end - start..] == rest[end - start - reached..];
      return Ok(reached);
    }

    /** The bytes of one opened segment extend a range that ends where they begin. */
    lemma PartJoins(position: nat, lo: nat, hi: nat, start: nat, before: Bytes)
      requires Whole() && position < layout.segmentCount
      requires OpenAt(state.context, layout, Body(), position).Ok?
      requires lo <= hi <= |OpenAt(state.context, layout, Body(), position).value|
      requires Reads(start, before) && start + |before| == SegmentAt(layout, position).plaintextOffset + lo
      ensures Reads(start, before + OpenAt(state.context, layout, Body(), position).value[lo..hi])
    {
      hide OpenAt, SegmentForPosition, IsRange, Reader.Whole, Source.Reliable;
      SegmentIsRange(state.context, layout, Body(), position, lo, hi);
      RangesJoin(state.context, layout, Body(), start, before, OpenAt(state.context, layout, Body(), position).value[lo..hi]);
    }

    lemma BlockedBy(position: nat, from: nat, end: nat)
      requires Whole() && position < layout.segmentCount
      requires SegmentAt(layout, position).plaintextOffset < end
      requires from < SegmentAt(layout, position).plaintextOffset + SegmentAt(layout, position).plaintextLength
      ensures OpenAt(state.context, layout, Body(), position).Err? ==> Blocked(from, end)
    {
      hide OpenAt, SegmentForPosition, Source.Reliable;
    }

    /** The plaintext of a segment, from the cache or from the source. */
    method OpenCached(position: nat) returns (r: IoResult<Bytes>)
      requires Valid() && position < layout.segmentCount
      modifies Repr - {this}, `cachedPosition, `innerPosition
      ensures Valid()
      ensures r.Ok? ==> OpenAt(state.context, layout, Body(), position) == Ok(r.value)
      ensures r.Err? && r.error != Device ==> OpenAt(state.context, layout, Body(), position).Err?
      ensures old(inner.Reliable()) ==> inner.Reliable() && r != Err(Device)
    {
      hide OpenAt, CheckedOpen, SegmentForPosition, Parameters.CiphertextLayout, KeyCache.Valid, Source.Reliable;
      OpensBody(position);
      var _ :- LoadCachedSegment(position);
      return Ok(scratch.Plaintext().value);
    }

    /** Opens a segment into `output[lo..hi]`, which has its plaintext length. */
    method OpenInto(position: nat, output: array<Byte>, lo: nat, hi: nat) returns (r: IoResult<()>)
      requires Valid() && position < layout.segmentCount
      requires output !in Repr && lo <= hi <= output.Length && hi - lo == SegmentAt(layout, position).plaintextLength
      modifies Repr - {this}, `cachedPosition, `innerPosition, output
      ensures Valid()
      ensures output[..lo] == old(output[..lo]) && output[hi..] == old(output[hi..])
      ensures r.Ok? ==> OpenAt(state.context, layout, Body(), position) == Ok(output[lo..hi])
      ensures r.Err? && r.error != Device ==> OpenAt(state.context, layout, Body(), position).Err?
      ensures old(inner.Reliable()) ==> inner.Reliable() && r != Err(Device)
    {
      hide OpenAt, CheckedOpen, SegmentForPosition, Parameters.CiphertextLayout, KeyCache.Valid, Source.Reliable;
      OpensBody(position);
      r := DecryptSegmentDirect(position, output, lo, hi);
    }

    method CopyInto(chunk: Bytes, output: array<Byte>, at: nat)
      requires at + |chunk| <= output.Length
      modifies output
      ensures output[..at] == old(output[..at]) && output[at + |chunk|..] == old(output[at + |chunk|..])
      ensures output[..at + |chunk|] == old(output[..at]) + chunk
    {
      forall i | 0 <= i < |chunk| {
        output[at + i] := chunk[i];
      }
    }

    /** Reads `[start, end)` segment by segment. */
    method ReadResolvedRangeInto(start: u64, end: u64, output: array<Byte>) returns (r: IoResult<nat>)
      requires Valid() && output !in Repr
      requires start <= end <= layout.plaintextLength && end - start <= output.Length
      modifies Repr - {this}, `cachedPosition, `innerPosition, output
      ensures Valid()
      ensures r.Ok? ==> r.value == end - start && Reads(start, output[..r.value])
      ensures output[end - start..] == old(output[end - start..])
      ensures r.Err? ==> start < end
      ensures r.Err? && r.error != Device ==> Blocked(start, end)
      ensures old(inner.Reliable()) ==> inner.Reliable() && r != Err(Device)
    {
      hide Reader.Remembering, FinalOpens, Parameters.CiphertextLayout, PlainByte, Quotient, Source.Reliable;
      if start == end {
        return Ok(0);
      }
      var first := PositionForPlaintextOffset(layout, start);
      var last := PositionForPlaintextOffset(layout, end - 1);
      RangeEnds(start, end);
      var written: nat := 0;
      for position := first to last + 1
        invariant Valid()
        invariant written == Reach(start, end, position) - start && written <= output.Length
        invariant Reads(start, output[..written])
        invariant output[end - start..] == old(output[end - start..])
        invariant old(inner.Reliable()) ==> inner.Reliable()
      {
        written :- ReadPart(start, end, position, output, written);
      }
      return Ok(written);
    }

    lemma RangeEnds(start: nat, end: nat)
      requires start < end <= layout.plaintextLength
      ensures var p := layout.parameters.PlaintextSegmentLength();
        && Quotient(start, p) <= Quotient(end - 1, p)
        && Reach(start, end, Quotient(start, p)) == start
        && Reach(start, end, Quotient(end - 1, p) + 1) == end
    {
      var p := layout.parameters.PlaintextSegmentLength();
      QuotientBounds(start, p);
      QuotientBounds(end - 1, p);
      if Quotient(end - 1, p) < Quotient(start, p) {
        TimesMonotone(Quotient(end - 1, p), Quotient(start, p), p);
      }
    }

    /** A range that is refused, or of which some segment does not open. */
    ghost predicate Unanswerable(lower: Bound, upper: Bound)
      requires Whole()
    {
      var range := ResolveBounds(lower, upper, layout.plaintextLength);
      range.Err? || (range.value.0 < range.value.1 && Blocked(range.value.0, range.value.1))
    }

    /** Reads any range form into `output`, which may be larger than the range. */
    method ReadRangeInto(lower: Bound, upper: Bound, output: array<Byte>) returns (r: IoResult<nat>)
      requires Valid() && output !in Repr
      modifies Repr - {this}, `cachedPosition, `innerPosition, output
      ensures Valid()
      ensures r.Ok? ==>
        && ResolveBounds(lower, upper, layout.plaintextLength).Ok?
        && var range := ResolveBounds(lower, upper, layout.plaintextLength).value;
        && r.value == range.1 - range.0 <= output.Length
        && Reads(range.0, output[..r.value]) && output[r.value..] == old(output[r.value..])
      ensures r.Err? && r.error != Device ==>
        var range := ResolveBounds(lower, upper, layout.plaintextLength);
        Unanswerable(lower, upper) || (range.Ok? && range.value.1 - range.value.0 > output.Length)
      ensures old(inner.Reliable()) ==> inner.Reliable() && r != Err(Device)
    {
      hide Reader.Remembering, FinalOpens, Parameters.CiphertextLayout, IsRange, Unreadable, Source.Reliable;
      var range :- ResolveBounds(lower, upper, layout.plaintextLength);
      var required := range.1 - range.0;
      if output.Length < required {
        return Err(Floe(OutputTooSmall(output.Length, required)));
      }
      r := ReadResolvedRangeInto(range.0, range.1, output);
    }

    method ReadRange(lower: Bound, upper: Bound) returns (r: IoResult<Bytes>)
      requires Valid()
      modifies Repr - {this}, `cachedPosition, `innerPosition
      ensures Valid()
      ensures r.Ok? ==>
        && ResolveBounds(lower, upper, layout.plaintextLength).Ok?
        && var range := ResolveBounds(lower, upper, layout.plaintextLength).value;
        && |r.value| == range.1 - range.0 && Reads(range.0, r.value)
      ensures r.Err? && r.error != Device ==> Unanswerable(lower, upper)
      ensures old(inner.Reliable()) ==> inner.Reliable() && r != Err(Device)
    {
      hide Reader.Remembering, Reader.FinalOpens, Reader.Whole, ResolveBounds, IsRange, Unreadable, Source.Reliable;
      var range :- ResolveBounds(lower, upper, layout.plaintextLength);
      var output := new Byte[range.1 - range.0](_ => 0);
      var written :- ReadResolvedRangeInto(range.0, range.1, output);
      return Ok(output[..written]);
    }

    /** Hands the source out; whatever the caller does to its position, this reader stays valid. */
    method GetMut() returns (source: Source)
      requires Valid()
      modifies `innerPosition
      ensures Valid() && source == inner && innerPosition == None
    {
      hide FinalOpens, Parameters.CiphertextLayout, CheckedOpen, Source.Reliable;
      innerPosition := None;
      return inner;
    }

    /** Reads from the plaintext position on, within one segment. Nothing is read only at the end. */
    method Read(output: array<Byte>) returns (r: IoResult<nat>)
      requires Valid() && output !in Repr
      modifies Repr, output
      ensures Valid()
      ensures r.Ok? ==>
        && r.value <= output.Length
        && plaintextPosition == old(plaintextPosition) + r.value
        && (r.value > 0 ==> Reads(old(plaintextPosition), output[..r.value]))
        && output[r.value..] == old(output[r.value..])
        && r.value == ReadableAt(layout, old(plaintextPosition), output.Length)
        && (r.value == 0 <==> output.Length == 0 || old(plaintextPosition) >= layout.plaintextLength)
      ensures r.Err? ==> output.Length > 0 && plaintextPosition == old(plaintextPosition) < layout.plaintextLength
      ensures r.Err? && r.error != Device ==>
        plaintextPosition < layout.plaintextLength && Blocked(plaintextPosition, plaintextPosition + 1)
      ensures old(inner.Reliable()) ==> inner.Reliable() && r != Err(Device)
    {
      hide OpenAt, SegmentForPosition, Reader.Whole, Reader.Remembering, Reader.FinalOpens, IsRange, Unreadable, Quotient, Source.Reliable;
      if output.Length == 0 || plaintextPosition >= layout.plaintextLength {
        return Ok(0);
      }
      OffsetLookup(layout, plaintextPosition);
      var position := PositionForPlaintextOffset(layout, plaintextPosition);
      BlockedBy(position, plaintextPosition, plaintextPosition + 1);
      LayoutTiles(layout, position);
      var segment := SegmentAt(layout, position);
      var plaintext :- OpenCached(position);
      var local := plaintextPosition - segment.plaintextOffset;
      var read := Min(output.Length, |plaintext| - local);
      CopyInto(plaintext[local..local + read], output, 0);
      SegmentIsRange(state.context, layout, Body(), position, local, local + read);
      assert output[..read] == plaintext[local..local + read];
      AdvancePosition(read);
      return Ok(read);
    }

    method AdvancePosition(read: nat)
      requires Valid() && plaintextPosition + read <= U64_MAX
      modifies `plaintextPosition
      ensures Valid() && plaintextPosition == old(plaintextPosition) + read
    {
      hide FinalOpens, Parameters.CiphertextLayout, CheckedOpen, Source.Reliable;
      plaintextPosition := plaintextPosition + read;
    }

    /** Moves the plaintext position; positions beyond the end are permitted. */
    method Seek(target: SeekFrom) returns (r: IoResult<u64>)
      requires Valid()
      modifies `plaintextPosition
      ensures Valid()
      ensures var wanted := Resolve(target, layout.plaintextLength, old(plaintextPosition));
        if 0 <= wanted <= U64_MAX then r == Ok(wanted) && plaintextPosition == wanted
        else r == Err(InvalidInput) && plaintextPosition == old(plaintextPosition)
      ensures target.Start? ==> r == Ok(target.offset) && plaintextPosition == target.offset
      ensures target.End? && 0 <= layout.plaintextLength + target.delta <= U64_MAX ==>
        r == Ok(layout.plaintextLength + target.delta) && plaintextPosition == layout.plaintextLength + target.delta
      ensures target.Current? && 0 <= old(plaintextPosition) + target.delta <= U64_MAX ==>
        r == Ok(old(plaintextPosition) + target.delta) && plaintextPosition == old(plaintextPosition) + target.delta
    {
      hide FinalOpens, Parameters.CiphertextLayout, CheckedOpen, Source.Reliable;
      var wanted := match target
        case Start(offset) => offset
        case End(delta) => layout.plaintextLength + delta
        case Current(delta) => plaintextPosition + delta;
      if wanted < 0 || wanted > U64_MAX {
        return Err(InvalidInput);
      }
      plaintextPosition := wanted;
      return Ok(wanted);
    }
  }

  function Resolve(target: SeekFrom, length: u64, current: u64): int {
    match target
    case Start(offset) => offset
    case End(delta) => length + delta
    case Current(delta) => current + delta
  }

  /** The final segment that the layout of this body plans does not open. */
  ghost predicate FinalFails(context: MessageContext, body: Bytes) {
    && HEADER_LENGTH + |body| <= U64_MAX
    && var layout := context.parameters.CiphertextLayout(HEADER_LENGTH + |body|);
       layout.Ok? && OpenAt(context, layout.value, body, layout.value.segmentCount - 1).Err?
  }

  /** The conditions for random access: the header is accepted, the length has a layout, and its final
      segment opens. Segments before the last may be damaged. */
  ghost predicate SeekableOpens(suite: CipherSuite, key: Bytes, aad: Bytes, required: Option<Parameters>, ciphertext: Bytes) {
    && HeaderOpens(suite, key, aad, required, ciphertext) && |ciphertext| <= U64_MAX
    && var context := OpenedContext(suite, key, aad, required, ciphertext);
    && context.parameters.CiphertextLayout(|ciphertext|).Ok?
    && !FinalFails(context, ciphertext[HEADER_LENGTH..])
  }

  lemma FinalMustOpen(context: MessageContext, body: Bytes)
    requires HEADER_LENGTH + |body| <= U64_MAX
    ensures context.parameters.CiphertextLayout(HEADER_LENGTH + |body|).Err? || FinalFails(context, body) ==> !Acceptable(context, body)
  {
    hide OpenAt, DecodeFrame, Parameters.CiphertextLayout;
    if Acceptable(context, body) {
      DecodersAgree(context, body, DecodeFrame(context, 0, body).value.plaintext);
    }
  }
}
