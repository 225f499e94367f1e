/** Authenticated random access to complete, seekable ciphertexts (src/random_access.rs). */
module RandomAccess {
  import opened ByteStrings
  import opened Failures
  import opened Arithmetic
  import opened ParameterSets
  import opened CipherSuites
  import opened Segments
  import opened Messages
  import opened Buffers
  import opened States
  import opened Wire

  /** One byte of the plaintext of a layout: a byte of the opened segment that contains it. */
  function PlainByte(context: MessageContext, layout: MessageLayout, body: Bytes, offset: u64): Option<Byte>
    requires HEADER_LENGTH + |body| == layout.ciphertextLength && offset < layout.plaintextLength
  {
    OffsetLookup(layout, offset);
    var position := PositionForPlaintextOffset(layout, offset);
    var segment := OpenAt(context, layout, body, position);
    if segment.Ok? then Some(segment.value[offset - SegmentAt(layout, position).plaintextOffset]) else None
  }

  /** These bytes are the plaintext from `from` on. */
  ghost predicate IsRange(context: MessageContext, layout: MessageLayout, body: Bytes, from: nat, bytes: Bytes)
    requires HEADER_LENGTH + |body| == layout.ciphertextLength
  {
    && from + |bytes| <= layout.plaintextLength
    && forall i: nat :: i < |bytes| ==> PlainByte(context, layout, body, from + i) == Some(bytes[i])
  }

  /** Some segment that overlaps `[from, end)` does not open. */
  ghost predicate Unreadable(context: MessageContext, layout: MessageLayout, body: Bytes, from: nat, end: nat)
    requires HEADER_LENGTH + |body| == layout.ciphertextLength
  {
    exists position: nat ::
      && position < layout.segmentCount && OpenAt(context, layout, body, position).Err?
      && SegmentAt(layout, position).plaintextOffset < end
      && from < SegmentAt(layout, position).plaintextOffset + SegmentAt(layout, position).plaintextLength
  }

  /** The bytes of one opened segment are its part of the plaintext. */
  lemma SegmentIsRange(context: MessageContext, layout: MessageLayout, body: Bytes, position: nat, lo: nat, hi: nat)
    requires HEADER_LENGTH + |body| == layout.ciphertextLength && position < layout.segmentCount
    requires OpenAt(context, layout, body, position).Ok?
    requires lo <= hi <= |OpenAt(context, layout, body, position).value|
    ensures SegmentAt(layout, position).plaintextOffset + hi <= layout.plaintextLength
    ensures IsRange(context, layout, body, SegmentAt(layout, position).plaintextOffset + lo, OpenAt(context, layout, body, position).value[lo..hi])
  {
    hide OpenAt;
    LayoutTiles(layout, position);
    var s, value := SegmentAt(layout, position), OpenAt(context, layout, body, position).value;
    forall i: nat | i < hi - lo
      ensures PlainByte(context, layout, body, s.plaintextOffset + lo + i) == Some(value[lo..hi][i])
    {
      LookupInverse(layout, position, lo + i);
    }
  }

  lemma LookupInverse(layout: MessageLayout, position: nat, local: nat)
    requires position < layout.segmentCount && local < SegmentAt(layout, position).plaintextLength
    ensures SegmentAt(layout, position).plaintextOffset + local < layout.plaintextLength
    ensures PositionForPlaintextOffset(layout, SegmentAt(layout, position).plaintextOffset + local) == position
  {
    LayoutTiles(layout, position);
    QuotientUnique(SegmentAt(layout, position).plaintextOffset + local, layout.parameters.PlaintextSegmentLength(), position);
  }

  lemma RangesJoin(context: MessageContext, layout: MessageLayout, body: Bytes, from: nat, a: Bytes, b: Bytes)
    requires HEADER_LENGTH + |body| == layout.ciphertextLength
    requires IsRange(context, layout, body, from, a) && IsRange(context, layout, body, from + |a|, b)
    ensures IsRange(context, layout, body, from, a + b)
  {
    hide PlainByte;
    forall i: nat | i < |a + b|
      ensures PlainByte(context, layout, body, from + i) == Some((a + b)[i])
    {
      if i >= |a| {
        assert PlainByte(context, layout, body, from + |a| + (i - |a|)) == Some(b[i - |a|]);
      }
    }
  }

  /** Of a message that opens as a whole, every range is the slice of its one plaintext. */
  lemma RangeOfMessage(context: MessageContext, layout: MessageLayout, body: Bytes, plaintext: Bytes, from: nat, bytes: Bytes)
    requires context.parameters == layout.parameters && HEADER_LENGTH + |body| == layout.ciphertextLength
    requires context.parameters.CiphertextLayout(layout.ciphertextLength) == Ok(layout)
    requires Accepts(context, body, plaintext) && IsRange(context, layout, body, from, bytes)
    ensures |plaintext| == layout.plaintextLength
    ensures bytes == plaintext[from..from + |bytes|]
  {
    hide OpenAt, DecodeFrame, SegmentForPosition;
    DecodersAgree(context, body, plaintext);
    LayoutTiles(layout, 0);
    OpenedSlice(context, layout, body, 0, 0);
    forall i: nat | i < |bytes|
      ensures bytes[i] == plaintext[from + i]
    {
      var offset := from + i;
      OffsetLookup(layout, offset);
      var position := PositionForPlaintextOffset(layout, offset);
      OpenedSlice(context, layout, body, 0, position);
      var s := SegmentAt(layout, position);
      assert PlainByte(context, layout, body, from + i) == Some(bytes[i]);
      assert plaintext[s.plaintextOffset..s.plaintextOffset + s.plaintextLength][offset - s.plaintextOffset] == plaintext[offset];
    }
  }

  /** If the whole plaintext was read as one range and the final segment opens, the body is exactly
      one message with this plaintext. */
  lemma WholeRangeAccepts(context: MessageContext, layout: MessageLayout, body: Bytes, bytes: Bytes)
    requires context.parameters == layout.parameters && HEADER_LENGTH + |body| == layout.ciphertextLength
    requires context.parameters.CiphertextLayout(layout.ciphertextLength) == Ok(layout)
    requires OpenAt(context, layout, body, layout.segmentCount - 1).Ok?
    requires IsRange(context, layout, body, 0, bytes) && |bytes| == layout.plaintextLength
    ensures Accepts(context, body, bytes)
  {
    hide OpenAt, DecodeFrame, SegmentForPosition, Parameters.CiphertextLayout;
    forall position: nat | position < layout.segmentCount
      ensures OpenAt(context, layout, body, position).Ok?
    {
      LayoutTiles(layout, position);
      if position < layout.segmentCount - 1 {
        LookupInverse(layout, position, 0);
        var offset := SegmentAt(layout, position).plaintextOffset;
        assert PlainByte(context, layout, body, 0 + offset) == Some(bytes[offset]);
      }
    }
    var plaintext := OpenedFrom(context, layout, body, 0);
    DecodersAgree(context, body, plaintext);
    RangeOfMessage(context, layout, body, plaintext, 0, bytes);
    assert plaintext[0..|plaintext|] == plaintext;
  }

  /** What has been read as a range is readable: every segment that overlaps it opens. */
  lemma RangeIsReadable(context: MessageContext, layout: MessageLayout, body: Bytes, from: nat, bytes: Bytes)
    requires HEADER_LENGTH + |body| == layout.ciphertextLength
    requires IsRange(context, layout, body, from, bytes) && bytes != []
    ensures !Unreadable(context, layout, body, from, from + |bytes|)
  {
    hide OpenAt, SegmentForPosition;
    forall position: nat | position < layout.segmentCount
      ensures SegmentAt(layout, position).plaintextOffset < from + |bytes|
              && from < SegmentAt(layout, position).plaintextOffset + SegmentAt(layout, position).plaintextLength ==>
                OpenAt(context, layout, body, position).Ok?
    {
      LayoutTiles(layout, position);
      var s := SegmentAt(layout, position);
      var offset := if s.plaintextOffset <= from then from else s.plaintextOffset;
      if s.plaintextOffset < from + |bytes| && from < s.plaintextOffset + s.plaintextLength {
        LookupInverse(layout, position, offset - s.plaintextOffset);
        assert PlainByte(context, layout, body, from + (offset - from)) == Some(bytes[offset - from]);
      }
    }
  }

  // ---- Ranges ----

  /** How many bytes one read of `wanted` bytes delivers: it never crosses the end of a segment. */
  function ReadableAt(layout: MessageLayout, offset: u64, wanted: nat): (r: nat)
    ensures r > 0 ==> offset + r <= layout.plaintextLength
    ensures r == 0 <==> wanted == 0 || offset >= layout.plaintextLength
  {
    if offset >= layout.plaintextLength then 0
    else
      OffsetLookup(layout, offset);
      LayoutTiles(layout, PositionForPlaintextOffset(layout, offset));
      var s := SegmentAt(layout, PositionForPlaintextOffset(layout, offset));
      Min(wanted, s.plaintextOffset + s.plaintextLength - offset)
  }

  /** A read goes to the next multiple of the segment payload, or to the end of the plaintext. */
  lemma ReadableExactly(layout: MessageLayout, offset: u64, wanted: nat)
    requires offset < layout.plaintextLength
    ensures var p := layout.parameters.PlaintextSegmentLength();
            var next := (offset / p + 1) * p;
      && offset < next
      && ReadableAt(layout, offset, wanted) == Min(wanted, (if next < layout.plaintextLength then next else layout.plaintextLength) - offset)
  {
    hide Times;
    var p := layout.parameters.PlaintextSegmentLength();
    var position := PositionForPlaintextOffset(layout, offset);
    QuotientBounds(offset, p);
    TimesIsProduct(position + 1, p);
    SegmentEnd(layout, offset, position);
  }

  lemma SegmentEnd(layout: MessageLayout, offset: u64, position: nat)
    requires offset < layout.plaintextLength && position == PositionForPlaintextOffset(layout, offset)
    ensures position < layout.segmentCount
    ensures var s, p := SegmentAt(layout, position), layout.parameters.PlaintextSegmentLength();
      && Times(position + 1, p) == Times(position, p) + p
      && s.plaintextOffset + s.plaintextLength ==
         if Times(position + 1, p) < layout.plaintextLength then Times(position + 1, p) else layout.plaintextLength
  {
    OffsetLookup(layout, offset);
    LayoutTiles(layout, position);
  }

  datatype Bound = Included(at: u64) | Excluded(at: u64) | Unbounded

  /** Resolves any range form against the plaintext length. */
  function ResolveBounds(lower: Bound, upper: Bound, plaintextLength: u64): (r: IoResult<(u64, u64)>)
    ensures r.Ok? ==> r.value.0 <= r.value.1 <= plaintextLength
    ensures r.Ok? ==> forall offset: u64 | offset < plaintextLength ::
      (r.value.0 <= offset < r.value.1 <==> AboveLower(lower, offset) && BelowUpper(upper, offset))
    ensures lower.Unbounded? && upper.Unbounded? ==> r == Ok((0, plaintextLength))
    ensures r.Err? ==> r.error == InvalidInput || r.error == Floe(LengthOverflow)
  {
    var start :- match lower
      case Included(at) => Ok(at)
      case Excluded(at) => if at + 1 > U64_MAX then Err(Floe(LengthOverflow)) else Ok(at + 1)
      case Unbounded => Ok(0);
    var end :- match upper
      case Included(at) => if at + 1 > U64_MAX then Err(Floe(LengthOverflow)) else Ok(at + 1)
      case Excluded(at) => Ok(at)
      case Unbounded => Ok(plaintextLength);
    if start > end || end > plaintextLength then Err(InvalidInput) else Ok((start, end))
  }

  /** Exactly the half-open ranges within the plaintext are accepted. */
  lemma HalfOpenRange(a: u64, b: u64, length: u64)
    ensures ResolveBounds(Included(a), Excluded(b), length) == if a <= b <= length then Ok((a, b)) else Err(InvalidInput)
  {
  }

  /** Every other range form stands for a half-open one, unless its end is beyond `u64`. */
  lemma RangeForms(a: u64, lower: Bound, upper: Bound, length: u64)
    ensures ResolveBounds(lower, Included(a), length) ==
            if a < U64_MAX then ResolveBounds(lower, Excluded(a + 1), length) else Err(Floe(LengthOverflow))
    ensures ResolveBounds(Excluded(a), upper, length) ==
            if a < U64_MAX then ResolveBounds(Included(a + 1), upper, length) else Err(Floe(LengthOverflow))
    ensures ResolveBounds(Unbounded, upper, length) == ResolveBounds(Included(0), upper, length)
    ensures ResolveBounds(lower, Unbounded, length) == ResolveBounds(lower, Excluded(length), length)
  {
  }

  predicate AboveLower(bound: Bound, offset: u64) {
    match bound
    case Included(at) => at <= offset
    case Excluded(at) => at < offset
    case Unbounded => true
  }

  predicate BelowUpper(bound: Bound, offset: u64) {
    match bound
    case Included(at) => offset <= at
    case Excluded(at) => offset < at
    case Unbounded => true
  }
}
