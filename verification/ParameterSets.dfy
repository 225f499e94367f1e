/** Parameter sets, message layouts and segment framing (src/parameters.rs). */
module ParameterSets {
  import opened ByteStrings
  import opened Failures
  import opened Arithmetic

  const AEAD_IV_LENGTH: nat := 12
  const AEAD_TAG_LENGTH: nat := 16
  const MAX_SEGMENTS: nat := 0x100_0000_0000
  const FLOE_IV_LENGTH: nat := 32
  const ENCODED_PARAMETERS_LENGTH: nat := 10
  const HEADER_TAG_LENGTH: nat := 32
  const HEADER_LENGTH: nat := ENCODED_PARAMETERS_LENGTH + FLOE_IV_LENGTH + HEADER_TAG_LENGTH
  const PREFIX_LENGTH: nat := 4
  const PAYLOAD_OFFSET: nat := PREFIX_LENGTH + AEAD_IV_LENGTH
  const OVERHEAD: nat := PAYLOAD_OFFSET + AEAD_TAG_LENGTH
  // 32 bytes of framing for each of 2^40 segments
  const FRAMING_LIMIT: nat := 0x2000_0000_0000
  const ROTATION_PERIOD: nat := 0x10_0000

  type SegmentLength = n: int | 64 <= n < U32_MAX witness 64

  datatype SegmentKind = NonFinal | Final {
    function Indicator(): Byte {
      if NonFinal? then 0 else 1
    }
  }

  datatype Parameters = Parameters(ciphertextSegmentLength: SegmentLength) {

    function PlaintextSegmentLength(): (r: nat)
      ensures r >= 32
    {
      ciphertextSegmentLength - OVERHEAD
    }

    static function WithSegmentLength(length: u32): (r: Outcome<Parameters>)
      ensures r.Ok? <==> 64 <= length < U32_MAX
      ensures r.Ok? ==> r.value.ciphertextSegmentLength == length
    {
      if !(64 <= length < U32_MAX) then Err(InvalidSegmentLength(length)) else Ok(Parameters(length))
    }

    /** `AEAD_ID || KDF_ID || ENC_SEG_LEN || FLOE_IV_LEN`. */
    function Encode(): (r: Bytes)
      ensures |r| == ENCODED_PARAMETERS_LENGTH
    {
      [0, 0] + BigEndian(ciphertextSegmentLength, 4) + BigEndian(FLOE_IV_LENGTH, 4)
    }

    static function Decode(encoded: Bytes): (r: Outcome<Parameters>)
      requires |encoded| == ENCODED_PARAMETERS_LENGTH
    {
      FromBigEndianInverse(encoded[2..6]);
      Pow256Values();
      var decoded := WithSegmentLength(FromBigEndian(encoded[2..6]));
      if decoded.Err? then Err(InvalidHeaderParameters)
      else if decoded.value.Encode() == encoded then decoded
      else Err(InvalidHeaderParameters)
    }

    /** Checks that `actual` can be the length of a ciphertext segment. */
    function ValidateCiphertextSegmentLength(actual: nat): Outcome<()> {
      if OVERHEAD <= actual <= ciphertextSegmentLength then Ok(())
      else Err(InvalidCiphertextLength(actual, Between(OVERHEAD, ciphertextSegmentLength)))
    }

    /** The layout of a message with `plaintextLength` bytes of plaintext. */
    function PlaintextLayout(plaintextLength: u64): (r: Outcome<RawLayout>)
      ensures r.Ok? ==>
                && r.value.Valid()
                && r.value.parameters == this
                && r.value.plaintextLength == plaintextLength
                && r.value.Canonical()
      ensures r == Err(SegmentLimit) <==> plaintextLength > Times(MAX_SEGMENTS, PlaintextSegmentLength())
      ensures r.Err? && r.error != SegmentLimit ==> r.error == LengthOverflow
      ensures r == Err(LengthOverflow) <==>
        && plaintextLength <= Times(MAX_SEGMENTS, PlaintextSegmentLength())
        && HEADER_LENGTH + plaintextLength + Times(CanonicalCount(plaintextLength, PlaintextSegmentLength()), OVERHEAD) > U64_MAX
      ensures r == Err(LengthOverflow) ==> plaintextLength + FRAMING_LIMIT + HEADER_LENGTH > U64_MAX
    {
      var segmentLength: u64 := PlaintextSegmentLength();
      CanonicalCountBounds(plaintextLength, segmentLength);
      var count: u64 := CanonicalCount(plaintextLength, segmentLength);
      CountLimit(plaintextLength, segmentLength, MAX_SEGMENTS);
      FramingLimit(count);
      if count > MAX_SEGMENTS then
        Err(SegmentLimit)
      else if Times(count, OVERHEAD) > U64_MAX then
        Err(LengthOverflow)
      else if HEADER_LENGTH + plaintextLength > U64_MAX || HEADER_LENGTH + plaintextLength + Times(count, OVERHEAD) > U64_MAX then
        Err(LengthOverflow)
      else
        Ok(RawLayout(this, plaintextLength, HEADER_LENGTH + plaintextLength + Times(count, OVERHEAD), count))
    }

    /** The layout of a complete ciphertext of `ciphertextLength` bytes, header included.
        The unchecked product and difference of the source stay within `u64`. */
    function CiphertextLayout(ciphertextLength: u64): (r: Outcome<RawLayout>)
      ensures r.Ok? ==> r.value.Valid() && r.value.parameters == this && r.value.ciphertextLength == ciphertextLength
      ensures r.Err? ==> r.error != LengthOverflow
      ensures ciphertextLength < 74 <==> r == Err(InvalidHeaderLength(ciphertextLength))
      ensures ciphertextLength == 74 <==> r == Err(Truncated)
    {
      if ciphertextLength < HEADER_LENGTH then
        Err(InvalidHeaderLength(ciphertextLength))
      else
        var bodyLength: u64 := ciphertextLength - HEADER_LENGTH;
        if bodyLength == 0 then
          Err(Truncated)
        else
          var segmentLength: u64 := ciphertextSegmentLength;
          DivCeilBounds(bodyLength, segmentLength);
          var count: u64 := DivCeil(bodyLength, segmentLength);
          if count > MAX_SEGMENTS then
            Err(SegmentLimit)
          else
            var precedingLength: u64 := Times(count - 1, segmentLength);
            var finalLength: u64 := bodyLength - precedingLength;
            FramingLimit(count);
            if finalLength < OVERHEAD then
              Err(InvalidCiphertextLength(finalLength, Between(OVERHEAD, ciphertextSegmentLength)))
            else if Times(count, OVERHEAD) > U64_MAX then
              Err(LengthOverflow)
            else
              FramingFits(count, segmentLength, bodyLength);
              if bodyLength < Times(count, OVERHEAD) then
                Err(LengthOverflow)
              else
                Ok(RawLayout(this, bodyLength - Times(count, OVERHEAD), ciphertextLength, count))
    }
  }

  /** A ciphertext with a body is refused exactly because it is too long for 2^40 segments, or because
      what is behind the full segments is too short for a segment. */
  lemma CiphertextRefusals(parameters: Parameters, length: u64)
    requires length > 74
    ensures var c, body, layout := parameters.ciphertextSegmentLength, length - 74, parameters.CiphertextLayout(length);
      && (layout == Err(SegmentLimit) <==> body > Times(MAX_SEGMENTS, c))
      && (layout.Err? && layout.error != SegmentLimit <==> body <= Times(MAX_SEGMENTS, c) && 0 < body % c < 32)
  {
    var c, body := parameters.ciphertextSegmentLength, length - 74;
    DivCeilBounds(body, c);
    CountLimit(body, c, MAX_SEGMENTS);
    QuotientBounds(body, c);
    FramingLimit(DivCeil(body, c));
    if DivCeil(body, c) <= MAX_SEGMENTS && (body % c == 0 || body % c >= 32) {
      FramingFits(DivCeil(body, c), c, body);
    }
  }

  lemma FramingLimit(count: nat)
    ensures count <= MAX_SEGMENTS ==> Times(count, OVERHEAD) <= FRAMING_LIMIT
  {
    TimesIsProduct(count, 32);
  }

  lemma FramingFits(count: nat, segmentLength: nat, bodyLength: nat)
    requires count >= 1 && segmentLength >= OVERHEAD
    requires Times(count - 1, segmentLength) + OVERHEAD <= bodyLength <= Times(count, segmentLength)
    ensures Times(count, OVERHEAD) <= bodyLength
    ensures var n := bodyLength - Times(count, OVERHEAD);
            var p := segmentLength - OVERHEAD;
            Times(count - 1, p) <= n <= Times(count, p)
  {
    TimesDistributes(count - 1, segmentLength - OVERHEAD, OVERHEAD);
    TimesDistributes(count, segmentLength - OVERHEAD, OVERHEAD);
  }

  datatype RawLayout = RawLayout(
    parameters: Parameters,
    plaintextLength: u64,
    ciphertextLength: u64,
    segmentCount: u64)
  {
    /** What both constructors establish: every segment before the last is full. */
    ghost predicate Valid() {
      var p := parameters.PlaintextSegmentLength();
      && 1 <= segmentCount <= MAX_SEGMENTS
      && Times(segmentCount - 1, p) <= plaintextLength <= Times(segmentCount, p)
      && ciphertextLength == HEADER_LENGTH + plaintextLength + Times(segmentCount, OVERHEAD)
    }

    /** Only a message of one segment has an empty final payload. */
    ghost predicate Canonical() {
      segmentCount > 1 ==> Times(segmentCount - 1, parameters.PlaintextSegmentLength()) < plaintextLength
    }
  }

  /** Layouts exist only as results of `PlaintextLayout` and `CiphertextLayout`, which are valid. */
  type MessageLayout = l: RawLayout | l.Valid()
    witness RawLayout(Parameters(64), 0, HEADER_LENGTH + OVERHEAD, 1)

  datatype SegmentLayout = SegmentLayout(
    parameters: Parameters,
    position: u64,
    plaintextOffset: u64,
    plaintextLength: nat,
    ciphertextOffset: u64,
    ciphertextLength: nat,
    kind: SegmentKind)

  /** Bounds behind the unchecked products of `SegmentForPosition`. */
  lemma OffsetBounds(layout: MessageLayout, position: nat)
    requires position < layout.segmentCount
    ensures var p, c := layout.parameters.PlaintextSegmentLength(), layout.parameters.ciphertextSegmentLength;
      && Times(position, p) <= layout.plaintextLength
      && (position + 1 < layout.segmentCount ==> Times(position, p) + p <= layout.plaintextLength)
      && Times(position, c) == Times(position, p) + Times(position, OVERHEAD)
      && HEADER_LENGTH + Times(position, c) + OVERHEAD <= layout.ciphertextLength
  {
    var p := layout.parameters.PlaintextSegmentLength();
    TimesMonotone(position, layout.segmentCount - 1, p);
    TimesMonotone(position, layout.segmentCount - 1, OVERHEAD);
    TimesDistributes(position, p, OVERHEAD);
  }

  function SegmentForPosition(layout: MessageLayout, position: u64): (r: Option<SegmentLayout>)
    ensures r.Some? <==> position < layout.segmentCount
  {
    if position >= layout.segmentCount then
      None
    else
      OffsetBounds(layout, position);
      var plaintextSegmentLength: u64 := layout.parameters.PlaintextSegmentLength();
      var ciphertextSegmentLength: u64 := layout.parameters.ciphertextSegmentLength;
      var plaintextOffset: u64 := Times(position, plaintextSegmentLength);
      var kind := if position + 1 == layout.segmentCount then Final else NonFinal;
      var plaintextLength: nat :=
        if kind.NonFinal? then plaintextSegmentLength else layout.plaintextLength - plaintextOffset;
      var ciphertextLength: nat :=
        if kind.NonFinal? then ciphertextSegmentLength else OVERHEAD + plaintextLength;
      var ciphertextOffset: u64 := HEADER_LENGTH + Times(position, ciphertextSegmentLength);
      Some(SegmentLayout(layout.parameters, position, plaintextOffset, plaintextLength,
                         ciphertextOffset, ciphertextLength, kind))
  }

  function FinalSegment(layout: MessageLayout): (r: SegmentLayout)
    ensures r.kind.Final?
    ensures r.ciphertextOffset + r.ciphertextLength == layout.ciphertextLength
  {
    OffsetBounds(layout, layout.segmentCount - 1);
    SegmentForPosition(layout, layout.segmentCount - 1).value
  }

  function SegmentAt(layout: MessageLayout, position: nat): (r: SegmentLayout)
    requires position < layout.segmentCount
  {
    SegmentForPosition(layout, position).value
  }

  function PositionForPlaintextOffset(layout: MessageLayout, offset: u64): nat {
    Quotient(offset, layout.parameters.PlaintextSegmentLength())
  }

  /** The segments of a layout tile the plaintext and the ciphertext body, and exactly the last
      one is final. */
  lemma LayoutTiles(layout: MessageLayout, position: nat)
    requires position < layout.segmentCount
    ensures var s := SegmentAt(layout, position);
      && s.parameters == layout.parameters && s.position == position
      && s.ciphertextLength == s.plaintextLength + OVERHEAD
      && s.plaintextOffset + s.plaintextLength <= layout.plaintextLength
      && HEADER_LENGTH <= s.ciphertextOffset && s.ciphertextOffset + s.ciphertextLength <= layout.ciphertextLength
      && (position == 0 ==> s.plaintextOffset == 0 && s.ciphertextOffset == HEADER_LENGTH)
      && (s.kind.Final? <==> position == layout.segmentCount - 1)
      && (s.kind.NonFinal? ==>
            && s.plaintextLength == layout.parameters.PlaintextSegmentLength()
            && s.plaintextOffset + s.plaintextLength == SegmentAt(layout, position + 1).plaintextOffset
            && s.ciphertextOffset + s.ciphertextLength == SegmentAt(layout, position + 1).ciphertextOffset)
      && (s.kind.Final? ==>
            && s.plaintextLength <= layout.parameters.PlaintextSegmentLength()
            && s.plaintextOffset + s.plaintextLength == layout.plaintextLength
            && s.ciphertextOffset + s.ciphertextLength == layout.ciphertextLength)
  {
    OffsetBounds(layout, position);
    if position + 1 < layout.segmentCount {
      OffsetBounds(layout, position + 1);
    }
  }

  /** The segment that `PositionForPlaintextOffset` names is the one that contains the offset. */
  lemma OffsetLookup(layout: MessageLayout, offset: u64)
    requires offset < layout.plaintextLength
    ensures var position := PositionForPlaintextOffset(layout, offset);
      && position < layout.segmentCount
      && var s := SegmentAt(layout, position);
         s.plaintextOffset <= offset < s.plaintextOffset + s.plaintextLength
  {
    var p := layout.parameters.PlaintextSegmentLength();
    var position := PositionForPlaintextOffset(layout, offset);
    QuotientBounds(offset, p);
    if position >= layout.segmentCount {
      TimesMonotone(layout.segmentCount, position, p);
    }
    OffsetBounds(layout, position);
  }

  /** Reading back the length of a plaintext layout gives the same layout. */
  lemma PlaintextThenCiphertextLayout(parameters: Parameters, length: u64)
    requires parameters.PlaintextLayout(length).Ok?
    ensures var layout := parameters.PlaintextLayout(length).value;
            parameters.CiphertextLayout(layout.ciphertextLength) == Ok(layout)
  {
    hide DivCeil, CanonicalCount, Times;
    var layout := parameters.PlaintextLayout(length).value;
    FullBody(layout.segmentCount, parameters.PlaintextSegmentLength(), length);
  }

  /** The body of a canonical layout has as many ciphertext segments as the layout plans. */
  lemma FullBody(count: nat, p: nat, length: nat)
    requires count >= 1 && p > 0
    requires Times(count - 1, p) <= length <= Times(count, p)
    requires count > 1 ==> Times(count - 1, p) < length
    ensures var body, c := length + Times(count, OVERHEAD), p + OVERHEAD;
      && DivCeil(body, c) == count
      && Times(count - 1, c) + OVERHEAD <= body <= Times(count, c)
  {
    TimesDistributes(count, p, OVERHEAD);
    TimesDistributes(count - 1, p, OVERHEAD);
    CanonicalCountUnique(length + Times(count, OVERHEAD), p + OVERHEAD, count);
  }

  /** Planning the plaintext length of an accepted ciphertext gives the same layout, except
      exactly when a message of several segments closes with an empty payload: the canonical
      plan then has one segment less. */
  lemma CiphertextThenPlaintextLayout(parameters: Parameters, length: u64)
    requires parameters.CiphertextLayout(length).Ok?
    ensures var layout := parameters.CiphertextLayout(length).value;
            var plan := parameters.PlaintextLayout(layout.plaintextLength);
            && plan.Ok?
            && (plan.value == layout <==> !(layout.segmentCount > 1 && FinalSegment(layout).plaintextLength == 0))
            && (plan.value != layout ==> plan.value.segmentCount == layout.segmentCount - 1)
  {
    var layout := parameters.CiphertextLayout(length).value;
    var n, p, count := layout.plaintextLength, parameters.PlaintextSegmentLength(), layout.segmentCount;
    TimesMonotone(count, MAX_SEGMENTS, p);
    CountLimit(n, p, MAX_SEGMENTS);
    RecountLastUnit(n, p, count);
  }

  /** An accepted ciphertext length in the exception: one full segment of 64 bytes and an empty final
      one, of which the plan for the same plaintext needs the first only, as its final segment. */
  lemma EmptyFinalExample()
    ensures var parameters, length := Parameters(64), HEADER_LENGTH + 64 + OVERHEAD;
            var layout := parameters.CiphertextLayout(length);
      && layout.Ok? && layout.value.segmentCount == 2 && layout.value.plaintextLength == 32
      && FinalSegment(layout.value).plaintextLength == 0
      && parameters.PlaintextLayout(32) == Ok(RawLayout(parameters, 32, HEADER_LENGTH + 64, 1))
  {
    assert Times(1, OVERHEAD) == 32 && Times(2, OVERHEAD) == 64 && Times(1, 64) == 64 && Times(1, 32) == 32;
  }

  lemma ParametersRoundTrip(parameters: Parameters)
    ensures Parameters.Decode(parameters.Encode()) == Ok(parameters)
  {
    Pow256Values();
    BigEndianRoundTrip(parameters.ciphertextSegmentLength, 4);
    assert parameters.Encode()[2..6] == BigEndian(parameters.ciphertextSegmentLength, 4);
  }

  lemma ParametersOnWire(parameters: Parameters)
    ensures var encoded := parameters.Encode();
      && encoded[..2] == [0, 0]
      && Value32(encoded[2..6]) == parameters.ciphertextSegmentLength && Value32(encoded[6..10]) == 32
  {
    hide BigEndian;
    var encoded := parameters.Encode();
    assert encoded[2..6] == BigEndian(parameters.ciphertextSegmentLength, 4) && encoded[6..10] == BigEndian(32, 4);
    Pow256Values();
    BigEndianRoundTrip(parameters.ciphertextSegmentLength, 4);
    BigEndianRoundTrip(32, 4);
    FourBytes(encoded[2..6]);
    FourBytes(encoded[6..10]);
  }

  /** The decoder accepts nothing but encodings. */
  lemma ParametersDecodeExact(encoded: Bytes)
    requires |encoded| == ENCODED_PARAMETERS_LENGTH
    ensures forall p :: Parameters.Decode(encoded) == Ok(p) <==> p.Encode() == encoded
  {
    forall p: Parameters | p.Encode() == encoded
      ensures Parameters.Decode(encoded) == Ok(p)
    {
      ParametersRoundTrip(p);
    }
  }

  /** Unauthenticated framing information carried by a segment's first four bytes. */
  datatype SegmentFraming = SegmentFraming(ciphertextLength: nat, plaintextLength: nat, kind: SegmentKind) {

    static function Decode(parameters: Parameters, prefix: Bytes): (r: Outcome<SegmentFraming>)
      requires |prefix| == PREFIX_LENGTH
      ensures r.Ok? ==>
                && r.value.ciphertextLength == OVERHEAD + r.value.plaintextLength
                && r.value.plaintextLength <= parameters.PlaintextSegmentLength()
                && (r.value.kind.NonFinal? ==> r.value.plaintextLength == parameters.PlaintextSegmentLength())
    {
      var encoded := FromBigEndian(prefix);
      if encoded == U32_MAX then
        Ok(SegmentFraming(parameters.ciphertextSegmentLength, parameters.ciphertextSegmentLength - OVERHEAD, NonFinal))
      else if OVERHEAD <= encoded <= parameters.ciphertextSegmentLength then
        Ok(SegmentFraming(encoded, encoded - OVERHEAD, Final))
      else
        Err(InvalidCiphertextLength(encoded, Between(OVERHEAD, parameters.ciphertextSegmentLength)))
    }
  }
}
