/** What one segment is: its key, its associated data, its bytes, and how it is opened
    (the pure part of src/state.rs). */
module Segments {
  import opened ByteStrings
  import opened Failures
  import opened ParameterSets
  import opened CipherSuites

  // "HEADER_TAG:", "MESSAGE_KEY:" and "DEK:"
  const HEADER_TAG_PURPOSE: Bytes := [0x48, 0x45, 0x41, 0x44, 0x45, 0x52, 0x5F, 0x54, 0x41, 0x47, 0x3A]
  const MESSAGE_KEY_PURPOSE: Bytes := [0x4D, 0x45, 0x53, 0x53, 0x41, 0x47, 0x45, 0x5F, 0x4B, 0x45, 0x59, 0x3A]
  const SEGMENT_KEY_PURPOSE: Bytes := [0x44, 0x45, 0x4B, 0x3A]

  datatype MessageContext = MessageContext(
    suite: CipherSuite,
    parameters: Parameters,
    messageKey: Bytes,
    floeIv: Bytes,
    aad: Bytes)

  /** Clears the low 20 bits of a position. */
  function MaskedPosition(position: nat): nat {
    position / ROTATION_PERIOD * ROTATION_PERIOD
  }

  function DeriveSegmentKey(context: MessageContext, masked: nat): (r: Outcome<Bytes>)
    ensures r.Err? ==> r.error == CryptoFailure
  {
    var info := context.parameters.Encode() + context.floeIv + SEGMENT_KEY_PURPOSE + BigEndian(masked, 8) + context.aad;
    var material := context.suite.expand(context.messageKey, info, 32);
    if context.suite.accepts(material) then Ok(material) else Err(CryptoFailure)
  }

  /** The key of a position, derived afresh. */
  function SegmentKey(context: MessageContext, position: nat): (r: Outcome<Bytes>)
    ensures r.Err? ==> r.error != RngFailure
    ensures r.Ok? ==> position < MAX_SEGMENTS
  {
    if position >= MAX_SEGMENTS then Err(SegmentLimit)
    else DeriveSegmentKey(context, MaskedPosition(position))
  }

  /** A key has 32 bytes that the backend takes, and only the backend can refuse one. */
  lemma UsableKeys(context: MessageContext, position: nat)
    ensures SegmentKey(context, position) == Err(SegmentLimit) <==> position >= 0x100_0000_0000
    ensures SegmentKey(context, position).Ok? ==>
      |SegmentKey(context, position).value| == 32 && context.suite.accepts(SegmentKey(context, position).value)
    ensures position < 0x100_0000_0000 && SegmentKey(context, position).Err? ==>
      SegmentKey(context, position) == Err(CryptoFailure) && exists key :: |key| == 32 && !context.suite.accepts(key)
  {
  }

  function SegmentAad(position: nat, kind: SegmentKind): (r: Bytes)
    ensures |r| == 9
  {
    BigEndian(position, 8) + [kind.Indicator()]
  }

  /** Eight bytes of position, and then 1 exactly for a final segment. */
  lemma SegmentAadOnWire(position: u64, kind: SegmentKind)
    ensures var aad := SegmentAad(position, kind);
      |aad| == 9 && Value64(aad[..8]) == position && aad[8] == if kind.Final? then 1 else 0
  {
    hide BigEndian;
    assert SegmentAad(position, kind)[..8] == BigEndian(position, 8);
    Pow256Values();
    BigEndianRoundTrip(position, 8);
    EightBytes(BigEndian(position, 8));
  }

  /** Associated data binds a segment to its position and its finality. */
  lemma SegmentAadInjective(p: u64, k: SegmentKind, p': u64, k': SegmentKind)
    requires SegmentAad(p, k) == SegmentAad(p', k')
    ensures p == p' && k == k'
  {
    Pow256Values();
    assert SegmentAad(p, k)[..8] == BigEndian(p, 8);
    assert SegmentAad(p', k')[..8] == BigEndian(p', 8);
    BigEndianRoundTrip(p, 8);
    BigEndianRoundTrip(p', 8);
    assert SegmentAad(p, k)[8] == SegmentAad(p', k')[8];
  }

  function CiphertextSegmentSize(context: MessageContext, plaintextLength: nat, kind: SegmentKind): (r: Outcome<nat>)
    ensures r.Ok? <==> SegmentFits(context.parameters, kind, plaintextLength)
    ensures r.Ok? ==> r.value == OVERHEAD + plaintextLength <= context.parameters.ciphertextSegmentLength
  {
    var maximum := context.parameters.PlaintextSegmentLength();
    match kind
    case Final =>
      if plaintextLength <= maximum then Ok(OVERHEAD + plaintextLength)
      else Err(InvalidPlaintextLength(plaintextLength, AtMost(maximum)))
    case NonFinal =>
      if plaintextLength == maximum then Ok(context.parameters.ciphertextSegmentLength)
      else Err(InvalidPlaintextLength(plaintextLength, Exactly(maximum)))
  }

  /** A non-final segment is full; a final one holds at most as much. */
  predicate SegmentFits(parameters: Parameters, kind: SegmentKind, plaintextLength: nat) {
    if kind.NonFinal? then plaintextLength == parameters.PlaintextSegmentLength()
    else plaintextLength <= parameters.PlaintextSegmentLength()
  }

  function SegmentPrefix(kind: SegmentKind, required: nat): (r: Bytes)
    ensures |r| == PREFIX_LENGTH
  {
    BigEndian(if kind.NonFinal? then U32_MAX else required, PREFIX_LENGTH)
  }

  /** `prefix || nonce || ciphertext || tag`, with the key of the position. */
  function SealedSegment(context: MessageContext, position: nat, kind: SegmentKind, nonce: Nonce, plaintext: Bytes): (r: Bytes)
    ensures |r| == OVERHEAD + |plaintext|
  {
    var key := SegmentKey(context, position);
    SegmentPrefix(kind, OVERHEAD + |plaintext|) + nonce +
    context.suite.seal(if key.Ok? then key.value else [], nonce, SegmentAad(position, kind), plaintext)
  }

  /** Opens a segment whose framing is already known to fit its length. */
  function OpenSegment(context: MessageContext, position: nat, kind: SegmentKind, segment: Bytes): (r: Outcome<Bytes>)
    requires |segment| >= OVERHEAD
    ensures r.Ok? ==> |r.value| == |segment| - OVERHEAD
    ensures position >= MAX_SEGMENTS ==> r.Err?
  {
    var key :- SegmentKey(context, position);
    match context.suite.open(key, segment[PREFIX_LENGTH..PAYLOAD_OFFSET], SegmentAad(position, kind), segment[PAYLOAD_OFFSET..])
    case Some(plaintext) => Ok(plaintext)
    case None => Err(AuthenticationFailed)
  }

  /** The full validation of a segment against a kind the caller expects. */
  function ValidateSegment(parameters: Parameters, segment: Bytes, kind: SegmentKind): (r: Outcome<nat>)
    ensures r.Ok? ==> |segment| == OVERHEAD + r.value
  {
    var maximum := parameters.ciphertextSegmentLength;
    if kind.Final? && parameters.ValidateCiphertextSegmentLength(|segment|).Err? then
      Err(parameters.ValidateCiphertextSegmentLength(|segment|).error)
    else if kind.NonFinal? && |segment| != maximum then
      Err(InvalidCiphertextLength(|segment|, Exactly(maximum)))
    else
      var prefix := FromBigEndian(segment[..PREFIX_LENGTH]);
      if kind.Final? && prefix != |segment| then
        Err(InvalidCiphertextLength(|segment|, Exactly(prefix)))
      else if kind.NonFinal? && prefix != U32_MAX then
        Err(Error.InvalidSegmentPrefix)
      else
        Ok(|segment| - OVERHEAD)
  }

  /** The cheap check that replaces `ValidateSegment` once the prefix has been decoded. */
  function ValidateFramedLength(actual: nat, framing: SegmentFraming): Outcome<nat> {
    if actual != framing.ciphertextLength then
      Err(InvalidCiphertextLength(actual, Exactly(framing.ciphertextLength)))
    else
      Ok(framing.plaintextLength)
  }

  /** Validated opening, as random access does it. */
  function CheckedOpen(context: MessageContext, position: nat, kind: SegmentKind, segment: Bytes): (r: Outcome<Bytes>)
    ensures r.Ok? ==> |segment| == OVERHEAD + |r.value|
  {
    var _ :- ValidateSegment(context.parameters, segment, kind);
    OpenSegment(context, position, kind, segment)
  }

  /** Framed opening, as the online decryptor does it. */
  function FramedOpen(context: MessageContext, position: nat, framing: SegmentFraming, segment: Bytes): (r: Outcome<Bytes>)
    requires framing.ciphertextLength == OVERHEAD + framing.plaintextLength
    ensures r.Ok? ==> |segment| == OVERHEAD + |r.value| == framing.ciphertextLength
  {
    var _ :- ValidateFramedLength(|segment|, framing);
    OpenSegment(context, position, framing.kind, segment)
  }

  /** The fast validation accepts exactly what the slow one accepts for the decoded kind, with the
      same payload length; and no kind is acceptable when the prefix does not decode to it. */
  lemma FastValidationRefinesSlow(parameters: Parameters, segment: Bytes, kind: SegmentKind)
    requires |segment| >= PREFIX_LENGTH
    ensures var framing := SegmentFraming.Decode(parameters, segment[..PREFIX_LENGTH]);
            var slow := ValidateSegment(parameters, segment, kind);
      && (slow.Ok? <==> framing.Ok? && framing.value.kind == kind && ValidateFramedLength(|segment|, framing.value).Ok?)
      && (slow.Ok? ==> ValidateFramedLength(|segment|, framing.value) == slow)
  {
    FromBigEndianInverse(segment[..PREFIX_LENGTH]);
    Pow256Values();
  }

  /** What the framing writer prints, the framing decoder reads back. */
  lemma FramingPrintParse(context: MessageContext, position: nat, kind: SegmentKind, nonce: Nonce, plaintext: Bytes)
    requires SegmentFits(context.parameters, kind, |plaintext|)
    ensures SegmentFraming.Decode(context.parameters, SealedSegment(context, position, kind, nonce, plaintext)[..PREFIX_LENGTH])
         == Ok(SegmentFraming(OVERHEAD + |plaintext|, |plaintext|, kind))
  {
    var n := if kind.NonFinal? then U32_MAX else OVERHEAD + |plaintext|;
    Pow256Values();
    BigEndianRoundTrip(n, PREFIX_LENGTH);
    assert SealedSegment(context, position, kind, nonce, plaintext)[..PREFIX_LENGTH] == BigEndian(n, PREFIX_LENGTH);
  }

  /** Opening a sealed segment at its position and with its kind returns the plaintext. */
  lemma OpenSealed(context: MessageContext, position: nat, kind: SegmentKind, nonce: Nonce, plaintext: Bytes)
    requires SegmentKey(context, position).Ok?
    ensures OpenSegment(context, position, kind, SealedSegment(context, position, kind, nonce, plaintext)) == Ok(plaintext)
  {
    var segment := SealedSegment(context, position, kind, nonce, plaintext);
    assert segment[PREFIX_LENGTH..PAYLOAD_OFFSET] == nonce;
    assert segment[PAYLOAD_OFFSET..] == context.suite.seal(SegmentKey(context, position).value, nonce, SegmentAad(position, kind), plaintext);
  }

  /** A segment on the wire: 2^32 - 1 or its own length, the nonce, ciphertext and tag. */
  lemma SegmentOnWire(context: MessageContext, position: nat, kind: SegmentKind, nonce: Nonce, plaintext: Bytes)
    requires SegmentFits(context.parameters, kind, |plaintext|) && SegmentKey(context, position).Ok?
    ensures var segment := SealedSegment(context, position, kind, nonce, plaintext);
      && |segment| == 32 + |plaintext|
      && Value32(segment[..4]) == (if kind.NonFinal? then 0xFFFF_FFFF else |segment|)
      && segment[4..16] == nonce
      && segment[16..] == context.suite.seal(SegmentKey(context, position).value, nonce, SegmentAad(position, kind), plaintext)
  {
    hide SegmentKey, SegmentAad, BigEndian;
    var n := if kind.NonFinal? then 0xFFFF_FFFF else 32 + |plaintext|;
    assert SealedSegment(context, position, kind, nonce, plaintext)[..4] == BigEndian(n, 4);
    Pow256Values();
    BigEndianRoundTrip(n, 4);
    FourBytes(BigEndian(n, 4));
  }

  // ---- Headers ----

  function HeaderTag(suite: CipherSuite, key: Bytes, encoded: Bytes, floeIv: Bytes, aad: Bytes): (r: Bytes)
    ensures |r| == HEADER_TAG_LENGTH
  {
    suite.expand(key, encoded + floeIv + HEADER_TAG_PURPOSE + aad, HEADER_TAG_LENGTH)
  }

  function NewContext(suite: CipherSuite, key: Bytes, aad: Bytes, parameters: Parameters, floeIv: Bytes): (r: MessageContext)
    ensures r.parameters == parameters
    ensures |r.messageKey| == 48
  {
    var info := parameters.Encode() + floeIv + MESSAGE_KEY_PURPOSE + aad;
    MessageContext(suite, parameters, suite.expand(key, info, 48), floeIv, aad)
  }

  function Header(suite: CipherSuite, key: Bytes, aad: Bytes, parameters: Parameters, floeIv: Bytes): (r: Bytes)
    requires |floeIv| == FLOE_IV_LENGTH
    ensures |r| == HEADER_LENGTH
  {
    parameters.Encode() + floeIv + HeaderTag(suite, key, parameters.Encode(), floeIv, aad)
  }

  /** A header on the wire: two identifiers, the segment length, the length of the IV, the IV, and the
      tag. */
  lemma HeaderOnWire(suite: CipherSuite, key: Bytes, aad: Bytes, parameters: Parameters, floeIv: Bytes)
    requires |floeIv| == FLOE_IV_LENGTH
    ensures var header := Header(suite, key, aad, parameters, floeIv);
      && |header| == 74
      && header[..2] == [0, 0]
      && Value32(header[2..6]) == parameters.ciphertextSegmentLength
      && Value32(header[6..10]) == 32
      && header[10..42] == floeIv
      && header[42..] == HeaderTag(suite, key, header[..10], floeIv, aad)
  {
    hide HeaderTag, BigEndian;
    var header, encoded := Header(suite, key, aad, parameters, floeIv), parameters.Encode();
    assert header[..10] == encoded;
    assert header[..2] == encoded[..2] && header[2..6] == encoded[2..6] && header[6..10] == encoded[6..10];
    ParametersOnWire(parameters);
  }

  /** Checks a header against required parameters: the encoded parameters, then the tag. */
  function OpenHeader(suite: CipherSuite, key: Bytes, aad: Bytes, parameters: Parameters, header: Bytes): Outcome<MessageContext>
    requires |header| == HEADER_LENGTH
  {
    var encoded := parameters.Encode();
    if header[..ENCODED_PARAMETERS_LENGTH] != encoded then
      Err(InvalidHeaderParameters)
    else
      var floeIv := header[ENCODED_PARAMETERS_LENGTH..ENCODED_PARAMETERS_LENGTH + FLOE_IV_LENGTH];
      if HeaderTag(suite, key, encoded, floeIv, aad) != header[ENCODED_PARAMETERS_LENGTH + FLOE_IV_LENGTH..] then
        Err(InvalidHeaderTag)
      else
        Ok(NewContext(suite, key, aad, parameters, floeIv))
  }

  /** Checks a header against required parameters, or against those it declares itself. */
  function HeaderContext(suite: CipherSuite, key: Bytes, aad: Bytes, required: Option<Parameters>, header: Bytes): Outcome<MessageContext>
    requires |header| == HEADER_LENGTH
  {
    match required
    case Some(parameters) => OpenHeader(suite, key, aad, parameters, header)
    case None =>
      var parameters :- Parameters.Decode(header[..ENCODED_PARAMETERS_LENGTH]);
      OpenHeader(suite, key, aad, parameters, header)
  }

  /** The context of a decryption: the header is accepted and the first segment key derives. */
  function StartContext(suite: CipherSuite, key: Bytes, aad: Bytes, required: Option<Parameters>, header: Bytes): Outcome<MessageContext>
    requires |header| == HEADER_LENGTH
  {
    var context :- HeaderContext(suite, key, aad, required, header);
    var _ :- DeriveSegmentKey(context, 0);
    Ok(context)
  }

  /** The header of a ciphertext is accepted. */
  predicate HeaderOpens(suite: CipherSuite, key: Bytes, aad: Bytes, required: Option<Parameters>, ciphertext: Bytes) {
    |ciphertext| >= HEADER_LENGTH && StartContext(suite, key, aad, required, ciphertext[..HEADER_LENGTH]).Ok?
  }

  function OpenedContext(suite: CipherSuite, key: Bytes, aad: Bytes, required: Option<Parameters>, ciphertext: Bytes): MessageContext
    requires HeaderOpens(suite, key, aad, required, ciphertext)
  {
    StartContext(suite, key, aad, required, ciphertext[..HEADER_LENGTH]).value
  }

  /** A header is accepted exactly when it is the one an encryptor with the same key, AAD, IV and
      (if required) parameters writes, and the backend takes the first segment key; the context is
      then the encryptor's. */
  lemma HeaderAccepted(suite: CipherSuite, key: Bytes, aad: Bytes, required: Option<Parameters>, header: Bytes, context: MessageContext)
    requires |header| == HEADER_LENGTH
    ensures StartContext(suite, key, aad, required, header) == Ok(context) <==>
            && |context.floeIv| == FLOE_IV_LENGTH
            && context == NewContext(suite, key, aad, context.parameters, context.floeIv)
            && header == Header(suite, key, aad, context.parameters, context.floeIv)
            && (required.Some? ==> required.value == context.parameters)
            && DeriveSegmentKey(context, 0).Ok?
  {
    var encoded, iv, tag := header[..10], header[10..42], header[42..];
    assert header == encoded + iv + tag;
    ParametersDecodeExact(encoded);
    if required.Some? {
      ParametersRoundTrip(required.value);
    }
    if |context.floeIv| == FLOE_IV_LENGTH {
      var e, v, t := context.parameters.Encode(), context.floeIv, HeaderTag(suite, key, context.parameters.Encode(), context.floeIv, aad);
      assert (e + v + t)[..10] == e && (e + v + t)[10..42] == v && (e + v + t)[42..] == t;
    }
  }
}
