/** Segment keys, and the segment operations of the random-access states (src/state.rs). */
module States {
  import opened ByteStrings
  import opened Failures
  import opened Arithmetic
  import opened ParameterSets
  import opened CipherSuites
  import opened Segments
  import opened Buffers
  import opened Randomness

  // ---- Key cache ----

  datatype CachedKey = CachedKey(maskedPosition: nat, key: Bytes)

  /** Key derivations that a cache holding the key of `held` performs for a run of positions. */
  function Derivations(held: Option<nat>, positions: seq<nat>): nat
    decreases |positions|
  {
    if positions == [] then 0
    else
      var masked := MaskedPosition(positions[0]);
      (if held == Some(masked) then 0 else 1) + Derivations(Some(masked), positions[1..])
  }

  /** The masked position a cache holds after a run that did not fail. */
  function HeldAfter(held: Option<nat>, positions: seq<nat>): Option<nat> {
    if positions == [] then held else Some(MaskedPosition(positions[|positions| - 1]))
  }

  /** One more position costs a derivation exactly when it changes the key. */
  lemma {:induction false} DerivationsGrow(held: Option<nat>, positions: seq<nat>, next: nat)
    ensures Derivations(held, positions + [next]) == Derivations(held, positions) + Derivations(HeldAfter(held, positions), [next])
    decreases |positions|
  {
    if positions == [] {
      assert [] + [next] == [next];
    } else {
      DerivationsGrow(Some(MaskedPosition(positions[0])), positions[1..], next);
      assert (positions + [next])[1..] == positions[1..] + [next];
    }
  }

  /** A run over positions 0, 1, ..., n - 1 in order, on a cache that starts with the key of
      position 0, derives one key for every 2^20 positions or part of them, and at least one. */
  lemma InOrderDerivations(n: nat)
    ensures 1 + Derivations(Some(0), seq(n, i => i)) == CanonicalCount(n, ROTATION_PERIOD)
  {
    var run := seq(n, i => i);
    if n > 0 {
      InOrderTail(1, n);
      assert run[1..] == seq(n - 1, i => 1 + i);
      assert MaskedPosition(0) == 0;
      assert (n - 1) / ROTATION_PERIOD + 1 == CanonicalCount(n, ROTATION_PERIOD);
    }
  }

  lemma {:induction false} InOrderTail(from: nat, n: nat)
    requires 1 <= from <= n
    ensures Derivations(Some(MaskedPosition(from - 1)), seq(n - from, i => from + i))
         == (n - 1) / ROTATION_PERIOD - (from - 1) / ROTATION_PERIOD
    decreases n - from
  {
    if from < n {
      InOrderTail(from + 1, n);
      var run := seq(n - from, i => from + i);
      assert run[1..] == seq(n - from - 1, i => from + 1 + i);
    }
  }

  class KeyCache {
    var cached: Option<CachedKey>
    ghost var derived: nat

    /** A cached key is the one its position derives. */
    ghost predicate Valid(context: MessageContext)
      reads this
    {
      cached.Some? ==> DeriveSegmentKey(context, cached.value.maskedPosition) == Ok(cached.value.key)
    }

    ghost function Held(): Option<nat>
      reads this
    {
      if cached.Some? then Some(cached.value.maskedPosition) else None
    }

    constructor Empty()
      ensures cached == None && derived == 0
    {
      cached, derived := None, 0;
    }

    /** Fills a new cache with the key of position 0. */
    static method New(context: MessageContext) returns (r: Outcome<KeyCache>)
      ensures r.Ok? <==> DeriveSegmentKey(context, 0).Ok?
      ensures r.Err? ==> DeriveSegmentKey(context, 0) == Err(r.error)
      ensures r.Ok? ==> fresh(r.value) && r.value.Valid(context) && r.value.Held() == Some(0) && r.value.derived == 1
    {
      var key :- DeriveSegmentKey(context, 0);
      var keys := new KeyCache.Empty();
      keys.cached, keys.derived := Some(CachedKey(0, key)), 1;
      return Ok(keys);
    }

    /** The cache is transparent: whatever it holds, the answer is a fresh derivation's. */
    method KeyForPosition(context: MessageContext, position: nat) returns (r: Outcome<Bytes>)
      requires Valid(context)
      modifies this
      ensures Valid(context)
      ensures r == SegmentKey(context, position)
      ensures r.Ok? ==> Held() == Some(MaskedPosition(position))
      ensures r.Ok? ==> derived == old(derived) + Derivations(old(Held()), [position])
      ensures r.Err? ==> cached == old(cached) && derived == old(derived)
    {
      if position >= MAX_SEGMENTS {
        return Err(SegmentLimit);
      }
      var masked := MaskedPosition(position);
      if cached.None? || cached.value.maskedPosition != masked {
        var key :- DeriveSegmentKey(context, masked);
        cached := Some(CachedKey(masked, key));
        derived := derived + 1;
      }
      return Ok(cached.value.key);
    }
  }

  // ---- Encryption ----

  class EncryptionState {
    const context: MessageContext
    const keys: KeyCache
    const nonces: NonceGenerator

    ghost function Repr(): set<object> {
      {keys, nonces, nonces.rng, nonces.bytes}
    }

    ghost predicate Valid()
      reads Repr()
    {
      keys.Valid(context) && nonces.Valid()
    }

    constructor (context: MessageContext, keys: KeyCache, nonces: NonceGenerator)
      requires keys.Valid(context) && nonces.Valid()
      ensures Valid()
      ensures this.context == context && this.keys == keys && this.nonces == nonces
    {
      this.context, this.keys, this.nonces := context, keys, nonces;
    }

    /** A state for another worker: the same message, an empty key cache, its own generator. */
    static method Fork(context: MessageContext, rng: Rng) returns (state: EncryptionState)
      ensures fresh(state) && fresh(state.Repr() - {rng})
      ensures state.Valid() && state.context == context && state.keys.Held() == None
      ensures state.nonces.rng == rng && state.nonces.base == rng.drawn && state.nonces.issued == 0
    {
      var keys := new KeyCache.Empty();
      var nonces := new NonceGenerator(rng);
      state := new EncryptionState(context, keys, nonces);
    }

    /** Encrypts a segment into `output[lo..hi]`, which may be larger than needed. What is written
        depends on the context, position, kind, plaintext and nonce alone, never on the cache. */
    method EncryptSegmentIntoAt(plaintext: Bytes, position: nat, kind: SegmentKind, output: array<Byte>, lo: nat, hi: nat)
      returns (r: Outcome<nat>)
      requires Valid()
      requires lo <= hi <= output.Length && output !in Repr()
      modifies Repr(), output
      ensures Valid()
      ensures r.Ok? ==>
        && SegmentFits(context.parameters, kind, |plaintext|)
        && SegmentKey(context, position).Ok?
        && r.value == OVERHEAD + |plaintext| <= hi - lo
        && nonces.issued == old(nonces.issued) + 1
        && output[..] == Splice(old(output[..]), lo, SealedSegment(context, position, kind, nonces.Nonces()(old(nonces.issued)), plaintext))
      ensures r.Err? ==>
        && output[..lo] == old(output[..lo]) && output[hi..] == old(output[hi..])
        && EncryptionFailure(context, kind, |plaintext|, position, hi - lo, r.error)
      ensures old(nonces.rng.Reliable()) ==> nonces.rng.Reliable() && r != Err(RngFailure)
    {
      hide SealedSegment, SegmentKey, SegmentPrefix, SegmentAad, NonceGenerator.Nonces, NonceGenerator.Valid, KeyCache.Valid;
      var required :- CiphertextSegmentSize(context, |plaintext|, kind);
      if hi - lo < required {
        return Err(OutputTooSmall(hi - lo, required));
      }
      ghost var before := output[..];
      var nonce :- WriteSegmentFraming(output, lo, kind, required);
      var key :- keys.KeyForPosition(context, position);
      var sealed := context.suite.seal(key, nonce, SegmentAad(position, kind), plaintext);
      forall i | 0 <= i < |sealed| {
        output[lo + PAYLOAD_OFFSET + i] := sealed[i];
      }
      SealedFromParts(context, position, kind, nonce, plaintext, key);
      assert output[..] == Splice(before, lo, SegmentPrefix(kind, required) + nonce + sealed);
      return Ok(required);
    }

    /** Encrypts a segment of a layout into `output[lo..hi]`. */
    method EncryptSegmentInto(plaintext: Bytes, layout: SegmentLayout, output: array<Byte>, lo: nat, hi: nat)
      returns (r: Outcome<nat>)
      requires Valid()
      requires lo <= hi <= output.Length && output !in Repr()
      modifies Repr(), output
      ensures Valid()
      ensures r.Ok? ==>
        && layout.parameters == context.parameters && |plaintext| == layout.plaintextLength
        && SegmentKey(context, layout.position).Ok?
        && r.value == OVERHEAD + |plaintext| <= hi - lo
        && nonces.issued == old(nonces.issued) + 1
        && output[..] == Splice(old(output[..]), lo,
             SealedSegment(context, layout.position, layout.kind, nonces.Nonces()(old(nonces.issued)), plaintext))
      ensures r.Err? ==> output[..lo] == old(output[..lo]) && output[hi..] == old(output[hi..])
      ensures r.Err? && layout.parameters == context.parameters && |plaintext| == layout.plaintextLength ==>
        EncryptionFailure(context, layout.kind, |plaintext|, layout.position, hi - lo, r.error)
      ensures old(nonces.rng.Reliable()) ==> nonces.rng.Reliable() && r != Err(RngFailure)
    {
      hide SealedSegment, SegmentKey, NonceGenerator.Nonces, NonceGenerator.Valid, KeyCache.Valid;
      if layout.parameters != context.parameters {
        return Err(InvalidParameters);
      }
      if |plaintext| != layout.plaintextLength {
        return Err(InvalidPlaintextLength(|plaintext|, Exactly(layout.plaintextLength)));
      }
      r := EncryptSegmentIntoAt(plaintext, layout.position, layout.kind, output, lo, hi);
    }

    /** Writes the length prefix and a fresh nonce; leaves the payload region alone. */
    method WriteSegmentFraming(output: array<Byte>, lo: nat, kind: SegmentKind, required: nat) returns (r: Outcome<Nonce>)
      requires Valid()
      requires lo + PAYLOAD_OFFSET <= output.Length && output !in Repr()
      requires required <= U32_MAX
      modifies nonces, nonces.rng, nonces.bytes, output
      ensures Valid()
      ensures output[..lo] == old(output[..lo])
      ensures output[lo + PAYLOAD_OFFSET..] == old(output[lo + PAYLOAD_OFFSET..])
      ensures r.Ok? ==>
        && r.value == nonces.Nonces()(old(nonces.issued)) && nonces.issued == old(nonces.issued) + 1
        && output[lo..lo + PAYLOAD_OFFSET] == SegmentPrefix(kind, required) + r.value
      ensures r.Err? ==> r.error == RngFailure && nonces.issued == old(nonces.issued)
      ensures old(nonces.rng.Reliable()) ==> nonces.rng.Reliable() && r != Err(RngFailure)
    {
      var prefix := SegmentPrefix(kind, required);
      forall i | 0 <= i < PREFIX_LENGTH {
        output[lo + i] := prefix[i];
      }
      var nonce :- nonces.Next();
      forall i | 0 <= i < AEAD_IV_LENGTH {
        output[lo + PREFIX_LENGTH + i] := nonce[i];
      }
      return Ok(nonce);
    }

    /** Encrypts the payload prepared in `buffer`. Once the buffer is known to hold a payload of this
        message's parameters, every failure wipes it. */
    method EncryptSegmentInPlaceAt(buffer: SegmentBuffer, position: nat, kind: SegmentKind) returns (r: Outcome<nat>)
      requires Valid() && buffer.Valid()
      requires buffer.bytes !in Repr()
      modifies Repr(), buffer, buffer.bytes
      ensures Valid() && buffer.Valid()
      ensures r.Ok? ==>
        && old(buffer.state).Plaintext?
        && SegmentFits(context.parameters, kind, old(buffer.state).length)
        && SegmentKey(context, position).Ok?
        && nonces.issued == old(nonces.issued) + 1
        && buffer.Ciphertext() == Ok(SealedSegment(context, position, kind, nonces.Nonces()(old(nonces.issued)), old(buffer.Plaintext().value)))
        && r.value == buffer.state.length
      ensures r.Err? && buffer.Matches(context.parameters) && old(buffer.state).Plaintext? ==>
        && buffer.Wiped()
        && EncryptionFailure(context, kind, old(buffer.state).length, position, buffer.bytes.Length, r.error)
      ensures !buffer.Matches(context.parameters) ==> r == Err(InvalidParameters)
      ensures buffer.Matches(context.parameters) && !old(buffer.state).Plaintext? ==> r == Err(InvalidBufferState)
      ensures !buffer.Matches(context.parameters) || !old(buffer.state).Plaintext? ==>
        buffer.state == old(buffer.state) && buffer.bytes[..] == old(buffer.bytes[..])
      ensures old(nonces.rng.Reliable()) ==> nonces.rng.Reliable() && r != Err(RngFailure)
    {
      hide SealedSegment, SegmentKey, CiphertextSegmentSize, NonceGenerator.Nonces, NonceGenerator.Valid, KeyCache.Valid;
      if !buffer.Matches(context.parameters) {
        return Err(InvalidParameters);
      }
      var plaintextLength :- buffer.PlaintextLength();
      var written := EncryptSegmentInPlaceRawAt(buffer.bytes, plaintextLength, position, kind);
      match written
      case Ok(length) =>
        buffer.MarkCiphertext(length);
        return Ok(length);
      case Err(error) =>
        buffer.Clear();
        return Err(error);
    }

    /** Encrypts the payload at `PAYLOAD_OFFSET` in caller-managed storage. */
    method EncryptSegmentInPlaceRawAt(buffer: array<Byte>, plaintextLength: nat, position: nat, kind: SegmentKind)
      returns (r: Outcome<nat>)
      requires Valid() && buffer !in Repr()
      modifies Repr(), buffer
      ensures Valid()
      ensures r.Ok? ==>
        && SegmentFits(context.parameters, kind, plaintextLength)
        && SegmentKey(context, position).Ok?
        && r.value == OVERHEAD + plaintextLength <= buffer.Length
        && nonces.issued == old(nonces.issued) + 1
        && buffer[..r.value] == SealedSegment(context, position, kind, nonces.Nonces()(old(nonces.issued)),
                                              old(buffer[PAYLOAD_OFFSET..PAYLOAD_OFFSET + plaintextLength]))
        && buffer[r.value..] == old(buffer[r.value..])
      ensures r.Err? ==> EncryptionFailure(context, kind, plaintextLength, position, buffer.Length, r.error)
      ensures old(nonces.rng.Reliable()) ==> nonces.rng.Reliable() && r != Err(RngFailure)
    {
      hide SealedSegment, SegmentKey, SegmentPrefix, SegmentAad, NonceGenerator.Nonces, NonceGenerator.Valid, KeyCache.Valid;
      var required :- CiphertextSegmentSize(context, plaintextLength, kind);
      if buffer.Length < required {
        return Err(OutputTooSmall(buffer.Length, required));
      }
      ghost var before := buffer[..];
      var nonce :- WriteSegmentFraming(buffer, 0, kind, required);
      var key :- keys.KeyForPosition(context, position);
      var tagStart := PAYLOAD_OFFSET + plaintextLength;
      var plaintext := buffer[PAYLOAD_OFFSET..tagStart];
      TailKept(before, buffer[..], PAYLOAD_OFFSET, plaintextLength);
      TailKept(before, buffer[..], PAYLOAD_OFFSET, required - PAYLOAD_OFFSET);
      assert plaintext == before[PAYLOAD_OFFSET..tagStart] && buffer[required..] == before[required..];
      var sealed := context.suite.seal(key, nonce, SegmentAad(position, kind), plaintext);
      forall i | 0 <= i < |sealed| {
        buffer[PAYLOAD_OFFSET + i] := sealed[i];
      }
      SealedFromParts(context, position, kind, nonce, plaintext, key);
      assert buffer[..required] == SegmentPrefix(kind, required) + nonce + sealed;
      return Ok(required);
    }
  }

  /** Why an encryption may fail. */
  ghost predicate EncryptionFailure(context: MessageContext, kind: SegmentKind, plaintextLength: nat, position: nat, room: nat, error: Error) {
    var size := CiphertextSegmentSize(context, plaintextLength, kind);
    if size.Err? then error == size.error
    else if room < size.value then error == OutputTooSmall(room, size.value)
    else error == RngFailure || SegmentKey(context, position) == Err(error)
  }

  /** With a fitting payload and enough room, only the random generator or the key can fail. */
  lemma FailureCause(context: MessageContext, kind: SegmentKind, plaintextLength: nat, position: nat, room: nat, error: Error)
    requires EncryptionFailure(context, kind, plaintextLength, position, room, error)
    requires SegmentFits(context.parameters, kind, plaintextLength) && room >= OVERHEAD + plaintextLength
    ensures error == RngFailure || SegmentKey(context, position) == Err(error)
  {
    hide SegmentKey;
  }

  lemma SealedFromParts(context: MessageContext, position: nat, kind: SegmentKind, nonce: Nonce, plaintext: Bytes, key: Bytes)
    requires SegmentKey(context, position) == Ok(key)
    ensures SealedSegment(context, position, kind, nonce, plaintext) ==
            SegmentPrefix(kind, OVERHEAD + |plaintext|) + nonce + context.suite.seal(key, nonce, SegmentAad(position, kind), plaintext)
  {
  }

  // ---- Decryption ----

  /** What a decryption into `room` bytes returns when opening the segment gives `unsealed`. */
  function IntoRoom(unsealed: Outcome<Bytes>): Outcome<nat> {
    match unsealed
    case Ok(plaintext) => Ok(|plaintext|)
    case Err(error) => Err(error)
  }

  class DecryptionState {
    const context: MessageContext
    const keys: KeyCache

    ghost predicate Valid()
      reads keys
    {
      keys.Valid(context)
    }

    constructor (context: MessageContext, keys: KeyCache)
      requires keys.Valid(context)
      ensures Valid() && this.context == context && this.keys == keys
    {
      this.context, this.keys := context, keys;
    }

    /** Starts decryption from a header, with the parameters it declares or with required ones. */
    static method Start(suite: CipherSuite, key: Bytes, aad: Bytes, required: Option<Parameters>, header: Bytes)
      returns (r: Outcome<DecryptionState>)
      requires |header| == HEADER_LENGTH
      ensures r.Ok? <==> StartContext(suite, key, aad, required, header).Ok?
      ensures r.Err? ==> r.error == StartContext(suite, key, aad, required, header).error
      ensures r.Ok? ==> fresh(r.value) && fresh(r.value.keys) && r.value.Valid() && Ok(r.value.context) == StartContext(suite, key, aad, required, header)
    {
      var context :- HeaderContext(suite, key, aad, required, header);
      var keys :- KeyCache.New(context);
      var state := new DecryptionState(context, keys);
      return Ok(state);
    }

    method OpenSegmentFrom(segment: Bytes, position: nat, kind: SegmentKind) returns (r: Outcome<Bytes>)
      requires Valid() && |segment| >= OVERHEAD
      modifies keys
      ensures Valid()
      ensures r == OpenSegment(context, position, kind, segment)
      ensures SegmentKey(context, position).Ok? ==>
        var answer := context.suite.open(SegmentKey(context, position).value, segment[4..16], SegmentAad(position, kind), segment[16..]);
        r == if answer.Some? then Ok(answer.value) else Err(AuthenticationFailed)
      ensures SegmentKey(context, position).Err? ==> r.Err?
    {
      var key :- keys.KeyForPosition(context, position);
      var tagStart := |segment| - AEAD_TAG_LENGTH;
      var nonce := segment[PREFIX_LENGTH..PAYLOAD_OFFSET];
      var ciphertext, tag := segment[PAYLOAD_OFFSET..tagStart], segment[tagStart..];
      assert ciphertext + tag == segment[PAYLOAD_OFFSET..];
      match context.suite.open(key, nonce, SegmentAad(position, kind), ciphertext + tag)
      case Some(plaintext) => return Ok(plaintext);
      case None => return Err(AuthenticationFailed);
    }

    /** Decrypts into new storage a segment whose prefix has been decoded. */
    method DecryptSegmentAtFramed(segment: Bytes, position: nat, framing: SegmentFraming) returns (r: Outcome<Bytes>)
      requires Valid() && framing.ciphertextLength == OVERHEAD + framing.plaintextLength
      modifies keys
      ensures Valid()
      ensures r == FramedOpen(context, position, framing, segment)
    {
      hide OpenSegment;
      var plaintextLength :- ValidateFramedLength(|segment|, framing);
      var output := new Byte[plaintextLength](_ => 0);
      var written :- DecryptSegmentIntoInner(segment, position, framing.kind, plaintextLength, output, 0, plaintextLength);
      assert output[..] == OpenSegment(context, position, framing.kind, segment).value;
      return Ok(output[..]);
    }

    /** Decrypts into `output[lo..hi]` a segment whose prefix has been decoded. */
    method DecryptSegmentIntoAtFramed(segment: Bytes, position: nat, framing: SegmentFraming, output: array<Byte>, lo: nat, hi: nat)
      returns (r: Outcome<nat>)
      requires Valid() && framing.ciphertextLength == OVERHEAD + framing.plaintextLength
      requires lo <= hi <= output.Length
      modifies keys, output
      ensures Valid()
      ensures hi - lo >= framing.plaintextLength ==> r == IntoRoom(FramedOpen(context, position, framing, segment))
      ensures hi - lo < framing.plaintextLength ==> r.Err?
      ensures r.Ok? ==> output[..] == Splice(old(output[..]), lo, FramedOpen(context, position, framing, segment).value)
      ensures r.Err? ==> output[..lo] == old(output[..lo]) && output[hi..] == old(output[hi..])
    {
      hide OpenSegment;
      var plaintextLength :- ValidateFramedLength(|segment|, framing);
      r := DecryptSegmentIntoInner(segment, position, framing.kind, plaintextLength, output, lo, hi);
    }

    method DecryptSegmentIntoInner(
      segment: Bytes, position: nat, kind: SegmentKind, plaintextLength: nat, output: array<Byte>, lo: nat, hi: nat)
      returns (r: Outcome<nat>)
      requires Valid() && |segment| == OVERHEAD + plaintextLength
      requires lo <= hi <= output.Length
      modifies keys, output
      ensures Valid()
      ensures r == if hi - lo < plaintextLength then Err(OutputTooSmall(hi - lo, plaintextLength))
                   else IntoRoom(OpenSegment(context, position, kind, segment))
      ensures r.Ok? ==> output[..] == Splice(old(output[..]), lo, OpenSegment(context, position, kind, segment).value)
      ensures r.Err? ==> output[..lo] == old(output[..lo]) && output[hi..] == old(output[hi..])
    {
      hide OpenSegment;
      if hi - lo < plaintextLength {
        return Err(OutputTooSmall(hi - lo, plaintextLength));
      }
      var plaintext :- OpenSegmentFrom(segment, position, kind);
      ghost var before := output[..];
      forall i | 0 <= i < plaintextLength {
        output[lo + i] := plaintext[i];
      }
      assert output[..] == Splice(before, lo, plaintext);
      return Ok(plaintextLength);
    }

    /** Decrypts into `output[lo..hi]` a segment of a layout. */
    method DecryptSegmentInto(segment: Bytes, layout: SegmentLayout, output: array<Byte>, lo: nat, hi: nat)
      returns (r: Outcome<nat>)
      requires Valid()
      requires lo <= hi <= output.Length
      modifies keys, output
      ensures Valid()
      ensures layout.parameters == context.parameters && |segment| == layout.ciphertextLength == OVERHEAD + layout.plaintextLength
              && hi - lo >= layout.plaintextLength ==>
                r == IntoRoom(CheckedOpen(context, layout.position, layout.kind, segment))
      ensures layout.parameters != context.parameters || |segment| != layout.ciphertextLength ==> r.Err?
      ensures r.Ok? ==>
        && CheckedOpen(context, layout.position, layout.kind, segment).Ok?
        && lo + |CheckedOpen(context, layout.position, layout.kind, segment).value| <= hi
        && output[..] == Splice(old(output[..]), lo, CheckedOpen(context, layout.position, layout.kind, segment).value)
      ensures r.Err? ==> output[..lo] == old(output[..lo]) && output[hi..] == old(output[hi..])
    {
      hide OpenSegment;
      var _ :- ValidateCiphertextLayout(|segment|, layout);
      var plaintextLength :- ValidateSegment(context.parameters, segment, layout.kind);
      r := DecryptSegmentIntoInner(segment, layout.position, layout.kind, plaintextLength, output, lo, hi);
    }

    function ValidateCiphertextLayout(actual: nat, layout: SegmentLayout): Outcome<()> {
      if layout.parameters != context.parameters then Err(InvalidParameters)
      else if actual != layout.ciphertextLength then Err(InvalidCiphertextLength(actual, Exactly(layout.ciphertextLength)))
      else Ok(())
    }

    /** Decrypts in its buffer a segment of a layout; every failure wipes the buffer. */
    method DecryptSegmentInPlace(buffer: SegmentBuffer, layout: SegmentLayout) returns (r: Outcome<nat>)
      requires Valid() && buffer.Valid()
      modifies keys, buffer, buffer.bytes
      ensures Valid() && buffer.Valid()
      ensures old(buffer.state).Ciphertext? && buffer.Matches(context.parameters)
              && layout.parameters == context.parameters && old(buffer.state).length == layout.ciphertextLength ==>
                r == IntoRoom(CheckedOpen(context, layout.position, layout.kind, old(buffer.Ciphertext().value)))
      ensures r.Ok? ==>
        && old(buffer.state).Ciphertext?
        && buffer.Plaintext() == CheckedOpen(context, layout.position, layout.kind, old(buffer.Ciphertext().value))
      ensures r.Err? ==> buffer.Wiped()
    {
      hide CheckedOpen;
      r := CheckedOpenInBuffer(buffer, layout);
      buffer.CompleteDecryption(r);
    }

    method CheckedOpenInBuffer(buffer: SegmentBuffer, layout: SegmentLayout) returns (r: Outcome<nat>)
      requires Valid() && buffer.Valid()
      modifies keys, buffer.bytes
      ensures Valid()
      ensures old(buffer.state).Ciphertext? && buffer.Matches(context.parameters)
              && layout.parameters == context.parameters && old(buffer.state).length == layout.ciphertextLength ==>
                r == IntoRoom(CheckedOpen(context, layout.position, layout.kind, old(buffer.Ciphertext().value)))
      ensures r.Ok? ==>
        && old(buffer.state).Ciphertext?
        && r.value <= buffer.parameters.PlaintextSegmentLength()
        && Ok(buffer.bytes[PAYLOAD_OFFSET..PAYLOAD_OFFSET + r.value]) ==
           CheckedOpen(context, layout.position, layout.kind, old(buffer.Ciphertext().value))
    {
      hide OpenSegment;
      var length :- buffer.CiphertextLength();
      var _ :- ValidateCiphertextLayout(length, layout);
      if !buffer.Matches(context.parameters) {
        return Err(InvalidParameters);
      }
      var plaintextLength :- ValidateSegment(context.parameters, buffer.bytes[..length], layout.kind);
      r := OpenSegmentInPlace(buffer.bytes, length, layout.position, layout.kind);
    }

    /** Decrypts in its buffer a segment whose prefix has been decoded. The caller completes the
        buffer's state. */
    method DecryptSegmentInPlaceAtFramed(buffer: SegmentBuffer, position: nat, framing: SegmentFraming) returns (r: Outcome<nat>)
      requires Valid() && buffer.Valid()
      requires framing.ciphertextLength == OVERHEAD + framing.plaintextLength
      modifies keys, buffer.bytes
      ensures Valid()
      ensures old(buffer.state).Ciphertext? && buffer.Matches(context.parameters) ==>
                r == IntoRoom(FramedOpen(context, position, framing, old(buffer.Ciphertext().value)))
      ensures r.Ok? ==>
        && old(buffer.state).Ciphertext?
        && r.value <= buffer.parameters.PlaintextSegmentLength()
        && Ok(buffer.bytes[PAYLOAD_OFFSET..PAYLOAD_OFFSET + r.value]) ==
           FramedOpen(context, position, framing, old(buffer.Ciphertext().value))
    {
      hide OpenSegment;
      if !buffer.Matches(context.parameters) {
        return Err(InvalidParameters);
      }
      var length :- buffer.CiphertextLength();
      var _ :- ValidateFramedLength(length, framing);
      r := OpenSegmentInPlace(buffer.bytes, length, position, framing.kind);
    }

    method OpenSegmentInPlace(storage: array<Byte>, length: nat, position: nat, kind: SegmentKind) returns (r: Outcome<nat>)
      requires Valid() && OVERHEAD <= length <= storage.Length
      modifies keys, storage
      ensures Valid()
      ensures r == IntoRoom(OpenSegment(context, position, kind, old(storage[..length])))
      ensures r.Ok? ==> storage[PAYLOAD_OFFSET..PAYLOAD_OFFSET + r.value] == OpenSegment(context, position, kind, old(storage[..length])).value
    {
      hide OpenSegment;
      var plaintext :- OpenSegmentFrom(storage[..length], position, kind);
      forall i | 0 <= i < |plaintext| {
        storage[PAYLOAD_OFFSET + i] := plaintext[i];
      }
      assert storage[PAYLOAD_OFFSET..PAYLOAD_OFFSET + |plaintext|] == plaintext;
      return Ok(|plaintext|);
    }
  }
}
