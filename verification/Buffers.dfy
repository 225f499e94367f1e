/** Reusable storage for one encrypted segment (src/buffer.rs). */
module Buffers {
  import opened ByteStrings
  import opened Failures
  import opened ParameterSets

  datatype BufferState =
    | Empty
    | Plaintext(length: nat)
    | Ciphertext(length: nat)

  class SegmentBuffer {
    const parameters: Parameters
    const bytes: array<Byte>
    var state: BufferState

    /** Every slice the state names lies inside the allocation. */
    ghost predicate Valid()
      reads this
    {
      && bytes.Length == parameters.ciphertextSegmentLength
      && match state
         case Empty => true
         case Plaintext(length) => length <= parameters.PlaintextSegmentLength()
         case Ciphertext(length) => OVERHEAD <= length <= parameters.ciphertextSegmentLength
    }

    constructor (parameters: Parameters)
      ensures Valid() && fresh(bytes)
      ensures this.parameters == parameters && state == Empty
      ensures bytes[..] == Zeros(bytes.Length)
    {
      this.parameters := parameters;
      bytes := new Byte[parameters.ciphertextSegmentLength](_ => 0);
      state := Empty;
    }

    function Plaintext(): (r: Outcome<Bytes>)
      requires Valid()
      reads this, bytes
      ensures r.Ok? <==> state.Plaintext?
      ensures r.Ok? ==> |r.value| == state.length
    {
      match state
      case Plaintext(length) => Ok(bytes[PAYLOAD_OFFSET..PAYLOAD_OFFSET + length])
      case _ => Err(InvalidBufferState)
    }

    function Ciphertext(): (r: Outcome<Bytes>)
      requires Valid()
      reads this, bytes
      ensures r.Ok? <==> state.Ciphertext?
      ensures r.Ok? ==> |r.value| == state.length
    {
      match state
      case Ciphertext(length) => Ok(bytes[..length])
      case _ => Err(InvalidBufferState)
    }

    function PlaintextLength(): Outcome<nat>
      reads this
    {
      match state
      case Plaintext(length) => Ok(length)
      case _ => Err(InvalidBufferState)
    }

    function CiphertextLength(): Outcome<nat>
      reads this
    {
      match state
      case Ciphertext(length) => Ok(length)
      case _ => Err(InvalidBufferState)
    }

    /** Prepares a payload; the caller writes it at `PAYLOAD_OFFSET`. */
    method PreparePlaintext(length: nat) returns (r: Outcome<()>)
      requires Valid()
      modifies this
      ensures Valid()
      ensures r.Ok? <==> length <= parameters.PlaintextSegmentLength()
      ensures state == if r.Ok? then BufferState.Plaintext(length) else old(state)
    {
      var maximum := parameters.PlaintextSegmentLength();
      if length > maximum {
        return Err(InvalidPlaintextLength(length, AtMost(maximum)));
      }
      state := BufferState.Plaintext(length);
      return Ok(());
    }

    /** Prepares a segment; the caller writes it at the start of the storage. */
    method PrepareCiphertext(length: nat) returns (r: Outcome<()>)
      requires Valid()
      modifies this
      ensures Valid()
      ensures r.Ok? <==> OVERHEAD <= length <= parameters.ciphertextSegmentLength
      ensures r.Err? ==> r == parameters.ValidateCiphertextSegmentLength(length)
      ensures state == if r.Ok? then BufferState.Ciphertext(length) else old(state)
    {
      var _ :- parameters.ValidateCiphertextSegmentLength(length);
      state := BufferState.Ciphertext(length);
      return Ok(());
    }

    /** Forgets and wipes the contents. */
    method Clear()
      requires Valid()
      modifies this, bytes
      ensures Valid() && state == Empty
      ensures bytes[..] == Zeros(bytes.Length)
    {
      forall i | 0 <= i < bytes.Length {
        bytes[i] := 0;
      }
      state := Empty;
    }

    /** Appends as much of `input` as one payload still takes. A buffer that holds no plaintext
        starts a new payload. */
    method ExtendPlaintext(input: Bytes) returns (copied: nat)
      requires Valid()
      modifies this, bytes
      ensures Valid()
      ensures var held := if old(state).Plaintext? then old(Plaintext().value) else [];
        && copied == Min(|input|, parameters.PlaintextSegmentLength() - |held|)
        && Plaintext() == Ok(held + input[..copied])
    {
      var length := if state.Plaintext? then state.length else 0;
      var capacity := parameters.PlaintextSegmentLength();
      copied := Min(|input|, capacity - length);
      ghost var held := bytes[PAYLOAD_OFFSET..PAYLOAD_OFFSET + length];
      var start := PAYLOAD_OFFSET + length;
      forall i | 0 <= i < copied {
        bytes[start + i] := input[i];
      }
      state := BufferState.Plaintext(length + copied);
      assert bytes[PAYLOAD_OFFSET..PAYLOAD_OFFSET + length + copied] == held + input[..copied];
    }

    method TruncatePlaintext(length: nat) returns (r: Outcome<()>)
      requires Valid()
      modifies this
      ensures Valid()
      ensures r.Ok? <==> old(state).Plaintext? && length <= old(state).length
      ensures r.Ok? ==> Plaintext() == Ok(old(Plaintext().value)[..length])
      ensures r.Err? ==> state == old(state)
    {
      var current :- PlaintextLength();
      if length > current {
        return Err(InvalidPlaintextLength(length, AtMost(current)));
      }
      ghost var held := Plaintext().value;
      state := BufferState.Plaintext(length);
      assert bytes[PAYLOAD_OFFSET..PAYLOAD_OFFSET + length] == held[..length];
      return Ok(());
    }

    predicate Matches(parameters: Parameters)
    {
      this.parameters == parameters
    }

    method MarkCiphertext(length: nat)
      requires Valid() && OVERHEAD <= length <= parameters.ciphertextSegmentLength
      modifies this
      ensures Valid() && state == BufferState.Ciphertext(length)
    {
      state := BufferState.Ciphertext(length);
    }

    /** The cleanup boundary around every buffered decryption: an authenticated payload becomes
        the plaintext, and any error wipes the whole allocation. */
    method CompleteDecryption(result: Outcome<nat>)
      requires Valid()
      requires result.Ok? ==> result.value <= parameters.PlaintextSegmentLength()
      modifies this, bytes
      ensures Valid()
      ensures result.Ok? ==> state == BufferState.Plaintext(result.value) && bytes[..] == old(bytes[..])
      ensures result.Err? ==> Wiped()
    {
      match result
      case Ok(length) => state := BufferState.Plaintext(length);
      case Err(_) => Clear();
    }

    ghost predicate Wiped()
      reads this, bytes
    {
      state == Empty && bytes[..] == Zeros(bytes.Length)
    }
  }

  function Min(a: nat, b: nat): nat {
    if a <= b then a else b
  }
}
