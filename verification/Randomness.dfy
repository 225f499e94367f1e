/** The provider's random generator as an unbounded byte stream whose fills may fail, and the
    batched nonce generator over it (src/state.rs:250-286). */
module Randomness {
  import opened ByteStrings
  import opened Failures
  import opened ParameterSets
  import opened CipherSuites

  type ByteStream = nat -> Byte

  function StreamSlice(stream: ByteStream, from: nat, length: nat): (r: Bytes)
    ensures |r| == length
  {
    seq(length, i requires 0 <= i < length => stream(from + i))
  }

  lemma SliceByte(stream: ByteStream, from: nat, length: nat, i: nat)
    requires i < length
    ensures StreamSlice(stream, from, length)[i] == stream(from + i)
  {
  }

  /** How the next fill goes: it succeeds, or fails after scribbling over its output. */
  datatype FillEvent = Success | Failure(garbage: Bytes)

  class Rng {
    const stream: ByteStream
    var drawn: nat
    var script: seq<FillEvent>

    constructor (stream: ByteStream, script: seq<FillEvent>)
      ensures this.stream == stream && drawn == 0 && this.script == script
    {
      this.stream, this.drawn, this.script := stream, 0, script;
    }

    /** No failure is in store. */
    ghost predicate Reliable()
      reads this
    {
      forall i :: 0 <= i < |script| ==> script[i].Success?
    }

    method Fill(output: array<Byte>) returns (r: Outcome<()>)
      modifies this, output
      ensures r.Ok? ==>
                && output[..] == StreamSlice(stream, old(drawn), output.Length)
                && drawn == old(drawn) + output.Length
      ensures r.Err? ==> r.error == RngFailure && drawn == old(drawn)
      ensures old(Reliable()) ==> Reliable() && r.Ok?
    {
      var event := if script == [] then Success else script[0];
      script := if script == [] then [] else script[1..];
      match event
      case Success =>
        forall i | 0 <= i < output.Length {
          output[i] := stream(drawn + i);
        }
        drawn := drawn + output.Length;
        return Ok(());
      case Failure(garbage) =>
        forall i | 0 <= i < output.Length && i < |garbage| {
          output[i] := garbage[i];
        }
        return Err(RngFailure);
    }
  }

  /** The nonces of a generator that starts at byte `base` of the stream: nonce `k` is the `k`th
      group of twelve bytes, whatever the batching. */
  function NonceStream(stream: ByteStream, base: nat): Nonces {
    (k: nat) => StreamSlice(stream, base + AEAD_IV_LENGTH * k, AEAD_IV_LENGTH)
  }

  const NONCE_BATCH_LENGTH: nat := 3072

  class NonceGenerator {
    const rng: Rng
    const bytes: array<Byte>
    var next: nat
    ghost const base: nat
    ghost var issued: nat

    ghost function Nonces(): Nonces {
      NonceStream(rng.stream, base)
    }

    ghost predicate Valid()
      reads this, rng, bytes
    {
      && bytes.Length == NONCE_BATCH_LENGTH
      && next <= NONCE_BATCH_LENGTH && next % AEAD_IV_LENGTH == 0
      && rng.drawn == base + AEAD_IV_LENGTH * issued + (NONCE_BATCH_LENGTH - next)
      && bytes[next..] == StreamSlice(rng.stream, base + AEAD_IV_LENGTH * issued, NONCE_BATCH_LENGTH - next)
    }

    constructor (rng: Rng)
      ensures Valid() && fresh(bytes)
      ensures this.rng == rng && base == rng.drawn && issued == 0
    {
      this.rng := rng;
      bytes := new Byte[NONCE_BATCH_LENGTH](_ => 0);
      next := NONCE_BATCH_LENGTH;
      base, issued := rng.drawn, 0;
    }

    /** Returns the next twelve bytes of the stream. A failed refill consumes nothing: the cursor
        stays at the end of the batch, so no stale byte can be issued later. */
    method Next() returns (r: Outcome<Nonce>)
      requires Valid()
      modifies this, rng, bytes
      ensures Valid()
      ensures r.Ok? ==>
        && r.value == Nonces()(old(issued)) && issued == old(issued) + 1
        && forall i :: 0 <= i < 12 ==> r.value[i] == rng.stream(base + 12 * old(issued) + i)
      ensures r.Err? ==> r.error == RngFailure && issued == old(issued) && next == NONCE_BATCH_LENGTH == old(next)
      ensures old(rng.Reliable()) ==> rng.Reliable() && r.Ok?
    {
      if next == NONCE_BATCH_LENGTH {
        var filled := rng.Fill(bytes);
        if filled.Err? {
          return Err(filled.error);
        }
        next := 0;
      }
      var from := base + AEAD_IV_LENGTH * issued;
      assert bytes[next..] == StreamSlice(rng.stream, from, NONCE_BATCH_LENGTH - next);
      var nonce := bytes[next..next + AEAD_IV_LENGTH];
      assert nonce == bytes[next..][..AEAD_IV_LENGTH] == StreamSlice(rng.stream, from, AEAD_IV_LENGTH);
      next := next + AEAD_IV_LENGTH;
      issued := issued + 1;
      assert bytes[next..] == bytes[next - AEAD_IV_LENGTH..][AEAD_IV_LENGTH..];
      return Ok(nonce);
    }
  }
}
