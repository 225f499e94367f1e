/** The wrapped I/O objects, and the retrying reads over them (src/wire.rs). */
module Wire {
  import opened ByteStrings
  import opened Failures
  import opened ParameterSets
  import opened Buffers

  /** How the next read goes: it delivers at most `limit + 1` bytes, is interrupted, or fails. */
  datatype ReadEvent = Deliver(limit: nat) | Interrupt | Fail

  datatype ReadResult = Delivered(count: nat) | Interrupted | Broken

  /** A seekable source with fixed contents. Its reads follow any finite script of short reads,
      interruptions and failures, and after that deliver all they can; a read delivers nothing only at
      the end of the data. Its seeks follow a script of successes and failures. */
  class Source {
    const data: Bytes
    var position: nat
    var readScript: seq<ReadEvent>
    var seekScript: seq<bool>

    constructor (data: Bytes, position: nat, readScript: seq<ReadEvent>, seekScript: seq<bool>)
      ensures this.data == data && this.position == position
      ensures this.readScript == readScript && this.seekScript == seekScript
    {
      this.data, this.position, this.readScript, this.seekScript := data, position, readScript, seekScript;
    }

    /** The bytes from the current position to the end. */
    function Remaining(): Bytes
      reads this
    {
      if position <= |data| then data[position..] else []
    }

    /** No failure is in store: short reads and interruptions may be. */
    ghost predicate Reliable()
      reads this
    {
      Fail !in readScript && false !in seekScript
    }

    method Read(output: array<Byte>, lo: nat, hi: nat) returns (r: ReadResult)
      requires lo < hi <= output.Length
      modifies this, output
      ensures |readScript| <= |old(readScript)|
      ensures old(Remaining()) != [] && r.Delivered? ==> r.count > 0
      ensures r.Delivered? ==>
        && r.count <= hi - lo && r.count <= |old(Remaining())|
        && position == old(position) + r.count && Remaining() == old(Remaining())[r.count..]
        && output[..] == Splice(old(output[..]), lo, old(Remaining())[..r.count])
      ensures !r.Delivered? ==> position == old(position) && Remaining() == old(Remaining()) && output[..] == old(output[..])
      ensures r.Interrupted? ==> |readScript| < |old(readScript)|
      ensures old(Reliable()) ==> Reliable() && !r.Broken?
    {
      var event := if readScript == [] then Deliver(hi - lo) else readScript[0];
      readScript := if readScript == [] then [] else readScript[1..];
      match event
      case Interrupt => return Interrupted;
      case Fail => return Broken;
      case Deliver(limit) =>
        var available := Remaining();
        var count := Min(limit + 1, Min(hi - lo, |available|));
        forall i | 0 <= i < count {
          output[lo + i] := available[i];
        }
        position := position + count;
        return Delivered(count);
    }

    /** `stream_position`, which a source may refuse like any other seek. */
    method StreamPosition() returns (r: IoResult<nat>)
      modifies this
      ensures position == old(position)
      ensures r.Ok? ==> r.value == position
      ensures r.Err? ==> r.error == Device
      ensures old(Reliable()) ==> Reliable() && r.Ok?
    {
      var moved := Seek(position);
      return if moved.Ok? then Ok(position) else Err(Device);
    }

    /** Moves to the end and returns it. */
    method SeekEnd() returns (r: IoResult<nat>)
      modifies this
      ensures r.Ok? ==> r.value == position == |data|
      ensures r.Err? ==> r.error == Device && position == old(position)
      ensures old(Reliable()) ==> Reliable() && r.Ok?
    {
      var moved := Seek(|data|);
      return if moved.Ok? then Ok(|data|) else Err(Device);
    }

    method Seek(target: nat) returns (r: IoResult<()>)
      modifies this
      ensures r.Ok? ==> position == target
      ensures r.Err? ==> r.error == Device && position == old(position)
      ensures old(Reliable()) ==> Reliable() && r.Ok?
    {
      var works := seekScript == [] || seekScript[0];
      seekScript := if seekScript == [] then [] else seekScript[1..];
      if !works {
        return Err(Device);
      }
      position := target;
      return Ok(());
    }
  }

  lemma ReliableFrom(source: Source)
    ensures Fail !in source.readScript && false !in source.seekScript ==> source.Reliable()
  {
  }

  /** Fills `output[lo..hi]` through short reads and interruptions, and stops early only at the end
      of the source. */
  method ReadFully(reader: Source, output: array<Byte>, lo: nat, hi: nat) returns (r: IoResult<nat>)
    requires lo <= hi <= output.Length
    modifies reader, output
    ensures r.Ok? ==>
      && r.value == Min(hi - lo, |old(reader.Remaining())|)
      && reader.position == old(reader.position) + r.value
      && reader.Remaining() == old(reader.Remaining())[r.value..]
      && output[..] == Splice(old(output[..]), lo, old(reader.Remaining())[..r.value])
    ensures r.Err? ==>
      && r.error == Device && old(reader.position) <= reader.position
      && output[..lo] == old(output[..lo]) && output[hi..] == old(output[hi..])
    ensures old(reader.Reliable()) ==> reader.Reliable() && r.Ok?
  {
    hide Splice, Source.Remaining, Source.Reliable;
    ghost var before, source := output[..], reader.Remaining();
    var at: nat := lo;
    SpliceNothing(before, lo);
    assert source[0..] == source && source[..0] == [];
    while at < hi
      invariant lo <= at <= hi
      invariant at - lo <= |source|
      invariant reader.position == old(reader.position) + (at - lo)
      invariant reader.Remaining() == source[at - lo..]
      invariant output[..] == Splice(before, lo, source[..at - lo])
      invariant old(reader.Reliable()) ==> reader.Reliable()
      decreases hi - at, |reader.readScript|
    {
      var result := reader.Read(output, at, hi);
      match result {
        case Delivered(count) =>
          if count == 0 {
            break;
          }
          FilledFurther(before, lo, source, at - lo, count);
          at := at + count;
        case Interrupted =>
        case Broken =>
          SpliceSlice(before, lo, source[..at - lo]);
          return Err(Device);
      }
    }
    return Ok(at - lo);
  }

  /** Filling on behind `done` bytes of the source with the next `count` of them. */
  lemma FilledFurther(before: Bytes, lo: nat, source: Bytes, done: nat, count: nat)
    requires done + count <= |source| && lo + done + count <= |before|
    ensures Splice(Splice(before, lo, source[..done]), lo + done, source[done..][..count]) == Splice(before, lo, source[..done + count])
    ensures source[done..][count..] == source[done + count..]
  {
    hide Splice;
    assert source[..done] + source[done..][..count] == source[..done + count];
    SpliceExtends(before, lo, source[..done], source[done..][..count]);
  }

  /** Reads one byte, or finds the end of the source. */
  method ReadOne(reader: Source) returns (r: IoResult<Option<Byte>>)
    modifies reader
    ensures r == Ok(None) ==> reader.Remaining() == old(reader.Remaining()) == []
    ensures r.Ok? && r.value.Some? ==>
      && old(reader.Remaining()) == [r.value.value] + reader.Remaining()
      && reader.position == old(reader.position) + 1
    ensures r.Err? ==> r.error == Device
    ensures old(reader.Reliable()) ==> reader.Reliable() && r.Ok?
  {
    var trailing := new Byte[1](_ => 0);
    ghost var left := reader.Remaining();
    var actual :- ReadFully(reader, trailing, 0, 1);
    if actual == 0 {
      return Ok(None);
    }
    assert left == [trailing[0]] + reader.Remaining();
    return Ok(Some(trailing[0]));
  }

  method ReadHeader(reader: Source) returns (r: IoResult<Bytes>)
    modifies reader
    ensures r.Ok? ==>
      && |old(reader.Remaining())| >= HEADER_LENGTH && r.value == old(reader.Remaining())[..HEADER_LENGTH]
      && reader.position == old(reader.position) + HEADER_LENGTH
    ensures r.Err? && r.error != Device ==> |old(reader.Remaining())| < HEADER_LENGTH
    ensures r.Err? ==> r.error == Device || r.error.Floe?
    ensures old(reader.Reliable()) ==> reader.Reliable() && r != Err(Device)
  {
    var header := new Byte[HEADER_LENGTH](_ => 0);
    var actual :- ReadFully(reader, header, 0, HEADER_LENGTH);
    if actual != HEADER_LENGTH {
      return Err(Floe(InvalidHeaderLength(actual)));
    }
    return Ok(header[..]);
  }

  /** Fills all of `output[..length]` or fails. */
  method ReadExactSegment(reader: Source, output: array<Byte>, length: nat) returns (r: IoResult<()>)
    requires length <= output.Length
    modifies reader, output
    ensures r.Ok? ==>
      && |old(reader.Remaining())| >= length
      && reader.position == old(reader.position) + length
      && output[..length] == old(reader.Remaining())[..length]
    ensures r.Err? && r.error != Device ==> |old(reader.Remaining())| < length
    ensures old(reader.Reliable()) ==> reader.Reliable() && r != Err(Device)
  {
    var actual :- ReadFully(reader, output, 0, length);
    if actual != length {
      return Err(Floe(InvalidCiphertextLength(actual, Exactly(length))));
    }
    return Ok(());
  }

  /** How the next write goes: everything is accepted, or some of it and then a failure. */
  datatype WriteEvent = Accept | Refuse(partial: nat)

  class Sink {
    var written: Bytes
    var writeScript: seq<WriteEvent>
    var flushScript: seq<bool>
    // How much of what was written is known to have left the sink
    ghost var flushed: nat

    constructor (writeScript: seq<WriteEvent>, flushScript: seq<bool>)
      ensures written == [] && flushed == 0 && this.writeScript == writeScript && this.flushScript == flushScript
    {
      written, flushed := [], 0;
      this.writeScript, this.flushScript := writeScript, flushScript;
    }

    /** No failure is in store. */
    ghost predicate Reliable()
      reads this
    {
      (forall i :: 0 <= i < |writeScript| ==> writeScript[i].Accept?) && false !in flushScript
    }

    /** The next flush is going to fail. */
    ghost predicate Clogged()
      reads `flushScript
    {
      flushScript != [] && !flushScript[0]
    }

    method WriteAll(input: Bytes) returns (r: IoResult<()>)
      modifies this
      ensures old(Reliable()) ==> Reliable() && r.Ok?
      ensures r.Ok? ==> written == old(written) + input
      ensures r.Err? ==> r.error == Device && old(written) <= written <= old(written) + input
      ensures flushed == old(flushed) && flushScript == old(flushScript)
    {
      var event := if writeScript == [] then Accept else writeScript[0];
      writeScript := if writeScript == [] then [] else writeScript[1..];
      match event
      case Accept =>
        written := written + input;
        return Ok(());
      case Refuse(partial) =>
        written := written + input[..Min(partial, |input|)];
        return Err(Device);
    }

    method Flush() returns (r: IoResult<()>)
      modifies this
      ensures old(Reliable()) ==> Reliable() && r.Ok?
      ensures written == old(written)
      ensures r.Ok? <==> !old(Clogged())
      ensures r.Ok? ==> flushed == |written|
      ensures r.Err? ==> r.error == Device && flushed == old(flushed)
    {
      var works := flushScript == [] || flushScript[0];
      flushScript := if flushScript == [] then [] else flushScript[1..];
      if !works {
        return Err(Device);
      }
      flushed := |written|;
      return Ok(());
    }
  }
}
