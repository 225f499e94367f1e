/** Segments encrypted in any order by independent states of one message (src/state.rs:579-818). */
module Forks {
  import opened ByteStrings
  import opened Failures
  import opened Arithmetic
  import opened ParameterSets
  import opened CipherSuites
  import opened Segments
  import opened Messages
  import opened Randomness
  import opened States
  import opened OneShot

  /** One unit of work: which state encrypts which position. */
  datatype Assignment = Assignment(worker: nat, position: nat)

  /** Every position of the layout is assigned once, to one of the workers. */
  ghost predicate CoversOnce(work: seq<Assignment>, workers: nat, count: nat) {
    && (forall i :: 0 <= i < |work| ==> work[i].worker < workers && work[i].position < count)
    && (forall i, j :: 0 <= i < j < |work| ==> work[i].position != work[j].position)
    && (forall position: nat :: position < count ==> Assigned(work, position))
  }

  ghost predicate Assigned(work: seq<Assignment>, position: nat) {
    exists i :: 0 <= i < |work| && work[i].position == position
  }

  /** Independent states over the same message context. */
  ghost predicate Independent(states: seq<EncryptionState>, context: MessageContext)
    reads set i, o | 0 <= i < |states| && o in states[i].Repr() :: o
  {
    && (forall i :: 0 <= i < |states| ==> states[i].Valid() && states[i].context == context)
    && (forall i, j :: 0 <= i < j < |states| ==> states[i].Repr() !! states[j].Repr())
  }

  /** No state's random generator is going to fail. */
  ghost predicate Reliable(states: seq<EncryptionState>)
    reads set i | 0 <= i < |states| :: states[i].nonces.rng
  {
    forall i :: 0 <= i < |states| ==> states[i].nonces.rng.Reliable()
  }

  /** Forking one message context for several workers gives independent states. */
  method ForkAll(context: MessageContext, rngs: seq<Rng>) returns (states: seq<EncryptionState>)
    requires forall i, j :: 0 <= i < j < |rngs| ==> rngs[i] != rngs[j]
    ensures |states| == |rngs| && Independent(states, context)
    ensures forall i :: 0 <= i < |rngs| ==> states[i].nonces.rng == rngs[i]
    ensures forall i :: 0 <= i < |rngs| ==> fresh(states[i].Repr() - {rngs[i]})
  {
    hide NonceGenerator.Valid, KeyCache.Valid;
    states := [];
    for n := 0 to |rngs|
      invariant |states| == n && Independent(states, context)
      invariant forall i :: 0 <= i < n ==> states[i].nonces.rng == rngs[i]
      invariant forall i :: 0 <= i < n ==> fresh(states[i].Repr() - {rngs[i]})
    {
      var state := EncryptionState.Fork(context, rngs[n]);
      states := states + [state];
    }
  }

  function SegmentPlaintext(layout: MessageLayout, plaintext: Bytes, position: nat): Bytes
    requires |plaintext| == layout.plaintextLength && position < layout.segmentCount
  {
    LayoutTiles(layout, position);
    var s := SegmentAt(layout, position);
    plaintext[s.plaintextOffset..s.plaintextOffset + s.plaintextLength]
  }

  /** The message has the sealed segment of a position at its place in the layout. */
  ghost predicate SealedAt(context: MessageContext, layout: MessageLayout, plaintext: Bytes, message: Bytes, position: nat, nonce: Nonce)
    requires |plaintext| == layout.plaintextLength && |message| == layout.ciphertextLength && position < layout.segmentCount
  {
    LayoutTiles(layout, position);
    var s := SegmentAt(layout, position);
    message[s.ciphertextOffset..s.ciphertextOffset + s.ciphertextLength] ==
      SealedSegment(context, position, s.kind, nonce, SegmentPlaintext(layout, plaintext, position))
  }

  /** Segments at different positions do not touch. */
  lemma Apart(layout: MessageLayout, p: nat, q: nat)
    requires p < q < layout.segmentCount
    ensures SegmentAt(layout, p).ciphertextOffset + SegmentAt(layout, p).ciphertextLength <= SegmentAt(layout, q).ciphertextOffset
  {
    LayoutTiles(layout, p);
    TimesMonotone(p + 1, q, layout.parameters.ciphertextSegmentLength);
  }

  /** A message whose every segment is sealed at its place is the canonical encoding under the nonces
      that were used, in whatever order that happened. */
  lemma {:induction false} AssembledFront(
    context: MessageContext, header: Bytes, nonces: Nonces, layout: MessageLayout, plaintext: Bytes, message: Bytes, count: nat)
    requires layout.parameters == context.parameters && layout.Canonical() && |plaintext| == layout.plaintextLength
    requires |header| == HEADER_LENGTH && |message| == layout.ciphertextLength && header <= message
    requires count <= layout.segmentCount
    requires forall position: nat :: position < count ==> SealedAt(context, layout, plaintext, message, position, nonces(position))
    ensures Written(context, header, nonces, layout, plaintext, count) <= message
    ensures count > 0 ==> |Written(context, header, nonces, layout, plaintext, count)| ==
                            SegmentAt(layout, count - 1).ciphertextOffset + SegmentAt(layout, count - 1).ciphertextLength
  {
    hide SealedSegment, Written, SegmentForPosition;
    if count == 0 {
      WrittenStart(context, header, nonces, layout, plaintext);
    } else {
      AssembledFront(context, header, nonces, layout, plaintext, message, count - 1);
      WrittenGrows(context, header, nonces, layout, plaintext, count - 1);
      LayoutTiles(layout, count - 1);
      var s := SegmentAt(layout, count - 1);
      var front := Written(context, header, nonces, layout, plaintext, count - 1);
      assert SealedAt(context, layout, plaintext, message, count - 1, nonces(count - 1));
      assert message[..s.ciphertextOffset + s.ciphertextLength] ==
             front + message[s.ciphertextOffset..s.ciphertextOffset + s.ciphertextLength];
    }
  }

  lemma Assembled(context: MessageContext, header: Bytes, nonces: Nonces, layout: MessageLayout, plaintext: Bytes, message: Bytes)
    requires layout.parameters == context.parameters && layout.Canonical() && |plaintext| == layout.plaintextLength
    requires |header| == HEADER_LENGTH && |message| == layout.ciphertextLength && header <= message
    requires forall position: nat :: position < layout.segmentCount ==> SealedAt(context, layout, plaintext, message, position, nonces(position))
    ensures message == header + CanonicalEncoding(context, nonces, plaintext)
  {
    hide SealedSegment, Written, SegmentForPosition, CanonicalEncoding;
    AssembledFront(context, header, nonces, layout, plaintext, message, layout.segmentCount);
    WrittenEnd(context, header, nonces, layout, plaintext);
    LayoutTiles(layout, layout.segmentCount - 1);
    assert message[..|message|] == message;
  }

  /** Nothing outside the segment of one position differs. */
  ghost predicate OnlyChanged(layout: MessageLayout, position: nat, before: Bytes, after: Bytes)
    requires |before| == |after| == layout.ciphertextLength && position < layout.segmentCount
  {
    LayoutTiles(layout, position);
    var s := SegmentAt(layout, position);
    && before[..s.ciphertextOffset] == after[..s.ciphertextOffset]
    && before[s.ciphertextOffset + s.ciphertextLength..] == after[s.ciphertextOffset + s.ciphertextLength..]
  }

  /** Encrypts one position with one state, into its place in the message. */
  method EncryptPosition(
    state: EncryptionState, layout: MessageLayout, plaintext: Bytes, position: nat, message: array<Byte>)
    returns (r: Outcome<()>, ghost nonce: Nonce)
    requires state.Valid() && state.context.parameters == layout.parameters && message !in state.Repr()
    requires |plaintext| == layout.plaintextLength && message.Length == layout.ciphertextLength && position < layout.segmentCount
    modifies state.Repr(), message
    ensures state.Valid()
    ensures r.Ok? ==> SegmentKey(state.context, position).Ok? && SealedAt(state.context, layout, plaintext, message[..], position, nonce)
    ensures OnlyChanged(layout, position, old(message[..]), message[..])
    ensures old(state.nonces.rng.Reliable()) ==> state.nonces.rng.Reliable()
    ensures old(state.nonces.rng.Reliable()) && SegmentKey(state.context, position).Ok? ==> r.Ok?
  {
    hide Rng.Reliable, SealedSegment, SegmentKey, SegmentForPosition, KeyCache.Valid, NonceGenerator.Valid, NonceGenerator.Nonces, Splice;
    LayoutTiles(layout, position);
    var segment := SegmentAt(layout, position);
    nonce := state.nonces.Nonces()(state.nonces.issued);
    ghost var before := message[..];
    var chunk := plaintext[segment.plaintextOffset..segment.plaintextOffset + segment.plaintextLength];
    var result := state.EncryptSegmentInto(chunk, segment, message, segment.ciphertextOffset, segment.ciphertextOffset + segment.ciphertextLength);
    if result.Err? {
      FailureCause(state.context, segment.kind, |chunk|, position, segment.ciphertextLength, result.error);
      return Err(result.error), nonce;
    }
    SpliceAround(before, segment.ciphertextOffset, SealedSegment(state.context, position, segment.kind, nonce, chunk));
    return Ok(()), nonce;
  }

  lemma SliceOfHead(bytes: Bytes, end: nat, at: nat, length: nat)
    requires at + length <= end <= |bytes|
    ensures bytes[..end][at..at + length] == bytes[at..at + length]
  {
  }

  /** A segment elsewhere stays as it was. */
  lemma StaysSealed(context: MessageContext, layout: MessageLayout, plaintext: Bytes, before: Bytes, after: Bytes, changed: nat, position: nat, nonce: Nonce)
    requires |plaintext| == layout.plaintextLength && |before| == |after| == layout.ciphertextLength
    requires changed < layout.segmentCount && position < layout.segmentCount && changed != position
    requires OnlyChanged(layout, changed, before, after)
    requires SealedAt(context, layout, plaintext, before, position, nonce)
    ensures SealedAt(context, layout, plaintext, after, position, nonce)
  {
    hide SealedSegment, SegmentForPosition;
    LayoutTiles(layout, position);
    LayoutTiles(layout, changed);
    var s, c := SegmentAt(layout, position), SegmentAt(layout, changed);
    if position < changed {
      Apart(layout, position, changed);
      SliceOfHead(before, c.ciphertextOffset, s.ciphertextOffset, s.ciphertextLength);
      SliceOfHead(after, c.ciphertextOffset, s.ciphertextOffset, s.ciphertextLength);
    } else {
      Apart(layout, changed, position);
      var end := c.ciphertextOffset + c.ciphertextLength;
      SliceOfTail(before[..end], before[end..], s.ciphertextOffset - end, s.ciphertextLength);
      SliceOfTail(after[..end], after[end..], s.ciphertextOffset - end, s.ciphertextLength);
      assert before[..end] + before[end..] == before && after[..end] + after[end..] == after;
    }
  }

  /** The sealed positions after some of the work, and the nonces they used. */
  ghost predicate Progressed(
    context: MessageContext, layout: MessageLayout, plaintext: Bytes, message: Bytes, work: seq<Assignment>, done: nat, used: seq<Nonce>)
    requires |plaintext| == layout.plaintextLength && |message| == layout.ciphertextLength
    requires done <= |work| && |used| == done
    requires forall i :: 0 <= i < |work| ==> work[i].position < layout.segmentCount
  {
    forall i :: 0 <= i < done ==>
      SealedAt(context, layout, plaintext, message, work[i].position, used[i]) && SegmentKey(context, work[i].position).Ok?
  }

  /** The state that an assignment names encrypts its position; the others are not disturbed. */
  method EncryptAssigned(
    states: seq<EncryptionState>, ghost context: MessageContext, layout: MessageLayout, plaintext: Bytes, assignment: Assignment, message: array<Byte>)
    returns (r: Outcome<()>, ghost nonce: Nonce)
    requires Independent(states, context) && layout.parameters == context.parameters
    requires forall i :: 0 <= i < |states| ==> message !in states[i].Repr()
    requires |plaintext| == layout.plaintextLength && message.Length == layout.ciphertextLength
    requires assignment.worker < |states| && assignment.position < layout.segmentCount
    modifies states[assignment.worker].Repr(), message
    ensures Independent(states, context)
    ensures r.Ok? ==>
      && SegmentKey(context, assignment.position).Ok?
      && SealedAt(context, layout, plaintext, message[..], assignment.position, nonce)
    ensures OnlyChanged(layout, assignment.position, old(message[..]), message[..])
    ensures old(Reliable(states)) ==> Reliable(states) && (SegmentKey(context, assignment.position).Ok? ==> r.Ok?)
  {
    hide SealedAt, SegmentKey, SegmentForPosition, OnlyChanged, EncryptionState.Valid, Rng.Reliable;
    r, nonce := EncryptPosition(states[assignment.worker], layout, plaintext, assignment.position, message);
  }

  /** Encrypts a message, its segments in any order and split in any way over any number of independent
      states. The result opens to the plaintext. Only the random generators and unusable keys can stop
      it. */
  method EncryptInAnyOrder(
    suite: CipherSuite, key: Bytes, aad: Bytes, floeIv: Bytes, states: seq<EncryptionState>, layout: MessageLayout,
    plaintext: Bytes, work: seq<Assignment>)
    returns (r: Outcome<Bytes>)
    requires |floeIv| == FLOE_IV_LENGTH
    requires Independent(states, NewContext(suite, key, aad, layout.parameters, floeIv)) && CoversOnce(work, |states|, layout.segmentCount)
    requires layout.Canonical() && |plaintext| == layout.plaintextLength
    modifies set i, o | 0 <= i < |states| && o in states[i].Repr() :: o
    ensures var context := NewContext(suite, key, aad, layout.parameters, floeIv);
      && Independent(states, context)
      && (r.Ok? ==> exists nonces: Nonces ::
            r.value == Header(suite, key, aad, layout.parameters, floeIv) + CanonicalEncoding(context, nonces, plaintext))
      && (r.Ok? ==> OpenMessage(suite, key, aad, None, r.value) == Some(plaintext))
      && (old(Reliable(states)) ==> (r.Ok? <==> KeysAvailable(context, layout.segmentCount - 1)))
  {
    hide NewContext, Header, OpenMessage, CanonicalEncoding, Independent, Reliable, EncryptionState.Valid;
    ghost var context := NewContext(suite, key, aad, layout.parameters, floeIv);
    var header := Header(suite, key, aad, layout.parameters, floeIv);
    ghost var nonces;
    r, nonces := EncryptSegmentsInAnyOrder(states, context, header, layout, plaintext, work);
    if r.Ok? {
      LayoutChunks(layout, plaintext, 0);
      CanonicalOpens(suite, key, aad, layout.parameters, floeIv, nonces, plaintext);
    }
  }

  lemma CanonicalOpens(suite: CipherSuite, key: Bytes, aad: Bytes, parameters: Parameters, floeIv: Bytes, nonces: Nonces, plaintext: Bytes)
    requires |floeIv| == FLOE_IV_LENGTH
    requires KeysAvailable(NewContext(suite, key, aad, parameters, floeIv), CanonicalNonFinal(parameters, plaintext))
    ensures OpenMessage(suite, key, aad, None,
              Header(suite, key, aad, parameters, floeIv) +
              CanonicalEncoding(NewContext(suite, key, aad, parameters, floeIv), nonces, plaintext)) == Some(plaintext)
  {
    hide NewContext, Header, OpenMessage, Encoding, KeysAvailable, CanonicalNonFinal;
    MessageRoundTrip(suite, key, aad, parameters, floeIv, nonces, plaintext, CanonicalNonFinal(parameters, plaintext), None);
  }

  /** The segments of a message, behind a header. */
  method EncryptSegmentsInAnyOrder(
    states: seq<EncryptionState>, ghost context: MessageContext, header: Bytes, layout: MessageLayout, plaintext: Bytes, work: seq<Assignment>)
    returns (r: Outcome<Bytes>, ghost nonces: Nonces)
    requires Independent(states, context) && CoversOnce(work, |states|, layout.segmentCount)
    requires layout.parameters == context.parameters && layout.Canonical() && |plaintext| == layout.plaintextLength
    requires |header| == HEADER_LENGTH
    modifies set i, o | 0 <= i < |states| && o in states[i].Repr() :: o
    ensures Independent(states, context)
    ensures r.Ok? ==>
      && r.value == header + CanonicalEncoding(context, nonces, plaintext)
      && KeysAvailable(context, layout.segmentCount - 1)
    ensures old(Reliable(states)) ==> (r.Ok? <==> KeysAvailable(context, layout.segmentCount - 1))
  {
    hide SealedAt, SegmentKey, CanonicalEncoding, SegmentForPosition, EncryptionState.Valid, DecodeFrame, OnlyChanged, Reliable;
    nonces := NoncesByPosition([], []);
    var message := new Byte[layout.ciphertextLength](_ => 0);
    forall i | 0 <= i < HEADER_LENGTH {
      message[i] := header[i];
    }
    ghost var used: seq<Nonce> := [];
    for n := 0 to |work|
      invariant Independent(states, context) && |used| == n
      invariant message[..HEADER_LENGTH] == header
      invariant Progressed(context, layout, plaintext, message[..], work, n, used)
      invariant old(Reliable(states)) ==> Reliable(states)
    {
      ghost var before := message[..];
      ghost var nonce;
      var result: Outcome<()>;
      result, nonce := EncryptAssigned(states, context, layout, plaintext, work[n], message);
      if result.Err? {
        return Err(result.error), nonces;
      }
      HeaderStays(layout, work[n].position, before, message[..]);
      ProgressedMore(context, layout, plaintext, before, message[..], work, n, used, nonce);
      used := used + [nonce];
    }
    AssembledFromWork(context, header, layout, plaintext, message[..], work, used, |states|);
    return Ok(message[..]), NoncesByPosition(work, used);
  }

  lemma HeaderStays(layout: MessageLayout, position: nat, before: Bytes, after: Bytes)
    requires |before| == |after| == layout.ciphertextLength && position < layout.segmentCount
    requires OnlyChanged(layout, position, before, after)
    ensures before[..HEADER_LENGTH] == after[..HEADER_LENGTH]
  {
    hide SegmentForPosition;
    LayoutTiles(layout, position);
    var s := SegmentAt(layout, position);
    assert before[..HEADER_LENGTH] == before[..s.ciphertextOffset][..HEADER_LENGTH];
    assert after[..HEADER_LENGTH] == after[..s.ciphertextOffset][..HEADER_LENGTH];
  }

  lemma ProgressedMore(
    context: MessageContext, layout: MessageLayout, plaintext: Bytes, before: Bytes, after: Bytes,
    work: seq<Assignment>, done: nat, used: seq<Nonce>, nonce: Nonce)
    requires |plaintext| == layout.plaintextLength && |before| == |after| == layout.ciphertextLength
    requires done < |work| && |used| == done
    requires forall i :: 0 <= i < |work| ==> work[i].position < layout.segmentCount
    requires forall i, j :: 0 <= i < j < |work| ==> work[i].position != work[j].position
    requires Progressed(context, layout, plaintext, before, work, done, used)
    requires OnlyChanged(layout, work[done].position, before, after)
    requires SealedAt(context, layout, plaintext, after, work[done].position, nonce) && SegmentKey(context, work[done].position).Ok?
    ensures Progressed(context, layout, plaintext, after, work, done + 1, used + [nonce])
  {
    hide SealedAt, SegmentKey, SegmentForPosition;
    forall i | 0 <= i < done
      ensures SealedAt(context, layout, plaintext, after, work[i].position, (used + [nonce])[i])
    {
      StaysSealed(context, layout, plaintext, before, after, work[done].position, work[i].position, used[i]);
    }
  }

  /** The nonce each position was given; positions without work get any. */
  ghost function NoncesByPosition(work: seq<Assignment>, used: seq<Nonce>): Nonces
    requires |used| == |work|
  {
    (position: nat) =>
      if Assigned(work, position)
      then var i :| 0 <= i < |work| && work[i].position == position; used[i]
      else Zeros(AEAD_IV_LENGTH)
  }

  lemma AssembledFromWork(
    context: MessageContext, header: Bytes, layout: MessageLayout, plaintext: Bytes, message: Bytes,
    work: seq<Assignment>, used: seq<Nonce>, workers: nat)
    requires layout.parameters == context.parameters && layout.Canonical() && |plaintext| == layout.plaintextLength
    requires |header| == HEADER_LENGTH && |message| == layout.ciphertextLength && message[..HEADER_LENGTH] == header
    requires CoversOnce(work, workers, layout.segmentCount) && |used| == |work|
    requires Progressed(context, layout, plaintext, message, work, |work|, used)
    ensures message == header + CanonicalEncoding(context, NoncesByPosition(work, used), plaintext)
    ensures KeysAvailable(context, layout.segmentCount - 1)
  {
    hide SealedAt, SegmentKey, SegmentForPosition, Encoding, DecodeFrame, CanonicalCount;
    var nonces := NoncesByPosition(work, used);
    forall position: nat | position < layout.segmentCount
      ensures SealedAt(context, layout, plaintext, message, position, nonces(position)) && SegmentKey(context, position).Ok?
    {
      assert Assigned(work, position);
      var i :| 0 <= i < |work| && work[i].position == position;
    }
    Assembled(context, header, nonces, layout, plaintext, message);
  }
}
