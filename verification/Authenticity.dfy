/** What acceptance means for the provider: a message, a run of segments or a segment is accepted
    exactly when the provider opens every one of its segments, under the key of its own position and
    with its position and finality as associated data (src/state.rs:482-560, src/online.rs:580-614). */
module Authenticity {
  import opened ByteStrings
  import opened Failures
  import opened Arithmetic
  import opened ParameterSets
  import opened CipherSuites
  import opened Segments
  import opened Messages

  /** One segment as it stands in a body. */
  datatype Piece = Piece(kind: SegmentKind, bytes: Bytes)

  /** A full segment marked as non-final, or one that states its own length and so is final. */
  predicate WellFramed(parameters: Parameters, piece: Piece) {
    && 32 <= |piece.bytes| <= parameters.ciphertextSegmentLength
    && match piece.kind
       case NonFinal => |piece.bytes| == parameters.ciphertextSegmentLength && Value32(piece.bytes) == 0xFFFF_FFFF
       case Final => Value32(piece.bytes) == |piece.bytes|
  }

  /** What the provider answers for a segment at a position: nothing if there is no key. The nonce is
      in bytes 4 to 16; the ciphertext and its tag follow. */
  function ProviderAnswer(context: MessageContext, position: nat, piece: Piece): (r: Option<Bytes>)
    requires |piece.bytes| >= 32
    ensures r.Some? ==> |piece.bytes| == |r.value| + 32
  {
    var key := SegmentKey(context, position);
    if key.Err? then None
    else context.suite.open(key.value, piece.bytes[4..16], SegmentAad(position, piece.kind), piece.bytes[16..])
  }

  /** A segment that the provider refuses is refused as unauthentic; one that it opens has its answer. */
  lemma SegmentAnswered(context: MessageContext, position: nat, piece: Piece)
    requires |piece.bytes| >= 32
    ensures var result, answer := OpenSegment(context, position, piece.kind, piece.bytes), ProviderAnswer(context, position, piece);
      && (forall plaintext :: result == Ok(plaintext) <==> answer == Some(plaintext))
      && (SegmentKey(context, position).Ok? && answer == None ==> result == Err(AuthenticationFailed))
      && (SegmentKey(context, position).Err? ==> result.Err? && result.error == SegmentKey(context, position).error)
  {
  }

  /** Random access opens a segment exactly when its framing is right for its place and the provider
      opens it. */
  lemma CheckedAnswer(context: MessageContext, position: nat, piece: Piece, plaintext: Bytes)
    ensures CheckedOpen(context, position, piece.kind, piece.bytes) == Ok(plaintext) <==>
            WellFramed(context.parameters, piece) && ProviderAnswer(context, position, piece) == Some(plaintext)
  {
    hide OpenSegment, ProviderAnswer, FromBigEndian, SegmentKey;
    if |piece.bytes| >= 32 {
      FourBytes(piece.bytes[..4]);
      SegmentAnswered(context, position, piece);
    }
  }

  lemma OpenAtAnswer(context: MessageContext, layout: MessageLayout, body: Bytes, position: nat, plaintext: Bytes)
    requires layout.parameters == context.parameters && HEADER_LENGTH + |body| == layout.ciphertextLength && position < layout.segmentCount
    ensures var piece := Piece(SegmentAt(layout, position).kind, SegmentSlice(layout, body, position));
            OpenAt(context, layout, body, position) == Ok(plaintext) <==>
            WellFramed(context.parameters, piece) && ProviderAnswer(context, position, piece) == Some(plaintext)
  {
    hide CheckedOpen, SegmentForPosition, SegmentSlice, ProviderAnswer;
    CheckedAnswer(context, position, Piece(SegmentAt(layout, position).kind, SegmentSlice(layout, body, position)), plaintext);
  }

  // ---- Runs of segments ----

  function Join(pieces: seq<Piece>): Bytes {
    if pieces == [] then [] else Join(pieces[..|pieces| - 1]) + pieces[|pieces| - 1].bytes
  }

  /** Well-framed segments of which only the last may be final. */
  ghost predicate Framed(parameters: Parameters, pieces: seq<Piece>) {
    forall k :: 0 <= k < |pieces| ==> WellFramed(parameters, pieces[k]) && (k < |pieces| - 1 ==> pieces[k].kind.NonFinal?)
  }

  ghost predicate EndsFinal(pieces: seq<Piece>) {
    pieces != [] && pieces[|pieces| - 1].kind.Final?
  }

  /** The provider opens every segment, each at its own position. */
  ghost predicate AllAnswered(context: MessageContext, pieces: seq<Piece>)
    requires Framed(context.parameters, pieces)
  {
    forall k :: 0 <= k < |pieces| ==> ProviderAnswer(context, k, pieces[k]).Some?
  }

  /** The plaintext of all segments. */
  ghost function Answered(context: MessageContext, pieces: seq<Piece>): Bytes
    requires Framed(context.parameters, pieces) && AllAnswered(context, pieces)
  {
    if pieces == [] then []
    else Answered(context, pieces[..|pieces| - 1]) + ProviderAnswer(context, |pieces| - 1, pieces[|pieces| - 1]).value
  }

  /** The run that the provider's answers make of these segments. */
  ghost function AnsweredRun(context: MessageContext, pieces: seq<Piece>): Option<Run>
    requires Framed(context.parameters, pieces)
  {
    if AllAnswered(context, pieces) && (EndsFinal(pieces) || |pieces| < MAX_SEGMENTS)
    then Some(Run(Answered(context, pieces), |Join(pieces)|, EndsFinal(pieces)))
    else None
  }

  /** Soundness and completeness of sequential reading: of a stream that starts with these segments,
      exactly what the provider answers for them is opened, and nothing if it refuses one. */
  lemma {:induction false} RunIsAnswered(context: MessageContext, stream: Bytes, pieces: seq<Piece>)
    requires Framed(context.parameters, pieces) && Join(pieces) <= stream
    ensures OpenedRun(context, stream, |pieces|) == AnsweredRun(context, pieces)
    decreases |pieces|
  {
    hide OpenNext, ProviderAnswer, WellFramed, SegmentKey;
    if pieces != [] {
      var n := |pieces| - 1;
      var front, piece := pieces[..n], pieces[n];
      RunIsAnswered(context, stream, front);
      RunUnfolds(context, stream, n);
      if AnsweredRun(context, front).Some? {
        NextAnswered(context, stream, n, AnsweredRun(context, front).value, piece);
      } else {
        RefusedEarlier(context, pieces);
      }
    }
  }

  /** A refusal, or running out of positions, is not undone by further segments. */
  lemma RefusedEarlier(context: MessageContext, pieces: seq<Piece>)
    requires Framed(context.parameters, pieces) && pieces != []
    requires AnsweredRun(context, pieces[..|pieces| - 1]) == None
    ensures AnsweredRun(context, pieces) == None
  {
    hide WellFramed;
  }

  lemma NextAnswered(context: MessageContext, stream: Bytes, position: nat, front: Run, piece: Piece)
    requires WellFramed(context.parameters, piece)
    requires front.length + |piece.bytes| <= |stream| && stream[front.length..front.length + |piece.bytes|] == piece.bytes
    ensures OpenNext(context, stream, position, front) ==
            var answer := ProviderAnswer(context, position, piece);
            if answer.Some? && (piece.kind.Final? || position != MAX_SEGMENTS - 1)
            then Some(Run(front.plaintext + answer.value, front.length + |piece.bytes|, piece.kind.Final?)) else None
  {
    hide OpenSegment, ProviderAnswer, FromBigEndian, SegmentKey;
    var rest := stream[front.length..];
    assert rest[..|piece.bytes|] == piece.bytes && rest[..4] == piece.bytes[..4];
    FourBytes(piece.bytes[..4]);
    SegmentAnswered(context, position, piece);
  }

  /** The segments of a run, as they stand in the stream. */
  lemma {:induction false} PiecesOfRun(context: MessageContext, stream: Bytes, count: nat) returns (pieces: seq<Piece>)
    requires OpenedRun(context, stream, count).Some?
    ensures |pieces| == count && Framed(context.parameters, pieces)
    ensures Join(pieces) == stream[..OpenedRun(context, stream, count).value.length]
    ensures EndsFinal(pieces) <==> OpenedRun(context, stream, count).value.closed
  {
    hide OpenNext, WellFramed;
    if count == 0 {
      pieces := [];
    } else {
      var front := PiecesOfRun(context, stream, count - 1);
      RunUnfolds(context, stream, count - 1);
      var piece := NextPiece(context, stream, count - 1, OpenedRun(context, stream, count - 1).value);
      pieces := front + [piece];
      assert pieces[..count - 1] == front;
      assert stream[..|Join(front)|] + stream[|Join(front)|..|Join(front)| + |piece.bytes|] == stream[..|Join(front)| + |piece.bytes|];
    }
  }

  lemma NextPiece(context: MessageContext, stream: Bytes, position: nat, front: Run) returns (piece: Piece)
    requires front.length <= |stream| && OpenNext(context, stream, position, front).Some?
    ensures WellFramed(context.parameters, piece)
    ensures var run := OpenNext(context, stream, position, front).value;
      && run.length == front.length + |piece.bytes| <= |stream|
      && stream[front.length..run.length] == piece.bytes
      && (run.closed <==> piece.kind.Final?)
  {
    hide OpenSegment, FromBigEndian;
    var rest := stream[front.length..];
    var framing := SegmentFraming.Decode(context.parameters, rest[..PREFIX_LENGTH]).value;
    piece := Piece(framing.kind, rest[..framing.ciphertextLength]);
    assert piece.bytes[..4] == rest[..4];
    FourBytes(piece.bytes[..4]);
  }

  /** A run of segments is opened exactly when the stream starts with well-framed segments all of
      which the provider opens at their positions; its plaintext is the provider's. */
  lemma RunExactly(context: MessageContext, stream: Bytes, count: nat, run: Run)
    ensures OpenedRun(context, stream, count) == Some(run) <==>
            exists pieces: seq<Piece> ::
              && Framed(context.parameters, pieces) && |pieces| == count && Join(pieces) <= stream
              && AnsweredRun(context, pieces) == Some(run)
  {
    hide OpenedRun, AnsweredRun, Framed;
    if OpenedRun(context, stream, count).Some? {
      var pieces := PiecesOfRun(context, stream, count);
      RunIsAnswered(context, stream, pieces);
    }
    forall pieces: seq<Piece> | Framed(context.parameters, pieces) && |pieces| == count && Join(pieces) <= stream
      ensures OpenedRun(context, stream, count) == AnsweredRun(context, pieces)
    {
      RunIsAnswered(context, stream, pieces);
    }
  }

  // ---- Messages ----

  /** These segments are the whole body, and the provider opens them all to this plaintext. */
  ghost predicate Attests(context: MessageContext, body: Bytes, plaintext: Bytes, pieces: seq<Piece>) {
    && Framed(context.parameters, pieces) && EndsFinal(pieces) && Join(pieces) == body
    && AllAnswered(context, pieces) && Answered(context, pieces) == plaintext
  }

  /** Some segments of the body attest its plaintext. */
  ghost predicate Authentic(context: MessageContext, body: Bytes, plaintext: Bytes) {
    exists pieces: seq<Piece> :: Attests(context, body, plaintext, pieces)
  }

  /** A body is accepted with a plaintext exactly when the provider attests it. */
  lemma AcceptsExactly(context: MessageContext, body: Bytes, plaintext: Bytes)
    ensures Accepts(context, body, plaintext) <==> Authentic(context, body, plaintext)
  {
    hide OpenedRun, Framed, AllAnswered, Answered, DecodeFrame;
    FrameIsClosedRun(context, body, Frame(plaintext, |body|));
    if Accepts(context, body, plaintext) {
      var count: nat :| OpenedRun(context, body, count) == Some(Run(plaintext, |body|, true));
      var pieces := PiecesOfRun(context, body, count);
      assert Join(pieces) == body;
      RunIsAnswered(context, body, pieces);
      assert Attests(context, body, plaintext, pieces);
    }
    forall pieces: seq<Piece> | Attests(context, body, plaintext, pieces)
      ensures Accepts(context, body, plaintext)
    {
      RunIsAnswered(context, body, pieces);
      assert OpenedRun(context, body, |pieces|) == Some(Run(plaintext, |body|, true));
    }
  }

  /** However the body is cut into well-framed segments, one that the provider refuses is enough to
      refuse the message. */
  lemma RefusedMessage(context: MessageContext, body: Bytes, pieces: seq<Piece>, k: nat)
    requires Framed(context.parameters, pieces) && EndsFinal(pieces) && Join(pieces) == body
    requires k < |pieces| && ProviderAnswer(context, k, pieces[k]) == None
    ensures !Acceptable(context, body)
  {
    hide OpenedRun, DecodeFrame, ProviderAnswer, WellFramed;
    if Acceptable(context, body) {
      var frame := DecodeFrame(context, 0, body).value;
      FrameIsClosedRun(context, body, frame);
      var count: nat :| OpenedRun(context, body, count) == Some(Run(frame.plaintext, frame.length, true));
      if count < |pieces| {
        JoinFront(pieces, count);
        RunIsAnswered(context, body, pieces[..count]);
      } else {
        RunIsAnswered(context, body, pieces);
        RunExtends(context, body, |pieces|, count);
      }
    }
  }

  lemma {:induction false} JoinFront(pieces: seq<Piece>, count: nat)
    requires count <= |pieces|
    ensures Join(pieces[..count]) <= Join(pieces)
    decreases |pieces| - count
  {
    if count == |pieces| {
      assert pieces[..count] == pieces;
    } else {
      JoinFront(pieces, count + 1);
      assert pieces[..count + 1][..count] == pieces[..count];
    }
  }

  /** Full segments open to full payloads. */
  lemma {:induction false} FullAnswers(context: MessageContext, pieces: seq<Piece>)
    requires Framed(context.parameters, pieces) && AllAnswered(context, pieces) && !EndsFinal(pieces)
    ensures |Answered(context, pieces)| == Times(|pieces|, context.parameters.PlaintextSegmentLength())
  {
    hide ProviderAnswer, SegmentKey;
    if pieces != [] {
      FullAnswers(context, pieces[..|pieces| - 1]);
    }
  }

  /** Every answer is the slice of the plaintext at the place of its segment. */
  lemma {:induction false} AnswerIsSlice(context: MessageContext, pieces: seq<Piece>, k: nat)
    requires Framed(context.parameters, pieces) && AllAnswered(context, pieces) && k < |pieces|
    ensures var at, answer, whole := Times(k, context.parameters.PlaintextSegmentLength()), ProviderAnswer(context, k, pieces[k]).value, Answered(context, pieces);
            at + |answer| <= |whole| && whole[at..at + |answer|] == answer
    decreases |pieces|
  {
    hide ProviderAnswer, WellFramed, Times;
    var n := |pieces| - 1;
    var front, last := Answered(context, pieces[..n]), ProviderAnswer(context, n, pieces[n]).value;
    assert Answered(context, pieces) == front + last;
    FullAnswers(context, pieces[..n]);
    if k < n {
      AnswerIsSlice(context, pieces[..n], k);
    }
  }

  /** What decrypting a complete ciphertext means for the provider. */
  lemma OpensExactly(suite: CipherSuite, key: Bytes, aad: Bytes, required: Option<Parameters>, ciphertext: Bytes, plaintext: Bytes)
    ensures OpenMessage(suite, key, aad, required, ciphertext) == Some(plaintext) <==>
            && HeaderOpens(suite, key, aad, required, ciphertext)
            && Authentic(OpenedContext(suite, key, aad, required, ciphertext), ciphertext[HEADER_LENGTH..], plaintext)
  {
    hide StartContext, DecodeFrame, Authentic;
    if HeaderOpens(suite, key, aad, required, ciphertext) {
      AcceptsExactly(OpenedContext(suite, key, aad, required, ciphertext), ciphertext[HEADER_LENGTH..], plaintext);
    }
  }
}
