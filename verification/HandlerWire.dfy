/** What the history of a protocol handler says about the bytes it has put on the wire. */
module HandlerWire {
  import opened Sequences
  import opened Bytes
  import opened FrameFormat
  import opened TransactionHistory
  import opened TransactionRuns
  import opened Transactions
  import opened WireBuffer
  import Deframer
  import Stuffing
  import Resync

  predicate IsWrite(e: Event) {
    e.Attempt? || e.AnswerWritten?
  }

  /** The bytes that a message should be on the wire. */
  function WireOf(m: Message, useCrc: bool): seq<byte> {
    Encode(FrameOf(m, useCrc))
  }

  /** The transport reports a size above zero, in eight bits. */
  predicate Accepted(m: Message, useCrc: bool) {
    |m.payload| <= MAX_DATA_SIZE && |WireOf(m, useCrc)| % 256 > 0
  }

  /** The transport does not garble the frame, if it sends one at all. */
  predicate Intact(m: Message, useCrc: bool) {
    |m.payload| <= MAX_DATA_SIZE ==> |WireOf(m, useCrc)| <= 256
  }

  function FrameOf(m: Message, useCrc: bool): Frame {
    MakeFrame(m.frameType, m.payload, useCrc)
  }

  predicate TruthfulAt(log: seq<Event>, i: nat)
    requires i < |log|
  {
    IsWrite(log[i]) ==> log[i].ok == Accepted(log[i].message, log[i].useCrc)
  }

  /** Every write in the log reported success exactly if the transport accepts the message. */
  predicate Truthful(log: seq<Event>) {
    forall i :: 0 <= i < |log| ==> TruthfulAt(log, i)
  }

  /** The writes in a log. */
  function Writes(log: seq<Event>): (writes: seq<Event>)
    ensures forall i :: 0 <= i < |writes| ==> IsWrite(writes[i])
  {
    if log == [] then []
    else Writes(log[..|log| - 1]) + if IsWrite(log[|log| - 1]) then [log[|log| - 1]] else []
  }

  /** What a write of a message puts on the wire: nothing if it is too long, otherwise its frame, intact or garbled. */
  predicate PieceOf(e: Event, piece: seq<byte>)
    requires IsWrite(e)
  {
    if |e.message.payload| > MAX_DATA_SIZE then piece == [] else Spelled(piece, WireOf(e.message, e.useCrc))
  }

  predicate PieceAt(writes: seq<Event>, pieces: seq<seq<byte>>, i: nat)
    requires i < |writes| == |pieces|
  {
    IsWrite(writes[i]) && PieceOf(writes[i], pieces[i])
  }

  /** The pieces are what these writes put on the wire. */
  predicate Carried(writes: seq<Event>, pieces: seq<seq<byte>>) {
    |writes| == |pieces| && forall i :: 0 <= i < |pieces| ==> PieceAt(writes, pieces, i)
  }

  /**
   The bytes sent are made up of one piece for each write in the log, in order. The bound variable stands for Writes(log)
   and keeps it from being unfolded where the predicate is only carried along in an invariant.
   */
  predicate MadeOf(sent: seq<byte>, log: seq<Event>, pieces: seq<seq<byte>>) {
    sent == Deframer.Flatten(pieces) && forall writes :: writes == Writes(log) ==> Carried(writes, pieces)
  }

  ghost predicate OnWire(sent: seq<byte>, log: seq<Event>) {
    exists pieces :: MadeOf(sent, log, pieces)
  }

  lemma {:induction false} FlattenSnoc(pieces: seq<seq<byte>>, piece: seq<byte>)
    ensures Deframer.Flatten(pieces + [piece]) == Deframer.Flatten(pieces) + piece
  {
    FlattenConcat(pieces, [piece]);
    assert [piece][1..] == [];
    EmptyBehind(piece);
  }

  lemma {:induction false} FlattenConcat(a: seq<seq<byte>>, b: seq<seq<byte>>)
    ensures Deframer.Flatten(a + b) == Deframer.Flatten(a) + Deframer.Flatten(b)
  {
    if a == [] {
      EmptyInFront(b);
      EmptyInFront(Deframer.Flatten(b));
    } else {
      assert (a + b)[0] == a[0] && (a + b)[1..] == a[1..] + b;
      FlattenConcat(a[1..], b);
      ConcatAssociative(a[0], Deframer.Flatten(a[1..]), Deframer.Flatten(b));
    }
  }

  lemma CarriedSnoc(writes: seq<Event>, pieces: seq<seq<byte>>, e: Event, piece: seq<byte>)
    requires Carried(writes, pieces) && IsWrite(e) && PieceOf(e, piece)
    ensures Carried(writes + [e], pieces + [piece])
  {
    forall i | 0 <= i < |pieces + [piece]|
      ensures PieceAt(writes + [e], pieces + [piece], i)
    {
      if i < |pieces| {
        assert PieceAt(writes, pieces, i);
      }
    }
  }

  /** A write adds its piece. */
  lemma WriteOnWire(before: seq<byte>, log: seq<Event>, e: Event, piece: seq<byte>)
    requires OnWire(before, log) && IsWrite(e) && PieceOf(e, piece)
    ensures OnWire(before + piece, log + [e])
  {
    var pieces :| MadeOf(before, log, pieces);
    assert Carried(Writes(log), pieces);
    assert (log + [e])[..|log|] == log;
    CarriedSnoc(Writes(log), pieces, e, piece);
    FlattenSnoc(pieces, piece);
    assert MadeOf(before + piece, log + [e], pieces + [piece]);
  }

  lemma DepartureOnWire(sent: seq<byte>, log: seq<Event>, e: Event)
    requires OnWire(sent, log) && !IsWrite(e)
    ensures OnWire(sent, log + [e])
  {
    var pieces :| MadeOf(sent, log, pieces);
    assert Carried(Writes(log), pieces);
    assert (log + [e])[..|log|] == log;
    EmptyBehind(Writes(log));
    assert MadeOf(sent, log + [e], pieces);
  }

  lemma NothingOnWire()
    ensures OnWire([], [])
  {
    assert MadeOf([], [], []);
  }

  lemma TruthfulSnoc(log: seq<Event>, e: Event)
    requires Truthful(log) && (IsWrite(e) ==> e.ok == Accepted(e.message, e.useCrc))
    ensures Truthful(log + [e])
  {
    forall i | 0 <= i < |log + [e]|
      ensures TruthfulAt(log + [e], i)
    {
      assert i < |log| ==> TruthfulAt(log, i);
    }
  }

  // ----- what arrives -----

  /** The frames of the messages of these writes, those too long for any frame left out. */
  function FramesOf(writes: seq<Event>): seq<Frame>
    requires forall i :: 0 <= i < |writes| ==> IsWrite(writes[i])
  {
    if writes == [] then []
    else
      var e := writes[|writes| - 1];
      assert IsWrite(e);
      FramesOf(writes[..|writes| - 1])
      + if |e.message.payload| <= MAX_DATA_SIZE then [FrameOf(e.message, e.useCrc)] else []
  }

  predicate IntactAt(writes: seq<Event>, i: nat)
    requires i < |writes|
  {
    IsWrite(writes[i]) && Intact(writes[i].message, writes[i].useCrc)
  }

  predicate AllIntact(writes: seq<Event>) {
    forall i :: 0 <= i < |writes| ==> IntactAt(writes, i)
  }

  /** An intact piece is the frame; it is handed over whole and leaves the receiver as it was before. */
  lemma PieceDelivered(e: Event, piece: seq<byte>)
    requires IsWrite(e) && PieceOf(e, piece) && Intact(e.message, e.useCrc)
    ensures Deframer.Run(Deframer.State(Deframer.Hunt, piece))
            == Deframer.Result(if |e.message.payload| <= MAX_DATA_SIZE then [FrameOf(e.message, e.useCrc)] else [],
                               Deframer.State(Deframer.Hunt, []))
  {
    if |e.message.payload| <= MAX_DATA_SIZE {
      var item := Resync.Item([], e.message.frameType, e.message.payload, e.useCrc);
      Resync.ItemDelivered(item, []);
      EmptyBehind(piece);
      EmptyInFront(piece);
    }
  }

  lemma {:induction false} PiecesDelivered(writes: seq<Event>, pieces: seq<seq<byte>>)
    requires Carried(writes, pieces) && AllIntact(writes)
    requires forall i :: 0 <= i < |writes| ==> IsWrite(writes[i])
    ensures Deframer.Run(Deframer.State(Deframer.Hunt, Deframer.Flatten(pieces)))
            == Deframer.Result(FramesOf(writes), Deframer.State(Deframer.Hunt, []))
    decreases |writes|
  {
    if writes != [] {
      var n := |writes| - 1;
      CarriedFront(writes, pieces);
      PiecesDelivered(writes[..n], pieces[..n]);
      assert PieceAt(writes, pieces, n) && IntactAt(writes, n);
      PieceDelivered(writes[n], pieces[n]);
      assert pieces == pieces[..n] + [pieces[n]];
      FlattenSnoc(pieces[..n], pieces[n]);
      Deframer.RunInTwo(Deframer.Hunt, Deframer.Flatten(pieces[..n]), pieces[n]);
      EmptyInFront(pieces[n]);
    }
  }

  lemma CarriedFront(writes: seq<Event>, pieces: seq<seq<byte>>)
    requires Carried(writes, pieces) && AllIntact(writes) && writes != []
    ensures Carried(writes[..|writes| - 1], pieces[..|writes| - 1]) && AllIntact(writes[..|writes| - 1])
  {
    var n := |writes| - 1;
    forall i | 0 <= i < n
      ensures PieceAt(writes[..n], pieces[..n], i) && IntactAt(writes[..n], i)
    {
      assert PieceAt(writes, pieces, i) && IntactAt(writes, i);
    }
  }

  /**
   From the history of one end to the frames parsed at the other: however the bytes that a handler has sent are cut into
   chunks, if none of its frames was garbled a receiver gets exactly the frames written, in that order.
   */
  lemma WritesArrive(sent: seq<byte>, log: seq<Event>, chunks: seq<seq<byte>>)
    requires OnWire(sent, log) && AllIntact(Writes(log)) && Deframer.Flatten(chunks) == sent
    ensures Deframer.FeedAll(Deframer.State(Deframer.Hunt, []), chunks)
            == Deframer.Result(FramesOf(Writes(log)), Deframer.State(Deframer.Hunt, []))
  {
    var pieces :| MadeOf(sent, log, pieces);
    assert Carried(Writes(log), pieces);
    PiecesDelivered(Writes(log), pieces);
    Deframer.ChunkingIndependent(Deframer.State(Deframer.Hunt, []), chunks);
    EmptyInFront(sent);
  }

  /**
   A garbled frame costs no other frame that is followed by enough: wherever in the history an intact frame was written, a
   receiver that loses no bytes hands it over if its piece and those after it contain 236 bytes other than 0xFF.
   */
  lemma IntactWriteArrives(sent: seq<byte>, log: seq<Event>, pieces: seq<seq<byte>>, i: nat, chunks: seq<seq<byte>>)
    returns (before: seq<Frame>, after: seq<Frame>)
    requires MadeOf(sent, log, pieces) && Deframer.Flatten(chunks) == sent
    requires i < |pieces| == |Writes(log)|
    requires var e := Writes(log)[i]; |e.message.payload| <= MAX_DATA_SIZE && Intact(e.message, e.useCrc)
    requires Resync.LARGEST_BLOCK <= Stuffing.Counted(pieces[i] + Deframer.Flatten(pieces[i + 1..]))
    ensures var e := Writes(log)[i];
            Deframer.FeedAll(Deframer.State(Deframer.Hunt, []), chunks).frames
            == before + ([FrameOf(e.message, e.useCrc)] + after)
  {
    var e, garbage, rest := Writes(log)[i], Deframer.Flatten(pieces[..i]), Deframer.Flatten(pieces[i + 1..]);
    assert Carried(Writes(log), pieces);
    assert PieceAt(Writes(log), pieces, i);
    CutAtPiece(pieces, i);
    before, after := Resync.FrameFound(e.message.frameType, e.message.payload, e.useCrc, garbage, rest);
    Deframer.ChunkingIndependent(Deframer.State(Deframer.Hunt, []), chunks);
    EmptyInFront(sent);
  }

  lemma CutAtPiece(pieces: seq<seq<byte>>, i: nat)
    requires i < |pieces|
    ensures Deframer.Flatten(pieces)
            == Deframer.Flatten(pieces[..i]) + (pieces[i] + Deframer.Flatten(pieces[i + 1..]))
  {
    assert pieces == pieces[..i] + pieces[i..] && pieces[i..][1..] == pieces[i + 1..];
    FlattenConcat(pieces[..i], pieces[i..]);
  }

  // ----- what the transport refuses -----

  lemma Below512(size: nat)
    requires 0 < size < 512
    ensures size % 256 > 0 <==> size != 256
  {}

  /** A message that is not too long is refused only if its frame takes 256 bytes. */
  lemma RefusedSize(m: Message, useCrc: bool)
    requires |m.payload| <= MAX_DATA_SIZE
    ensures Accepted(m, useCrc) <==> |WireOf(m, useCrc)| != 256
  {
    var f := FrameOf(m, useCrc);
    Stuffing.StuffLength(HeaderBytes(f.frameType, f.useCrc, ByteOf(|f.data|)));
    Stuffing.StuffLength(BodyBytes(f));
    Below512(|WireOf(m, useCrc)|);
  }

  /**
   A request leaves silently if and only if it is one that the transport refuses, too long or of exactly 256 bytes on the
   wire; it does so after as many futile writes as its budget has.
   */
  lemma DroppedIffRefused(s: State, k: nat)
    requires Inv(s) && Truthful(s.log) && k < |s.log| && IsOutcome(s.log[k])
    ensures var id := s.log[k].id;
            && id < |s.requests|
            && (s.log[k].Dropped? <==> !Accepted(s.requests[id].message, s.requests[id].useCrc))
            && (s.log[k].Dropped? ==> Attempts(s.log[..k], id) == s.requests[id].retries)
  {
    OutcomeHasCause(s, k);
    var j :| LastWriteBefore(s.log, j, k) && s.log[j].id == s.log[k].id && Cause(s, s.log[j], k);
    EventAt(s.requests, s.log, j);
    assert TruthfulAt(s.log, j);
  }
}
