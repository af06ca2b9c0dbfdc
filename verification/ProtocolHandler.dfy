/**
 The protocol handler on top of the transport, proved to take the steps of Transactions and to put on the wire what its
 history says.
 */
module Protocol {
  import opened Sequences
  import opened Bytes
  import opened FrameFormat
  import opened HandlerWire
  import opened TransactionHistory
  import opened TransactionRuns
  import opened Transactions
  import opened Transport
  import Deframer
  import Resync
  import Stuffing
  import WireBuffer

  datatype ProtocolState = IDLE | WAITING_FOR_ANSWER

  /** The arrivals are the frames, each with the loop that parsed it. */
  predicate Matches(arrivals: seq<Arrival>, frames: seq<Frame>) {
    |arrivals| == |frames| && forall i :: 0 <= i < |frames| ==> arrivals[i].frame == frames[i]
  }

  /** The same call; the success of an answer is found out by making it. */
  predicate SameCall(c: Call, done: Call) {
    if c.SendAnswer?
    then done.SendAnswer? && done.answer == c.answer && done.choice == c.choice && done.at == c.at
    else done == c
  }

  predicate SameCalls(calls: seq<Call>, done: seq<Call>) {
    |calls| == |done| && forall i :: 0 <= i < |calls| ==> SameCall(calls[i], done[i])
  }

  lemma CanRun(s: State)
    requires Inv(s)
    ensures Runnable(s)
  {}

  class ProtocolHandler {
    const transport: TransportLevelHandler
    var outgoingMessages: seq<OutgoingItem>
    var state: ProtocolState
    var processingMessage: bool
    var incomingMessageCrcStatus: bool
    var answerSent: bool
    var lastMessageType: byte
    var answerTimeoutInterval: int
    var cooldownInterval: int
    var cooldownTimePoint: int
    var answerTimePoint: int
    var retryTimePoint: int

    /** The history; start is how much the stream had carried before. */
    ghost const start: nat
    ghost var arrivals: seq<Arrival>
    ghost var log: seq<Event>
    ghost var requests: seq<OutgoingItem>
    ghost var loops: nat

    ghost function Abs(): State
      reads this
    {
      State(state.WAITING_FOR_ANSWER?, outgoingMessages, arrivals, lastMessageType, cooldownTimePoint, answerTimePoint,
            retryTimePoint, answerTimeoutInterval, cooldownInterval, processingMessage, answerSent,
            incomingMessageCrcStatus, log, requests, loops)
    }

    /** The bytes sent by this handler. */
    ghost function SentBytes(): seq<byte>
      requires start <= |transport.stream.sent|
      reads transport.stream`sent
    {
      transport.stream.sent[start..]
    }

    /** The history agrees with the incoming queue, with the transport's answers and with the bytes sent. */
    ghost predicate Linked()
      reads this`arrivals, this`log, transport`incomingQueue, transport.stream`sent
    {
      && Matches(arrivals, transport.incomingQueue)
      && start <= |transport.stream.sent| && OnWire(SentBytes(), log) && Truthful(log)
    }

    ghost predicate Valid()
      reads this, transport, transport.buffer, transport.buffer.buffer, transport.currentFrame, transport.stream
    {
      transport.Idle() && Linked() && Inv(Abs())
    }

    constructor (stream: ProtocolStream, bufferSize: nat)
      ensures Valid() && Abs() == Initial && transport.stream == stream && start == |stream.sent|
      ensures fresh(transport) && fresh(transport.buffer) && fresh(transport.buffer.buffer) && fresh(transport.currentFrame)
    {
      transport := new TransportLevelHandler(stream, bufferSize);
      outgoingMessages, state := [], IDLE;
      processingMessage, incomingMessageCrcStatus, answerSent, lastMessageType := false, false, false, 0;
      answerTimeoutInterval, cooldownInterval := DEFAULT_ANSWER_TIMEOUT, DEFAULT_COOLDOWN_INTERVAL;
      cooldownTimePoint, answerTimePoint, retryTimePoint := 0, 0, 0;
      start, arrivals, log, requests, loops := |stream.sent|, [], [], [], 0;
      new;
      InitialInv();
      assert SentBytes() == [];
      NothingOnWire();
    }

    // ----- what the application and the handlers can call -----

    method Enqueue(item: OutgoingItem)
      modifies this`outgoingMessages, this`requests
      ensures Abs() == Transactions.Enqueue(old(Abs()), item)
    {
      outgoingMessages := outgoingMessages + [item];
      requests := requests + [item];
    }

    method SendMessage(message: Message, useCrc: bool, numRepeats: nat, interval: int)
      modifies this`outgoingMessages, this`requests
      ensures Abs() == Perform(old(Abs()), Call.SendMessage(message, useCrc, numRepeats, interval))
    {
      var repeats := if numRepeats < MAX_PACKET_RETRIES then numRepeats else MAX_PACKET_RETRIES;
      Enqueue(OutgoingItem(message, useCrc, false, repeats + 1, interval));
    }

    method SendMessageWithoutAnswer(message: Message, useCrc: bool)
      modifies this`outgoingMessages, this`requests
      ensures Abs() == Perform(old(Abs()), Call.SendMessageWithoutAnswer(message, useCrc))
    {
      Enqueue(OutgoingItem(message, useCrc, true, 1, 0));
    }

    method Transmit(message: Message, useCrc: bool) returns (isSuccess: bool, ghost piece: seq<byte>)
      requires start <= |transport.stream.sent|
      modifies transport.stream`sent
      ensures isSuccess == Accepted(message, useCrc)
      ensures if |message.payload| > MAX_DATA_SIZE then piece == [] else WireBuffer.Spelled(piece, WireOf(message, useCrc))
      ensures start <= |transport.stream.sent| && SentBytes() == old(SentBytes()) + piece
    {
      ghost var before := transport.stream.sent;
      var size := transport.SendData(message.frameType, message.payload, useCrc);
      isSuccess := size > 0;
      piece := transport.stream.sent[|before|..];
      assert transport.stream.sent == before + piece;
      SuffixOfConcat(before, piece, start);
    }

    /** Sends a message and starts the cooldown, whatever comes of it; e is how the write goes into the history. */
    method WriteMessage(message: Message, useCrc: bool, at: int, ghost e: Event) returns (isSuccess: bool)
      requires Linked() && IsWrite(e) && e.message == message && e.useCrc == useCrc
      modifies this`cooldownTimePoint, this`log, transport.stream`sent
      ensures Linked() && cooldownTimePoint == at + cooldownInterval && log == old(log) + [e.(ok := isSuccess)]
    {
      ghost var before, piece := SentBytes(), [];
      isSuccess, piece := Transmit(message, useCrc);
      cooldownTimePoint := at + cooldownInterval;
      WriteOnWire(before, log, e.(ok := isSuccess), piece);
      TruthfulSnoc(log, e.(ok := isSuccess));
      log := log + [e.(ok := isSuccess)];
    }

    method WriteAnswer(answer: Message, useCrc: bool, at: int) returns (ghost e: Event)
      requires Linked()
      modifies this`answerSent, this`cooldownTimePoint, this`log, transport.stream`sent
      ensures Linked() && e.AnswerWritten? && e == AnswerWritten(answer, useCrc, e.ok, at + cooldownInterval)
      ensures Abs() == Transactions.WriteAnswer(old(Abs()), e)
    {
      e := AnswerWritten(answer, useCrc, false, at + cooldownInterval);
      answerSent := WriteMessage(answer, useCrc, at, e);
      e := AnswerWritten(answer, useCrc, answerSent, e.cooldownAt);
    }

    /** Answers the message being handled, with its CRC flag unless another is chosen. */
    method SendAnswer(answer: Message, choice: Option<bool>, at: int) returns (ghost ok: bool)
      requires Linked()
      modifies this`answerSent, this`cooldownTimePoint, this`log, transport.stream`sent
      ensures Linked() && Abs() == Perform(old(Abs()), Call.SendAnswer(answer, choice, ok, at))
    {
      ok := false;
      if processingMessage {
        ghost var e := WriteAnswer(answer, if choice.Some? then choice.value else incomingMessageCrcStatus, at);
        ok := e.ok;
      }
    }

    method NoAnswer()
      modifies this`answerSent
      ensures Abs() == Perform(old(Abs()), Call.NoAnswer)
    {
      if processingMessage {
        answerSent := true;
      }
    }

    method SetAnswerTimeout(answerTimeout: int)
      modifies this`answerTimeoutInterval
      ensures Abs() == Perform(old(Abs()), Call.SetAnswerTimeout(answerTimeout))
    {
      answerTimeoutInterval := answerTimeout;
    }

    method SetCooldownInterval(interval: int)
      modifies this`cooldownInterval
      ensures Abs() == Perform(old(Abs()), Call.SetCooldownInterval(interval))
    {
      cooldownInterval := interval;
    }

    method MakeCall(c: Call) returns (ghost done: Call)
      requires Linked()
      modifies this`outgoingMessages, this`requests, this`answerTimeoutInterval, this`cooldownInterval
      modifies this`answerSent, this`cooldownTimePoint, this`log, transport.stream`sent
      ensures Linked() && SameCall(c, done) && Abs() == Perform(old(Abs()), done)
    {
      done := c;
      match c
      case SendMessage(m, useCrc, numRepeats, interval) => SendMessage(m, useCrc, numRepeats, interval);
      case SendMessageWithoutAnswer(m, useCrc) => SendMessageWithoutAnswer(m, useCrc);
      case SendAnswer(answer, choice, _, at) =>
        ghost var ok := SendAnswer(answer, choice, at);
        done := Call.SendAnswer(answer, choice, ok, at);
      case NoAnswer => NoAnswer();
      case SetAnswerTimeout(answerTimeout) => SetAnswerTimeout(answerTimeout);
      case SetCooldownInterval(interval) => SetCooldownInterval(interval);
    }

    /** A call made by the application between loops. */
    method CallFromOutside(c: Call) returns (ghost done: Call)
      requires Valid()
      modifies this`outgoingMessages, this`requests, this`answerTimeoutInterval, this`cooldownInterval
      modifies this`answerSent, this`cooldownTimePoint, this`log, transport.stream`sent
      ensures Valid() && SameCall(c, done) && Abs() == Perform(old(Abs()), done)
    {
      done := MakeCall(c);
      CallKeeps(old(Abs()), done);
    }

    /** A handler of the user, as the calls it makes. */
    method RunHandler(calls: seq<Call>) returns (ghost done: seq<Call>)
      requires Linked()
      modifies this`outgoingMessages, this`requests, this`answerTimeoutInterval, this`cooldownInterval
      modifies this`answerSent, this`cooldownTimePoint, this`log, transport.stream`sent
      ensures Linked() && SameCalls(calls, done) && Abs() == PerformAll(old(Abs()), done)
    {
      done := [];
      for i := 0 to |calls|
        invariant Linked() && SameCalls(calls[..i], done) && Abs() == PerformAll(old(Abs()), done)
      {
        ghost var one := MakeCall(calls[i]);
        PerformAllSnoc(old(Abs()), done, one);
        done := done + [one];
      }
      assert calls[..|calls|] == calls;
    }

    // ----- the loop -----

    /** Takes the request at the front from the queue. */
    method PopRequest(ghost e: Event, now: int)
      requires Linked() && outgoingMessages != [] && IsOutcome(e) && e.at == now
      modifies this`outgoingMessages, this`retryTimePoint, this`log
      ensures Linked() && Abs() == Leave(old(Abs()), e)
    {
      outgoingMessages := outgoingMessages[1..];
      retryTimePoint := now;
      DepartureOnWire(SentBytes(), log, e);
      TruthfulSnoc(log, e);
      log := log + [e];
    }

    /** Writes the request at the front and charges the write to its budget. */
    method WriteFront(now: int, at: int) returns (isSuccess: bool)
      requires Linked() && outgoingMessages != [] && outgoingMessages[0].retries > 0 && Front(Abs()) >= 0
      modifies this`outgoingMessages, this`cooldownTimePoint, this`log, transport.stream`sent
      ensures Linked() && Abs() == Written(old(Abs()), AttemptOf(old(Abs()), now, isSuccess, at))
    {
      var item := outgoingMessages[0];
      isSuccess := WriteMessage(item.message, item.useCrc, at, AttemptOf(Abs(), now, false, at));
      FrontReplaced(outgoingMessages, item.(retries := item.retries - 1));
      outgoingMessages := outgoingMessages[0 := item.(retries := item.retries - 1)];
    }

    /** A request that wants no answer leaves when it is written; any other is waited for. */
    method TryRequest(now: int, at: int) returns (ghost ok: bool)
      requires Linked() && outgoingMessages != [] && outgoingMessages[0].retries > 0 && Front(Abs()) >= 0
      modifies this`outgoingMessages, this`state, this`lastMessageType, this`cooldownTimePoint, this`answerTimePoint
      modifies this`retryTimePoint, this`log, transport.stream`sent
      ensures Linked() && Abs() == TryFront(old(Abs()), now, ok, at)
      ensures ok && !old(outgoingMessages[0].noAnswer) ==>
                && state == WAITING_FOR_ANSWER && answerTimePoint == now + answerTimeoutInterval
                && retryTimePoint == now + old(outgoingMessages[0].retryInterval)
    {
      var item := outgoingMessages[0];
      ghost var id := Front(Abs());
      var isSuccess := WriteFront(now, at);
      ok := isSuccess;
      if isSuccess {
        if item.noAnswer {
          lastMessageType := item.message.frameType;
          PopRequest(Sent(id, now), now);
        } else {
          StartWaiting(item.message.frameType, now, item.retryInterval);
        }
      }
    }

    method StartWaiting(frameType: byte, now: int, retryInterval: int)
      modifies this`state, this`lastMessageType, this`answerTimePoint, this`retryTimePoint
      ensures Abs() == old(Abs()).(lastType := frameType, waiting := true, answerAt := now + answerTimeoutInterval,
                                   retryAt := now + retryInterval)
    {
      lastMessageType := frameType;
      state := WAITING_FOR_ANSWER;
      answerTimePoint := now + answerTimeoutInterval;
      retryTimePoint := now + retryInterval;
    }

    /** Lets the handler loose on the last of the frames at hand; any others are dropped. */
    method HandleMessage(handler: seq<Call>) returns (ghost done: seq<Call>)
      requires Linked()
      modifies this`outgoingMessages, this`requests, this`answerTimeoutInterval, this`cooldownInterval
      modifies this`answerSent, this`cooldownTimePoint, this`log, transport.stream`sent
      modifies this`arrivals, this`incomingMessageCrcStatus, this`processingMessage, transport`incomingQueue
      ensures Linked() && SameCalls(handler, done) && Abs() == HandleIncoming(old(Abs()), done)
      ensures transport.incomingQueue == []
      ensures var frames := old(transport.incomingQueue);
              frames != [] ==> incomingMessageCrcStatus == frames[|frames| - 1].useCrc
    {
      done := handler;
      if transport.Available() > 0 {
        var frame := TakeLast();
        done := Handle(frame, handler);
      }
    }

    method Handle(frame: Frame, handler: seq<Call>) returns (ghost done: seq<Call>)
      requires Linked()
      modifies this`outgoingMessages, this`requests, this`answerTimeoutInterval, this`cooldownInterval
      modifies this`answerSent, this`cooldownTimePoint, this`log, transport.stream`sent
      modifies this`incomingMessageCrcStatus, this`processingMessage
      ensures Linked() && SameCalls(handler, done) && incomingMessageCrcStatus == frame.useCrc
      ensures var before := old(Abs()).(incomingCrc := frame.useCrc, processing := true, answerSent := false);
              Abs() == PerformAll(before, done).(processing := false)
    {
      BeginHandling(frame.useCrc);
      done := RunHandler(handler);
      processingMessage := false;
    }

    method BeginHandling(useCrc: bool)
      modifies this`incomingMessageCrcStatus, this`processingMessage, this`answerSent
      ensures incomingMessageCrcStatus == useCrc
      ensures Abs() == old(Abs()).(incomingCrc := useCrc, processing := true, answerSent := false)
    {
      incomingMessageCrcStatus := useCrc;
      processingMessage := true;
      answerSent := false;
    }

    method TakeLast() returns (frame: Frame)
      requires Linked() && transport.incomingQueue != []
      modifies this`arrivals, transport`incomingQueue
      ensures Linked() && arrivals == [] && transport.incomingQueue == []
      ensures frame == old(arrivals[|arrivals| - 1].frame) == old(transport.incomingQueue[|transport.incomingQueue| - 1])
    {
      var messagesCount := transport.Available();
      if messagesCount > 1 {
        transport.Drop(messagesCount - 1);
      }
      var popped := transport.Pop();
      frame := popped.value;
      arrivals := [];
    }

    method IdleLoop(now: int, handler: seq<Call>, at: int, ghost arrived: seq<Frame>) returns (ghost t: Tick)
      requires Linked() && state == IDLE && Front(Abs()) >= 0
      modifies this, transport`incomingQueue, transport.stream`sent
      ensures Linked() && SameCalls(handler, t.calls) && t.arrived == arrived && t.now == now && t.at == at
      ensures Abs() == IdleStep(old(Abs()), t)
    {
      ghost var done := HandleMessage(handler);
      t := Tick(arrived, now, done, false, at);
      HandleIncomingKeepsFront(old(Abs()), done);
      if outgoingMessages != [] && now >= cooldownTimePoint && now >= retryTimePoint {
        if outgoingMessages[0].retries > 0 {
          ghost var ok := TryRequest(now, at);
          t := t.(ok := ok);
        } else {
          PopRequest(Dropped(Front(Abs()), now), now);
        }
      }
    }

    /** The budget is used up: the request leaves and the timeout handler runs. */
    method TimeOut(now: int, handler: seq<Call>) returns (ghost done: seq<Call>)
      requires Linked() && outgoingMessages != [] && Front(Abs()) >= 0
      modifies this, transport.stream`sent
      ensures Linked() && SameCalls(handler, done) && state == old(state)
      ensures var s := old(Abs()); Abs() == PerformAll(Leave(s, TimedOut(Front(s), s.lastType, now)), done)
    {
      PopRequest(TimedOut(Front(Abs()), lastMessageType, now), now);
      done := RunHandler(handler);
    }

    /** The frame at hand is the answer: its handler runs and then the request leaves. */
    method TakeAnswer(now: int, handler: seq<Call>) returns (ghost done: seq<Call>)
      requires Linked() && outgoingMessages != [] && Front(Abs()) >= 0 && transport.incomingQueue != []
      modifies this, transport`incomingQueue, transport.stream`sent
      ensures Linked() && SameCalls(handler, done)
      ensures var s := old(Abs());
              && s.incoming != [] && PerformAll(s.(incoming := s.incoming[1..]), done).queue != []
              && Abs() == Leave(PerformAll(s.(incoming := s.incoming[1..]), done),
                                Answered(Front(s), s.lastType, s.incoming[0], now))
    {
      ghost var s := Abs();
      var _ := PopFrame();
      done := RunHandler(handler);
      PerformAllKeepsQueue(s.(incoming := s.incoming[1..]), done);
      PopRequest(Answered(Front(s), s.lastType, s.incoming[0], now), now);
    }

    method PopFrame() returns (frame: Frame)
      requires Linked() && transport.incomingQueue != []
      modifies this`arrivals, transport`incomingQueue
      ensures Linked() && old(arrivals) != [] && frame == old(arrivals[0].frame)
      ensures Abs() == old(Abs()).(incoming := old(Abs()).incoming[1..])
    {
      var popped := transport.Pop();
      frame := popped.value;
      arrivals := arrivals[1..];
    }

    method WaitingLoop(now: int, handler: seq<Call>, ghost at: int, ghost arrived: seq<Frame>) returns (ghost t: Tick)
      requires Linked() && state == WAITING_FOR_ANSWER && outgoingMessages != [] && Front(Abs()) >= 0
      modifies this, transport`incomingQueue, transport.stream`sent
      ensures Linked() && SameCalls(handler, t.calls) && t.arrived == arrived && t.now == now && t.at == at
      ensures Abs() == WaitingStep(old(Abs()), t)
    {
      ghost var done := handler;
      if now > answerTimePoint {
        if outgoingMessages[0].retries == 0 {
          done := TimeOut(now, handler);
        }
        state := IDLE;
      } else if transport.Available() > 0 {
        done := TakeAnswer(now, handler);
        state := IDLE;
      }
      t := Tick(arrived, now, done, false, at);
    }

    /** What a loop does with the frames at hand. */
    method Act(now: int, handler: seq<Call>, at: int, ghost arrived: seq<Frame>) returns (ghost t: Tick)
      requires Linked() && Runnable(Abs())
      modifies this, transport`incomingQueue, transport.stream`sent
      ensures Linked() && SameCalls(handler, t.calls) && t.arrived == arrived && t.now == now && t.at == at
      ensures Abs() == ActStep(old(Abs()), t)
    {
      if state == IDLE {
        t := IdleLoop(now, handler, at, arrived);
      } else {
        t := WaitingLoop(now, handler, at, arrived);
      }
    }

    /** None of this is of any concern to the parser. */
    method ActApart(now: int, handler: seq<Call>, at: int, ghost arrived: seq<Frame>) returns (ghost t: Tick)
      requires transport.Idle() && Linked() && Runnable(Abs())
      modifies this, transport`incomingQueue, transport.stream`sent
      ensures transport.Idle() && Linked()
      ensures SameCalls(handler, t.calls) && t.arrived == arrived && t.now == now && t.at == at
      ensures Abs() == ActStep(old(Abs()), t)
    {
      t := Act(now, handler, at, arrived);
    }

    /** Reads and parses what the stream has; the frames join the incoming queue. */
    method Receive()
      requires transport.Idle() && Linked()
      modifies this`arrivals, this`loops, transport, transport.stream`arrived
      modifies transport.buffer, transport.buffer.buffer, transport.currentFrame
      ensures transport.Idle() && Linked()
      ensures Abs() == Transactions.Receive(old(Abs()), Deframer.Run(old(transport.NextRead())).frames)
      ensures transport.stream.arrived == old(transport.stream.arrived[transport.NextCount()..])
      ensures transport.chunks == old(transport.NextChunks())
      ensures transport.parsed == old(transport.NextParsed()) + Deframer.Run(old(transport.NextRead())).frames
    {
      ghost var before, frames := transport.incomingQueue, Deframer.Run(transport.NextRead()).frames;
      transport.ReadAndParse();
      NoteArrivals(before, frames);
    }

    ghost method NoteArrivals(before: seq<Frame>, frames: seq<Frame>)
      requires Matches(arrivals, before) && transport.incomingQueue == before + frames
      modifies this`arrivals, this`loops
      ensures Matches(arrivals, transport.incomingQueue) && Abs() == Transactions.Receive(old(Abs()), frames)
    {
      loops := loops + 1;
      arrivals := arrivals + Arrivals(frames, loops);
    }

    /**
     One loop. What it parses, given the clock readings and the calls made by the handler that runs if one does, decides
     the step that it takes. An overflow of the ring buffer costs the bytes that it drops and nothing else.
     */
    method Loop(now: int, handler: seq<Call>, at: int) returns (ghost t: Tick)
      requires Valid()
      modifies this, transport, transport.stream, transport.buffer, transport.buffer.buffer, transport.currentFrame
      ensures Valid()
      ensures t.arrived == Deframer.Run(old(transport.NextRead())).frames
      ensures SameCalls(handler, t.calls) && t.now == now && t.at == at
      ensures Abs() == LoopStep(old(Abs()), t)
      ensures transport.stream.arrived == old(transport.stream.arrived[transport.NextCount()..])
      ensures transport.chunks == old(transport.NextChunks())
      ensures transport.parsed == old(transport.NextParsed()) + t.arrived
    {
      ghost var frames := Deframer.Run(transport.NextRead()).frames;
      CanRun(Abs());
      Receive();
      t := ActApart(now, handler, at, frames);
      LoopKeeps(old(Abs()), t);
    }

    /** Whoever receives the bytes sent, in whatever chunks, gets the frames that the history says were written. */
    lemma BytesSentAreReadBack(all: seq<seq<byte>>)
      requires Valid() && AllIntact(Writes(log)) && Deframer.Flatten(all) == SentBytes()
      ensures Deframer.FeedAll(Deframer.State(Deframer.Hunt, []), all)
              == Deframer.Result(FramesOf(Writes(log)), Deframer.State(Deframer.Hunt, []))
    {
      WritesArrive(SentBytes(), log, all);
    }

    /**
     Two handlers on one line: if what this one has read since its last overflow is what the other has sent, and none of
     the other's frames was garbled, then the frames that its loops have parsed are those the other has written.
     */
    lemma ParsedIsWritten(peer: ProtocolHandler)
      requires Valid() && peer.Valid() && AllIntact(Writes(peer.log))
      requires Deframer.Flatten(transport.chunks) == peer.SentBytes()
      ensures transport.parsed == FramesOf(Writes(peer.log))
    {
      WritesArrive(peer.SentBytes(), peer.log, transport.chunks);
      transport.ParsedOfChunks();
    }

    /**
     Garbled frames or not, overflows or not: if what this handler has read since its last overflow ends with the piece of
     an intact frame of the other and some bytes more, with 236 other than 0xFF among them, it has parsed that frame.
     */
    lemma IntactWriteIsParsed(peer: ProtocolHandler, pieces: seq<seq<byte>>, i: nat, g: seq<byte>, t: seq<byte>)
      returns (before: seq<Frame>, after: seq<Frame>)
      requires Valid() && peer.Valid() && MadeOf(peer.SentBytes(), peer.log, pieces)
      requires i < |pieces| == |Writes(peer.log)|
      requires var e := Writes(peer.log)[i]; |e.message.payload| <= MAX_DATA_SIZE && Intact(e.message, e.useCrc)
      requires Deframer.Flatten(transport.chunks) == g + (pieces[i] + t)
      requires Resync.LARGEST_BLOCK <= Stuffing.Counted(pieces[i] + t)
      ensures var e := Writes(peer.log)[i];
              transport.parsed == before + ([HandlerWire.FrameOf(e.message, e.useCrc)] + after)
    {
      var e := Writes(peer.log)[i];
      assert Carried(Writes(peer.log), pieces);
      assert PieceAt(Writes(peer.log), pieces, i);
      before, after := transport.NextFrameArrives(e.message.frameType, e.message.payload, e.useCrc, g, t);
    }
  }

  lemma FrontReplaced<T>(s: seq<T>, x: T)
    requires s != []
    ensures s[0 := x] == [x] + s[1..]
  {}

  lemma SuffixOfConcat<T>(a: seq<T>, b: seq<T>, i: nat)
    requires i <= |a|
    ensures (a + b)[i..] == a[i..] + b
  {}
}
