/**
 The request and answer protocol, as steps over values with a history.

 The history is the log of everything that reached the wire from the queue or left the queue, the list of all requests
 ever queued, and a count of the loops; none of it influences the steps. A request is identified by its position in the
 list of all requests.
 */
module Transactions {
  import opened Sequences
  import opened Bytes
  import opened FrameFormat

  const MAX_PACKET_RETRIES := 9
  const DEFAULT_ANSWER_TIMEOUT := 200
  const DEFAULT_COOLDOWN_INTERVAL := 400

  datatype Message = Message(frameType: byte, payload: seq<byte>)

  /** An entry of the outgoing queue. */
  datatype OutgoingItem = OutgoingItem(message: Message, useCrc: bool, noAnswer: bool, retries: nat, retryInterval: int)

  /** A received frame and the loop that parsed it. */
  datatype Arrival = Arrival(frame: Frame, loop: nat)

  datatype Event =
      /** A write of a queued request: what was written and when, in which loop, whether it succeeded, the deadlines set. */
    | Attempt(id: nat, message: Message, useCrc: bool, start: int, loop: nat, ok: bool, cooldownAt: int, answerAt: int)
      /** A write of an answer from a message handler. */
    | AnswerWritten(message: Message, useCrc: bool, ok: bool, cooldownAt: int)
      /** The ways in which a request leaves the queue, and when. */
    | Sent(id: nat, at: int)
    | Answered(id: nat, requestType: byte, arrival: Arrival, at: int)
    | TimedOut(id: nat, requestType: byte, at: int)
    | Dropped(id: nat, at: int)

  predicate IsOutcome(e: Event) {
    e.Sent? || e.Answered? || e.TimedOut? || e.Dropped?
  }

  datatype State = State(
    waiting: bool, queue: seq<OutgoingItem>, incoming: seq<Arrival>, lastType: byte,
    cooldownAt: int, answerAt: int, retryAt: int, answerTimeout: int, cooldown: int,
    processing: bool, answerSent: bool, incomingCrc: bool,
    log: seq<Event>, requests: seq<OutgoingItem>, loops: nat)

  const Initial := State(false, [], [], 0, 0, 0, 0, DEFAULT_ANSWER_TIMEOUT, DEFAULT_COOLDOWN_INTERVAL,
                         false, false, false, [], [], 0)

  /**
   What the application, or a handler while it runs, can call. A write reports success and the time it ended; an answer
   sent without a choice of CRC takes that of the frame being handled.
   */
  datatype Call =
    | SendMessage(message: Message, useCrc: bool, numRepeats: nat, interval: int)
    | SendMessageWithoutAnswer(message: Message, useCrc: bool)
    | SendAnswer(answer: Message, choice: Option<bool>, ok: bool, at: int)
    | NoAnswer
    | SetAnswerTimeout(timeout: int)
    | SetCooldownInterval(interval: int)

  /** One loop: the frames parsed, the time read, the calls made by the handler that runs if one runs, a queue write. */
  datatype Tick = Tick(arrived: seq<Frame>, now: int, calls: seq<Call>, ok: bool, at: int)

  // ----- steps -----

  function Enqueue(s: State, item: OutgoingItem): State {
    s.(queue := s.queue + [item], requests := s.requests + [item])
  }

  function WriteAnswer(s: State, e: Event): State
    requires e.AnswerWritten?
  {
    s.(answerSent := e.ok, cooldownAt := e.cooldownAt, log := s.log + [e])
  }

  /** How the write of an answer goes into the history. */
  function AnswerEvent(s: State, c: Call): (e: Event)
    requires c.SendAnswer?
    ensures e.AnswerWritten?
  {
    AnswerWritten(c.answer, if c.choice.Some? then c.choice.value else s.incomingCrc, c.ok, c.at + s.cooldown)
  }

  function Perform(s: State, c: Call): State {
    match c
    case SendMessage(m, crc, n, interval) => Enqueue(s, OutgoingItem(m, crc, false, Min(n, MAX_PACKET_RETRIES) + 1, interval))
    case SendMessageWithoutAnswer(m, crc) => Enqueue(s, OutgoingItem(m, crc, true, 1, 0))
    case SendAnswer(_, _, _, _) => if s.processing then WriteAnswer(s, AnswerEvent(s, c)) else s
    case NoAnswer => if s.processing then s.(answerSent := true) else s
    case SetAnswerTimeout(t) => s.(answerTimeout := t)
    case SetCooldownInterval(t) => s.(cooldown := t)
  }

  function PerformAll(s: State, calls: seq<Call>): State
    decreases |calls|
  {
    if calls == [] then s else PerformAll(Perform(s, calls[0]), calls[1..])
  }

  lemma {:induction false} PerformAllSnoc(s: State, calls: seq<Call>, c: Call)
    ensures PerformAll(s, calls + [c]) == Perform(PerformAll(s, calls), c)
    decreases |calls|
  {
    if calls == [] {
      assert [c][1..] == [] && calls + [c] == [c];
    } else {
      assert (calls + [c])[1..] == calls[1..] + [c];
      PerformAllSnoc(Perform(s, calls[0]), calls[1..], c);
    }
  }

  /** The identity of the request at the front of the queue. */
  function Front(s: State): int {
    |s.requests| - |s.queue|
  }

  function Leave(s: State, e: Event): State
    requires s.queue != [] && IsOutcome(e)
  {
    s.(queue := s.queue[1..], retryAt := e.at, log := s.log + [e])
  }

  /** The message handler, run on the last of the incoming frames. */
  function HandleIncoming(s: State, calls: seq<Call>): State {
    if s.incoming == [] then s
    else
      var f := s.incoming[|s.incoming| - 1].frame;
      var during := PerformAll(s.(incoming := [], incomingCrc := f.useCrc, processing := true, answerSent := false), calls);
      during.(processing := false)
  }

  predicate Ready(s: State, now: int) {
    s.queue != [] && now >= s.cooldownAt && now >= s.retryAt
  }

  /** The write that a loop makes of the request at the front. */
  function AttemptOf(s: State, now: int, ok: bool, at: int): (a: Event)
    requires s.queue != [] && Front(s) >= 0
  {
    var item := s.queue[0];
    Attempt(Front(s), item.message, item.useCrc, now, s.loops, ok, at + s.cooldown, now + s.answerTimeout)
  }

  /** A write and its charge to the budget, before its success is looked at. */
  function Written(s: State, a: Event): State
    requires s.queue != [] && s.queue[0].retries > 0 && a.Attempt?
  {
    s.(cooldownAt := a.cooldownAt, log := s.log + [a],
       queue := [s.queue[0].(retries := s.queue[0].retries - 1)] + s.queue[1..])
  }

  function TryFront(s: State, now: int, ok: bool, at: int): State
    requires s.queue != [] && s.queue[0].retries > 0 && Front(s) >= 0
  {
    var a, item := AttemptOf(s, now, ok, at), s.queue[0];
    if !ok then Written(s, a)
    else if item.noAnswer then Leave(Written(s, a).(lastType := a.message.frameType), Sent(a.id, now))
    else Written(s, a).(lastType := a.message.frameType, waiting := true, answerAt := a.answerAt,
                        retryAt := now + item.retryInterval)
  }

  function IdleStep(s: State, t: Tick): State
    requires Front(s) >= 0
  {
    HandleIncomingKeepsFront(s, t.calls);
    var s1 := HandleIncoming(s, t.calls);
    if !Ready(s1, t.now) then s1
    else if s1.queue[0].retries > 0 then TryFront(s1, t.now, t.ok, t.at)
    else Leave(s1, Dropped(Front(s1), t.now))
  }

  function WaitingStep(s: State, t: Tick): State
    requires Front(s) >= 0 && s.queue != []
  {
    if t.now > s.answerAt then
      if s.queue[0].retries == 0 then
        PerformAll(Leave(s, TimedOut(Front(s), s.lastType, t.now)), t.calls).(waiting := false)
      else s.(waiting := false)
    else if s.incoming != [] then
      PerformAllKeepsQueue(s.(incoming := s.incoming[1..]), t.calls);
      var s1 := PerformAll(s.(incoming := s.incoming[1..]), t.calls);
      Leave(s1, Answered(Front(s), s.lastType, s.incoming[0], t.now)).(waiting := false)
    else s
  }

  function Arrivals(frames: seq<Frame>, loop: nat): (r: seq<Arrival>)
    ensures |r| == |frames|
  {
    seq(|frames|, i requires 0 <= i < |frames| => Arrival(frames[i], loop))
  }

  /** The beginning of a loop: the parsed frames join the incoming queue. */
  function Receive(s: State, arrived: seq<Frame>): State {
    s.(incoming := s.incoming + Arrivals(arrived, s.loops + 1), loops := s.loops + 1)
  }

  /** What a loop does with the frames at hand. */
  function ActStep(s: State, t: Tick): State
    requires Front(s) >= 0 && (s.waiting ==> s.queue != [])
  {
    if s.waiting then WaitingStep(s, t) else IdleStep(s, t)
  }

  function LoopStep(s: State, t: Tick): State
    requires Front(s) >= 0 && (s.waiting ==> s.queue != [])
  {
    ActStep(Receive(s, t.arrived), t)
  }

  // ----- what calls leave alone -----

  predicate OnlyQueued(s: State, r: State) {
    && |r.queue| >= |s.queue| && r.queue[..|s.queue|] == s.queue
    && |r.requests| >= |s.requests| && r.requests[..|s.requests|] == s.requests
    && r.queue[|s.queue|..] == r.requests[|s.requests|..]
    && r.waiting == s.waiting && r.incoming == s.incoming && r.lastType == s.lastType && r.answerAt == s.answerAt
    && r.retryAt == s.retryAt && r.processing == s.processing && r.loops == s.loops
  }

  lemma {:induction false} PerformAllKeepsQueue(s: State, calls: seq<Call>)
    ensures OnlyQueued(s, PerformAll(s, calls)) && Front(PerformAll(s, calls)) == Front(s)
    decreases |calls|
  {
    if calls != [] {
      var next := Perform(s, calls[0]);
      PerformKeepsQueue(s, calls[0]);
      PerformAllKeepsQueue(next, calls[1..]);
      QueuedTwice(s, next, PerformAll(next, calls[1..]));
    }
  }

  lemma PerformKeepsQueue(s: State, c: Call)
    ensures OnlyQueued(s, Perform(s, c))
  {}

  lemma QueuedTwice(s: State, r: State, q: State)
    requires OnlyQueued(s, r) && OnlyQueued(r, q)
    ensures OnlyQueued(s, q)
  {
    Prefixes(s.queue, r.queue, q.queue);
    Prefixes(s.requests, r.requests, q.requests);
  }

  lemma Prefixes<T>(a: seq<T>, b: seq<T>, c: seq<T>)
    requires |a| <= |b| <= |c| && b[..|a|] == a && c[..|b|] == b
    ensures c[..|a|] == a && c[|a|..] == b[|a|..] + c[|b|..]
  {
    assert c[..|b|][..|a|] == c[..|a|];
  }

  lemma HandleIncomingKeepsFront(s: State, calls: seq<Call>)
    ensures var r := HandleIncoming(s, calls);
            && Front(r) == Front(s) && OnlyQueued(s.(incoming := [], processing := r.processing), r)
            && (s.queue != [] ==> r.queue[0] == s.queue[0])
  {
    if s.incoming != [] {
      var f := s.incoming[|s.incoming| - 1].frame;
      PerformAllKeepsQueue(s.(incoming := [], incomingCrc := f.useCrc, processing := true, answerSent := false), calls);
    }
  }
}
