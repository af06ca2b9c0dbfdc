/**
 What every run of the request and answer protocol keeps. No assumption on the clock, on the callbacks or on the success
 of writes is made.
 */
module TransactionHistory {
  import opened Sequences
  import opened Bytes
  import opened Transactions

  /** How many requests have left the queue. */
  function Outcomes(log: seq<Event>): nat {
    if log == [] then 0 else Outcomes(log[..|log| - 1]) + if IsOutcome(log[|log| - 1]) then 1 else 0
  }

  /** How often a request has been written. */
  function Attempts(log: seq<Event>, id: nat): nat {
    if log == [] then 0
    else Attempts(log[..|log| - 1], id) + if log[|log| - 1].Attempt? && log[|log| - 1].id == id then 1 else 0
  }

  function LastAttempt(log: seq<Event>): (a: Option<Event>)
    ensures a.Some? ==> a.value.Attempt?
  {
    if log == [] then None
    else if log[|log| - 1].Attempt? then Some(log[|log| - 1])
    else LastAttempt(log[..|log| - 1])
  }

  /** The cooldown deadline set by the last write of any kind. */
  function CooldownAfter(log: seq<Event>): int {
    if log == [] then 0
    else
      match log[|log| - 1]
      case Attempt(_, _, _, _, _, _, until, _) => until
      case AnswerWritten(_, _, _, until) => until
      case _ => CooldownAfter(log[..|log| - 1])
  }

  /**
   The time up to which the queue is left alone: a successful write of a request that wants an answer sets it to the
   retry interval of the request, and a departure to the time when it happens.
   */
  function RetryAfter(requests: seq<OutgoingItem>, log: seq<Event>): int
    decreases |log|
  {
    if log == [] then 0
    else
      match log[|log| - 1]
      case Attempt(id, _, _, start, _, ok, _, _) =>
        if ok && id < |requests| && !requests[id].noAnswer then start + requests[id].retryInterval
        else RetryAfter(requests, log[..|log| - 1])
      case AnswerWritten(_, _, _, _) => RetryAfter(requests, log[..|log| - 1])
      case Sent(_, at) => at
      case Answered(_, _, _, at) => at
      case TimedOut(_, _, at) => at
      case Dropped(_, at) => at
  }

  /** The last write from the queue was one of request id, with this success. */
  predicate LastWas(log: seq<Event>, id: nat, ok: bool) {
    LastAttempt(log).Some? && LastAttempt(log).value.id == id && LastAttempt(log).value.ok == ok
  }

  /**
   What has to be true when an event is logged. Every write and every outcome concerns the oldest request that has not
   left yet; a write happens within the budget and not before the deadlines in force; each outcome has its own cause.
   */
  predicate EventOk(requests: seq<OutgoingItem>, log: seq<Event>, e: Event) {
    match e
    case AnswerWritten(_, _, _, _) => true
    case Attempt(id, message, useCrc, start, _, _, _, _) =>
      && id == Outcomes(log) < |requests| && message == requests[id].message && useCrc == requests[id].useCrc
      && Attempts(log, id) < requests[id].retries && start >= CooldownAfter(log) && start >= RetryAfter(requests, log)
    case Sent(id, at) =>
      && id == Outcomes(log) < |requests| && requests[id].noAnswer && LastWas(log, id, true)
      && at == LastAttempt(log).value.start
    case Answered(id, requestType, arrival, at) =>
      && id == Outcomes(log) < |requests| && !requests[id].noAnswer && LastWas(log, id, true)
      && requestType == requests[id].message.frameType && LastAttempt(log).value.loop < arrival.loop
      && at <= LastAttempt(log).value.answerAt
    case TimedOut(id, requestType, at) =>
      && id == Outcomes(log) < |requests| && !requests[id].noAnswer && LastWas(log, id, true)
      && requestType == requests[id].message.frameType
      && Attempts(log, id) == requests[id].retries && at > LastAttempt(log).value.answerAt
    case Dropped(id, at) =>
      && id == Outcomes(log) < |requests| && LastWas(log, id, false) && Attempts(log, id) == requests[id].retries
      && at >= CooldownAfter(log) && at >= RetryAfter(requests, log)
  }

  predicate Disciplined(requests: seq<OutgoingItem>, log: seq<Event>)
    decreases |log|
  {
    log == [] || (Disciplined(requests, log[..|log| - 1]) && EventOk(requests, log[..|log| - 1], log[|log| - 1]))
  }

  // ----- one event more -----

  lemma LogSnoc(requests: seq<OutgoingItem>, log: seq<Event>, e: Event)
    ensures var more := log + [e];
            && Outcomes(more) == Outcomes(log) + (if IsOutcome(e) then 1 else 0)
            && (forall id :: Attempts(more, id) == Attempts(log, id) + if e.Attempt? && e.id == id then 1 else 0)
            && LastAttempt(more) == (if e.Attempt? then Some(e) else LastAttempt(log))
            && CooldownAfter(more) == (if e.Attempt? || e.AnswerWritten? then e.cooldownAt else CooldownAfter(log))
            && RetryAfter(requests, more) == (if IsOutcome(e) then e.at
                                              else if e.Attempt? && e.ok && e.id < |requests| && !requests[e.id].noAnswer
                                              then e.start + requests[e.id].retryInterval
                                              else RetryAfter(requests, log))
            && (Disciplined(requests, more) <==> Disciplined(requests, log) && EventOk(requests, log, e))
  {
    assert (log + [e])[..|log|] == log;
  }

  lemma {:induction false} MoreRequests(requests: seq<OutgoingItem>, more: seq<OutgoingItem>, log: seq<Event>)
    requires Disciplined(requests, log) && |requests| <= |more| && more[..|requests|] == requests
    ensures Disciplined(more, log) && RetryAfter(more, log) == RetryAfter(requests, log)
    decreases |log|
  {
    if log != [] {
      MoreRequests(requests, more, log[..|log| - 1]);
      assert forall i :: 0 <= i < |requests| ==> more[i] == more[..|requests|][i];
    }
  }

  /** Requests behind the front have not been written. */
  lemma {:induction false} NoAttemptYet(requests: seq<OutgoingItem>, log: seq<Event>, id: nat)
    requires Disciplined(requests, log) && Outcomes(log) < id
    ensures Attempts(log, id) == 0
    decreases |log|
  {
    if log != [] {
      NoAttemptYet(requests, log[..|log| - 1], id);
    }
  }

  // ----- the invariant -----

  predicate Budgets(requests: seq<OutgoingItem>) {
    forall i :: 0 <= i < |requests| ==> requests[i].retries > 0
  }

  /** The queue holds the requests that have not left, the front one with what is left of its budget. */
  predicate QueueMatches(s: State) {
    var front := Outcomes(s.log);
    && front <= |s.requests| && |s.queue| == |s.requests| - front
    && (s.queue != [] ==>
          && Attempts(s.log, front) + s.queue[0].retries == s.requests[front].retries
          && s.queue[0] == s.requests[front].(retries := s.queue[0].retries)
          && s.queue[1..] == s.requests[front + 1..])
  }

  predicate Base(s: State) {
    && Disciplined(s.requests, s.log) && Budgets(s.requests) && QueueMatches(s)
    && s.cooldownAt == CooldownAfter(s.log)
    && (forall i :: 0 <= i < |s.incoming| ==> s.incoming[i].loop <= s.loops)
    && (LastAttempt(s.log).Some? ==> LastAttempt(s.log).value.loop <= s.loops)
  }

  /** Idle: a front request without budget has failed its last write. */
  predicate IdleOk(s: State) {
    !s.waiting && (s.queue != [] && s.queue[0].retries == 0 ==> LastWas(s.log, Outcomes(s.log), false))
  }

  /** Waiting: the front request is the one last written, and every frame at hand was parsed in a later loop. */
  predicate WaitingOk(s: State) {
    && s.waiting && s.queue != [] && !s.queue[0].noAnswer && s.queue[0].message.frameType == s.lastType
    && LastWas(s.log, Outcomes(s.log), true) && LastAttempt(s.log).value.answerAt == s.answerAt
    && forall i :: 0 <= i < |s.incoming| ==> LastAttempt(s.log).value.loop < s.incoming[i].loop
  }

  predicate RetryKept(s: State) {
    s.retryAt == RetryAfter(s.requests, s.log)
  }

  predicate Steady(s: State) {
    Base(s) && RetryKept(s) && if s.waiting then WaitingOk(s) else IdleOk(s)
  }

  predicate Inv(s: State) {
    !s.processing && Steady(s)
  }

  // ----- calls -----

  lemma EnqueueKeeps(s: State, item: OutgoingItem)
    requires Base(s) && item.retries > 0
    ensures var r := Enqueue(s, item);
            Base(r) && (s.queue != [] ==> r.queue[0] == s.queue[0]) && (s.queue == [] ==> r.queue[0] == item)
  {
    MoreRequests(s.requests, s.requests + [item], s.log);
    if s.queue == [] {
      FreshFront(s, item);
    } else {
      QueuedBehind(s, item);
    }
  }

  lemma QueuedBehind(s: State, item: OutgoingItem)
    requires QueueMatches(s) && s.queue != []
    ensures QueueMatches(Enqueue(s, item))
  {
    RestOfMore(s.queue, 1, item);
    RestOfMore(s.requests, Outcomes(s.log) + 1, item);
  }

  lemma RestOfMore<T>(s: seq<T>, i: nat, x: T)
    requires i <= |s|
    ensures (s + [x])[i..] == s[i..] + [x]
  {}

  lemma FreshFront(s: State, item: OutgoingItem)
    requires Base(s) && s.queue == []
    ensures Attempts(s.log, Outcomes(s.log)) == 0
  {
    NeverWritten(s.requests, s.log, |s.requests|);
  }

  lemma {:induction false} NeverWritten(requests: seq<OutgoingItem>, log: seq<Event>, id: nat)
    requires Disciplined(requests, log) && |requests| <= id
    ensures Attempts(log, id) == 0
    decreases |log|
  {
    if log != [] {
      NeverWritten(requests, log[..|log| - 1], id);
    }
  }

  lemma EnqueueSteady(s: State, item: OutgoingItem)
    requires Steady(s) && item.retries > 0
    ensures Steady(Enqueue(s, item))
  {
    EnqueueKeeps(s, item);
    MoreRequests(s.requests, s.requests + [item], s.log);
  }

  lemma AnswerSteady(s: State, e: Event)
    requires Steady(s) && e.AnswerWritten?
    ensures Steady(WriteAnswer(s, e))
  {
    LogSnoc(s.requests, s.log, e);
  }

  lemma FlagsSteady(s: State, answerSent: bool, answerTimeout: int, cooldown: int)
    requires Steady(s)
    ensures Steady(s.(answerSent := answerSent, answerTimeout := answerTimeout, cooldown := cooldown))
  {}

  lemma QueueingKeeps(s: State, c: Call)
    requires Steady(s) && (c.SendMessage? || c.SendMessageWithoutAnswer?)
    ensures Steady(Perform(s, c))
  {
    if c.SendMessage? {
      EnqueueSteady(s, OutgoingItem(c.message, c.useCrc, false, Min(c.numRepeats, MAX_PACKET_RETRIES) + 1, c.interval));
    } else {
      EnqueueSteady(s, OutgoingItem(c.message, c.useCrc, true, 1, 0));
    }
  }

  lemma AnsweringKeeps(s: State, c: Call)
    requires Steady(s) && c.SendAnswer?
    ensures Steady(Perform(s, c))
  {
    if s.processing {
      AnswerSteady(s, AnswerEvent(s, c));
    }
  }

  lemma SettingKeeps(s: State, c: Call)
    requires Steady(s) && (c.NoAnswer? || c.SetAnswerTimeout? || c.SetCooldownInterval?)
    ensures Steady(Perform(s, c))
  {
    var r := Perform(s, c);
    FlagsSteady(s, r.answerSent, r.answerTimeout, r.cooldown);
  }

  /** A call leaves the history as disciplined as it was and the front request alone. */
  lemma PerformKeeps(s: State, c: Call)
    requires Steady(s)
    ensures Steady(Perform(s, c))
  {
    if c.SendMessage? || c.SendMessageWithoutAnswer? {
      QueueingKeeps(s, c);
    } else if c.SendAnswer? {
      AnsweringKeeps(s, c);
    } else {
      SettingKeeps(s, c);
    }
  }

  lemma {:induction false} PerformAllKeeps(s: State, calls: seq<Call>)
    requires Steady(s)
    ensures Steady(PerformAll(s, calls))
    decreases |calls|
  {
    if calls != [] {
      PerformKeeps(s, calls[0]);
      PerformAllKeeps(Perform(s, calls[0]), calls[1..]);
    }
  }

  // ----- loops -----

  lemma LeaveKeeps(s: State, e: Event)
    requires Base(s) && s.queue != [] && IsOutcome(e) && EventOk(s.requests, s.log, e)
    ensures Base(Leave(s, e)) && RetryKept(Leave(s, e)) && IdleOk(Leave(s, e).(waiting := false))
  {
    var front, r := Outcomes(s.log), Leave(s, e);
    LogSnoc(s.requests, s.log, e);
    if r.queue != [] {
      FirstOfRest(s.queue, s.requests, front + 1);
      NoAttemptYet(s.requests, s.log, front + 1);
    }
  }

  lemma FirstOfRest<T>(s: seq<T>, all: seq<T>, i: nat)
    requires i < |all| && |s| > 1 && s[1..] == all[i..]
    ensures s[1..][0] == all[i] && s[1..][1..] == all[i + 1..]
  {
    assert all[i..][0] == all[i];
  }

  predicate WritesFront(s: State, a: Event) {
    && Base(s) && s.queue != [] && s.queue[0].retries > 0 && a.Attempt?
    && a.id == Outcomes(s.log) && a.message == s.queue[0].message && a.useCrc == s.queue[0].useCrc
    && a.start >= s.cooldownAt && a.start >= s.retryAt && RetryKept(s) && a.loop == s.loops
  }

  lemma WriteKeeps(s: State, a: Event)
    requires WritesFront(s, a)
    ensures Base(Written(s, a)) && LastAttempt(Written(s, a).log) == Some(a) && Outcomes(Written(s, a).log) == a.id
    ensures RetryAfter(s.requests, Written(s, a).log)
            == if a.ok && !s.queue[0].noAnswer then a.start + s.queue[0].retryInterval else s.retryAt
  {
    LogSnoc(s.requests, s.log, a);
    assert Written(s, a).queue[1..] == s.queue[1..];
  }

  lemma FailedWriteKeeps(s: State, a: Event)
    requires WritesFront(s, a) && !s.waiting && !a.ok
    ensures Steady(Written(s, a))
  {
    WriteKeeps(s, a);
  }

  lemma WaitedWriteKeeps(s: State, a: Event, retryAt: int)
    requires WritesFront(s, a) && a.ok && !s.queue[0].noAnswer && s.incoming == []
    requires retryAt == a.start + s.queue[0].retryInterval
    ensures Steady(Written(s, a).(lastType := a.message.frameType, waiting := true, answerAt := a.answerAt,
                                  retryAt := retryAt))
  {
    WriteKeeps(s, a);
  }

  lemma UnansweredWriteKeeps(s: State, a: Event)
    requires WritesFront(s, a) && !s.waiting && a.ok && s.queue[0].noAnswer
    ensures Steady(Leave(Written(s, a).(lastType := a.message.frameType), Sent(a.id, a.start)))
  {
    WriteKeeps(s, a);
    LeaveKeeps(Written(s, a).(lastType := a.message.frameType), Sent(a.id, a.start));
  }

  lemma AttemptWrites(s: State, t: Tick)
    requires Base(s) && RetryKept(s) && Ready(s, t.now) && s.queue[0].retries > 0
    ensures WritesFront(s, AttemptOf(s, t.now, t.ok, t.at))
  {}

  lemma TryFrontKeeps(s: State, t: Tick)
    requires Base(s) && RetryKept(s) && !s.waiting && s.incoming == [] && Ready(s, t.now) && s.queue[0].retries > 0
    ensures Steady(TryFront(s, t.now, t.ok, t.at)) && TryFront(s, t.now, t.ok, t.at).processing == s.processing
  {
    var a, r := AttemptOf(s, t.now, t.ok, t.at), TryFront(s, t.now, t.ok, t.at);
    AttemptWrites(s, t);
    if !t.ok {
      assert r == Written(s, a);
      FailedWriteKeeps(s, a);
    } else if s.queue[0].noAnswer {
      assert r == Leave(Written(s, a).(lastType := a.message.frameType), Sent(a.id, t.now));
      UnansweredWriteKeeps(s, a);
    } else {
      var retryAt := t.now + s.queue[0].retryInterval;
      assert r == Written(s, a).(lastType := a.message.frameType, waiting := true, answerAt := a.answerAt,
                                 retryAt := retryAt);
      WaitedWriteKeeps(s, a, retryAt);
    }
  }

  lemma HandleKeeps(s: State, t: Tick)
    requires Inv(s) && !s.waiting
    ensures var r := HandleIncoming(s, t.calls); Inv(r) && !r.waiting && r.incoming == []
  {
    if s.incoming != [] {
      var f := s.incoming[|s.incoming| - 1].frame;
      var during := s.(incoming := [], incomingCrc := f.useCrc, processing := true, answerSent := false);
      Handling(s, f.useCrc, true, false);
      PerformAllKeeps(during, t.calls);
      PerformAllKeepsQueue(during, t.calls);
      var done := PerformAll(during, t.calls);
      Handling(done, done.incomingCrc, false, done.answerSent);
    }
  }

  /** Neither the flags of a handler nor the frames that it drops matter while idle. */
  lemma Handling(s: State, useCrc: bool, processing: bool, answerSent: bool)
    requires Steady(s) && !s.waiting
    ensures Steady(s.(incoming := [], incomingCrc := useCrc, processing := processing, answerSent := answerSent))
  {}

  lemma IdleKeeps(s: State, t: Tick)
    requires Inv(s) && !s.waiting
    ensures Inv(IdleStep(s, t))
  {
    var s1 := HandleIncoming(s, t.calls);
    HandleKeeps(s, t);
    if Ready(s1, t.now) {
      if s1.queue[0].retries > 0 {
        TryFrontKeeps(s1, t);
      } else {
        LeaveKeeps(s1, Dropped(Outcomes(s1.log), t.now));
      }
    }
  }

  lemma EnqueueSeesNoFlag(s: State, item: OutgoingItem)
    ensures Enqueue(s.(waiting := false), item) == Enqueue(s, item).(waiting := false)
  {}

  lemma WriteSeesNoFlag(s: State, e: Event)
    requires e.AnswerWritten?
    ensures WriteAnswer(s.(waiting := false), e) == WriteAnswer(s, e).(waiting := false)
  {}

  lemma CallSeesNoFlag(s: State, c: Call)
    ensures Perform(s.(waiting := false), c) == Perform(s, c).(waiting := false)
  {
    match c
    case SendMessage(m, useCrc, n, interval) =>
      EnqueueSeesNoFlag(s, OutgoingItem(m, useCrc, false, Min(n, MAX_PACKET_RETRIES) + 1, interval));
    case SendMessageWithoutAnswer(m, useCrc) =>
      EnqueueSeesNoFlag(s, OutgoingItem(m, useCrc, true, 1, 0));
    case SendAnswer(_, _, _, _) =>
      if s.processing {
        WriteSeesNoFlag(s, AnswerEvent(s, c));
      }
    case NoAnswer =>
    case SetAnswerTimeout(_) =>
    case SetCooldownInterval(_) =>
  }

  /** No call looks at the waiting flag. */
  lemma {:induction false} WaitingUnseen(s: State, calls: seq<Call>)
    ensures PerformAll(s.(waiting := false), calls) == PerformAll(s, calls).(waiting := false)
    decreases |calls|
  {
    if calls != [] {
      CallSeesNoFlag(s, calls[0]);
      WaitingUnseen(Perform(s, calls[0]), calls[1..]);
    }
  }

  lemma TimeoutKeeps(s: State, t: Tick)
    requires Inv(s) && s.waiting && t.now > s.answerAt && s.queue[0].retries == 0
    ensures Inv(PerformAll(Leave(s, TimedOut(Outcomes(s.log), s.lastType, t.now)), t.calls).(waiting := false))
  {
    var gone := Leave(s, TimedOut(Outcomes(s.log), s.lastType, t.now));
    LeaveKeeps(s, TimedOut(Outcomes(s.log), s.lastType, t.now));
    WaitingUnseen(gone, t.calls);
    PerformAllKeeps(gone.(waiting := false), t.calls);
    PerformAllKeepsQueue(gone.(waiting := false), t.calls);
  }

  lemma AnswerKeeps(s: State, t: Tick)
    requires Inv(s) && s.waiting && s.incoming != [] && t.now <= s.answerAt
    ensures var r := PerformAll(s.(incoming := s.incoming[1..]), t.calls);
            r.queue != [] && Inv(Leave(r, Answered(Outcomes(s.log), s.lastType, s.incoming[0], t.now)).(waiting := false))
  {
    var popped := s.(incoming := s.incoming[1..]);
    var r, e := PerformAll(popped, t.calls), Answered(Outcomes(s.log), s.lastType, s.incoming[0], t.now);
    PerformAllKeeps(popped, t.calls);
    AnswerHandled(s, popped, t.calls, r, e, t.now);
    LeaveKeeps(r, e);
    assert Base(Leave(r, e).(waiting := false));
  }

  /** While an answer is handled its request stays at the front. */
  lemma AnswerHandled(s: State, popped: State, calls: seq<Call>, r: State, e: Event, now: int)
    requires WaitingOk(s) && s.incoming != [] && QueueMatches(s) && popped == s.(incoming := s.incoming[1..])
    requires r == PerformAll(popped, calls) && QueueMatches(r) && now <= s.answerAt
    requires e == Answered(Outcomes(s.log), s.lastType, s.incoming[0], now)
    ensures r.queue != [] && r.processing == s.processing && EventOk(r.requests, r.log, e)
  {
    PerformAllKeepsQueue(popped, calls);
    LastAttemptKept(popped, calls);
    assert r.requests[e.id] == r.requests[..|s.requests|][e.id];
    AnswerIsOk(s, r, e);
  }

  /** The request that was waited for is answered, by a frame at hand. */
  lemma AnswerIsOk(s: State, r: State, e: Event)
    requires WaitingOk(s) && s.incoming != [] && QueueMatches(s) && QueueMatches(r)
    requires e.Answered? && e == Answered(Outcomes(s.log), s.lastType, s.incoming[0], e.at) && e.at <= s.answerAt
    requires Outcomes(r.log) == e.id < |s.requests| <= |r.requests| && r.requests[e.id] == s.requests[e.id]
    requires LastAttempt(r.log) == LastAttempt(s.log)
    ensures EventOk(r.requests, r.log, e)
  {}

  lemma WaitingKeeps(s: State, t: Tick)
    requires Inv(s) && s.waiting
    ensures Inv(WaitingStep(s, t))
  {
    if t.now > s.answerAt {
      if s.queue[0].retries == 0 {
        TimeoutKeeps(s, t);
      }
    } else if s.incoming != [] {
      AnswerKeeps(s, t);
    }
  }

  lemma {:induction false} LastAttemptKept(s: State, calls: seq<Call>)
    ensures LastAttempt(PerformAll(s, calls).log) == LastAttempt(s.log)
    decreases |calls|
  {
    if calls != [] {
      AttemptKept(s, calls[0]);
      LastAttemptKept(Perform(s, calls[0]), calls[1..]);
    }
  }

  lemma AttemptKept(s: State, c: Call)
    ensures LastAttempt(Perform(s, c).log) == LastAttempt(s.log)
  {
    if c.SendAnswer? && s.processing {
      LogSnoc(s.requests, s.log, AnswerEvent(s, c));
    }
  }

  lemma ReceiveKeeps(s: State, t: Tick)
    requires Inv(s)
    ensures Inv(Receive(s, t.arrived))
  {}

  /** The invariant holds after every loop. */
  lemma LoopKeeps(s: State, t: Tick)
    requires Inv(s)
    ensures Inv(LoopStep(s, t))
  {
    ReceiveKeeps(s, t);
    if s.waiting {
      WaitingKeeps(Receive(s, t.arrived), t);
    } else {
      IdleKeeps(Receive(s, t.arrived), t);
    }
  }
}
