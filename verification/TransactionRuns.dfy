/**
 Whole runs of the request and answer protocol: any sequence of loops and of calls made by the application between them,
 with any clock readings, any frames parsed, any calls made by the handlers and any failures of writes.
 */
module TransactionRuns {
  import opened Bytes
  import opened Transactions
  import opened TransactionHistory

  datatype Step = Loop(tick: Tick) | Application(call: Call)

  lemma InitialInv()
    ensures Inv(Initial)
  {}

  lemma CallKeeps(s: State, c: Call)
    requires Inv(s)
    ensures Inv(Perform(s, c))
  {
    PerformKeeps(s, c);
  }

  /** What a loop needs: it looks at the front of the queue while it waits. */
  predicate Runnable(s: State) {
    Front(s) >= 0 && (s.waiting ==> s.queue != [])
  }

  function StepOf(s: State, step: Step): State
    requires Runnable(s)
  {
    match step
    case Loop(t) => LoopStep(s, t)
    case Application(c) => Perform(s, c)
  }

  lemma StepKeeps(s: State, step: Step)
    requires Inv(s)
    ensures Runnable(s) && Inv(StepOf(s, step))
  {
    match step
    case Loop(t) => LoopKeeps(s, t);
    case Application(c) => CallKeeps(s, c);
  }

  function Run(s: State, steps: seq<Step>): (r: State)
    requires Inv(s)
    ensures Inv(r)
    decreases |steps|
  {
    if steps == [] then s
    else
      StepKeeps(s, steps[0]);
      Run(StepOf(s, steps[0]), steps[1..])
  }

  /** Where a new handler is after these steps. */
  function After(steps: seq<Step>): (s: State)
    ensures Inv(s)
  {
    InitialInv();
    Run(Initial, steps)
  }

  // ----- histories only grow -----

  predicate Extends(s: State, r: State) {
    && |s.requests| <= |r.requests| && r.requests[..|s.requests|] == s.requests
    && |s.log| <= |r.log| && r.log[..|s.log|] == s.log
  }

  lemma ExtendsTwice(s: State, r: State, q: State)
    requires Extends(s, r) && Extends(r, q)
    ensures Extends(s, q)
  {
    Prefixes(s.requests, r.requests, q.requests);
    Prefixes(s.log, r.log, q.log);
  }

  lemma CallExtends(s: State, c: Call)
    ensures Extends(s, Perform(s, c))
  {}

  lemma {:induction false} CallsExtend(s: State, calls: seq<Call>)
    ensures Extends(s, PerformAll(s, calls))
    decreases |calls|
  {
    if calls != [] {
      var next := Perform(s, calls[0]);
      CallExtends(s, calls[0]);
      CallsExtend(next, calls[1..]);
      ExtendsTwice(s, next, PerformAll(next, calls[1..]));
    }
  }

  lemma HandlingExtends(s: State, t: Tick)
    ensures Extends(s, HandleIncoming(s, t.calls))
  {
    if s.incoming != [] {
      var f := s.incoming[|s.incoming| - 1].frame;
      CallsExtend(s.(incoming := [], incomingCrc := f.useCrc, processing := true, answerSent := false), t.calls);
    }
  }

  lemma TryExtends(s: State, t: Tick)
    requires s.queue != [] && s.queue[0].retries > 0 && Front(s) >= 0
    ensures Extends(s, TryFront(s, t.now, t.ok, t.at))
  {}

  lemma IdleExtends(s: State, t: Tick)
    requires Front(s) >= 0
    ensures Extends(s, IdleStep(s, t))
  {
    var s1 := HandleIncoming(s, t.calls);
    HandleIncomingKeepsFront(s, t.calls);
    HandlingExtends(s, t);
    if Ready(s1, t.now) {
      if s1.queue[0].retries > 0 {
        TryExtends(s1, t);
        ExtendsTwice(s, s1, TryFront(s1, t.now, t.ok, t.at));
      } else {
        ExtendsTwice(s, s1, Leave(s1, Dropped(Front(s1), t.now)));
      }
    }
  }

  lemma WaitingExtends(s: State, t: Tick)
    requires Front(s) >= 0 && s.queue != []
    ensures Extends(s, WaitingStep(s, t))
  {
    if t.now > s.answerAt {
      if s.queue[0].retries == 0 {
        var gone := Leave(s, TimedOut(Front(s), s.lastType, t.now));
        CallsExtend(gone, t.calls);
        ExtendsTwice(s, gone, PerformAll(gone, t.calls));
      }
    } else if s.incoming != [] {
      var popped := s.(incoming := s.incoming[1..]);
      CallsExtend(popped, t.calls);
      ExtendsTwice(s, PerformAll(popped, t.calls), WaitingStep(s, t));
    }
  }

  lemma LoopExtends(s: State, t: Tick)
    requires Front(s) >= 0 && (s.waiting ==> s.queue != [])
    ensures Extends(s, LoopStep(s, t))
  {
    if s.waiting {
      WaitingExtends(Receive(s, t.arrived), t);
    } else {
      IdleExtends(Receive(s, t.arrived), t);
    }
  }

  lemma StepExtends(s: State, step: Step)
    requires Runnable(s)
    ensures Extends(s, StepOf(s, step))
  {
    match step
    case Loop(t) => LoopExtends(s, t);
    case Application(c) => CallExtends(s, c);
  }

  lemma {:induction false} RunExtends(s: State, steps: seq<Step>)
    requires Inv(s)
    ensures Extends(s, Run(s, steps))
    decreases |steps|
  {
    if steps != [] {
      StepKeeps(s, steps[0]);
      var next := StepOf(s, steps[0]);
      StepExtends(s, steps[0]);
      RunExtends(next, steps[1..]);
      ExtendsTwice(s, next, Run(next, steps[1..]));
    }
  }

  // ----- what a disciplined history looks like -----

  lemma {:induction false} EventAt(requests: seq<OutgoingItem>, log: seq<Event>, k: nat)
    requires Disciplined(requests, log) && k < |log|
    ensures EventOk(requests, log[..k], log[k]) && Outcomes(log[..k]) <= Outcomes(log)
    decreases |log|
  {
    if k < |log| - 1 {
      EventAt(requests, log[..|log| - 1], k);
      assert log[..|log| - 1][..k] == log[..k];
    }
  }

  function OutcomesOf(log: seq<Event>, id: nat): nat {
    if log == [] then 0
    else OutcomesOf(log[..|log| - 1], id) + if IsOutcome(log[|log| - 1]) && log[|log| - 1].id == id then 1 else 0
  }

  /** A request leaves the queue once, in one of the four ways, and the requests leave in the order they were made. */
  lemma {:induction false} SingleOutcome(requests: seq<OutgoingItem>, log: seq<Event>, id: nat)
    requires Disciplined(requests, log)
    ensures OutcomesOf(log, id) == if id < Outcomes(log) then 1 else 0
    decreases |log|
  {
    if log != [] {
      SingleOutcome(requests, log[..|log| - 1], id);
    }
  }

  lemma {:induction false} WithinBudget(requests: seq<OutgoingItem>, log: seq<Event>, id: nat)
    requires Disciplined(requests, log) && id < |requests|
    ensures Attempts(log, id) <= requests[id].retries
    decreases |log|
  {
    if log != [] {
      WithinBudget(requests, log[..|log| - 1], id);
    }
  }

  lemma {:induction false} CooldownIsLast(log: seq<Event>, j: nat)
    requires j < |log| && (log[j].Attempt? || log[j].AnswerWritten?)
    requires forall i :: j < i < |log| ==> !log[i].Attempt? && !log[i].AnswerWritten?
    ensures CooldownAfter(log) == log[j].cooldownAt
    decreases |log|
  {
    if j < |log| - 1 {
      CooldownIsLast(log[..|log| - 1], j);
    }
  }

  /** The last queue write before position k of the log is at position j. */
  predicate LastWriteBefore(log: seq<Event>, j: int, k: nat) {
    0 <= j < k <= |log| && log[j].Attempt? && forall i :: j < i < k ==> !log[i].Attempt?
  }

  lemma {:induction false} LastAttemptAt(log: seq<Event>, k: nat)
    requires k <= |log| && LastAttempt(log[..k]).Some?
    ensures exists j :: LastWriteBefore(log, j, k) && log[j] == LastAttempt(log[..k]).value
    decreases k
  {
    if log[k - 1].Attempt? {
      assert LastWriteBefore(log, k - 1, k);
    } else {
      assert log[..k][..k - 1] == log[..k - 1];
      LastAttemptAt(log, k - 1);
      var j :| LastWriteBefore(log, j, k - 1) && log[j] == LastAttempt(log[..k - 1]).value;
      assert LastWriteBefore(log, j, k);
    }
  }

  // ----- the theorems about runs -----

  /** Where a request stands: in the queue with what is left of its budget, or gone with one outcome. */
  lemma Standing(s: State, id: nat)
    requires Inv(s) && id < |s.requests|
    ensures var front, request := |s.requests| - |s.queue|, s.requests[id];
            if id >= front
            then 0 <= id - front < |s.queue| && OutcomesOf(s.log, id) == 0
                 && s.queue[id - front] == request.(retries := s.queue[id - front].retries)
                 && Attempts(s.log, id) + s.queue[id - front].retries == request.retries
            else OutcomesOf(s.log, id) == 1 && Attempts(s.log, id) <= request.retries
  {
    var front := Outcomes(s.log);
    SingleOutcome(s.requests, s.log, id);
    WithinBudget(s.requests, s.log, id);
    if id > front {
      NoAttemptYet(s.requests, s.log, id);
      assert s.queue[id - front] == s.queue[1..][id - front - 1];
    }
  }

  lemma FrontPart<T>(all: seq<T>, front: seq<T>, i: nat)
    requires i < |front| <= |all| && all[..|front|] == front
    ensures all[i] == front[i]
  {
    assert all[i] == all[..|front|][i];
  }

  /**
   For a request sent at any time, after any further run: it is what was asked for; while it is queued, the writes made of
   it and the budget left for it add up to the repeats asked for, at most nine, plus one, and it has no outcome; otherwise
   it has exactly one.
   */
  lemma RetriesConserved(s: State, m: Message, crc: bool, numRepeats: nat, interval: int, steps: seq<Step>)
    requires Inv(s)
    ensures var id, budget := |s.requests|, (if numRepeats < 9 then numRepeats else 9) + 1;
            var sent := Perform(s, SendMessage(m, crc, numRepeats, interval));
            Inv(sent) && Stands(Run(sent, steps), id, OutgoingItem(m, crc, false, budget, interval))
  {
    var sent := Perform(s, SendMessage(m, crc, numRepeats, interval));
    CallKeeps(s, SendMessage(m, crc, numRepeats, interval));
    StandsAfter(sent, |s.requests|, steps);
  }

  /** A message that wants no answer is written once, whatever comes of it. */
  lemma WrittenOnce(s: State, m: Message, crc: bool, steps: seq<Step>)
    requires Inv(s)
    ensures var sent := Perform(s, SendMessageWithoutAnswer(m, crc));
            Inv(sent) && Stands(Run(sent, steps), |s.requests|, OutgoingItem(m, crc, true, 1, 0))
  {
    var sent := Perform(s, SendMessageWithoutAnswer(m, crc));
    CallKeeps(s, SendMessageWithoutAnswer(m, crc));
    StandsAfter(sent, |s.requests|, steps);
  }

  /** The request id is item; it is queued with what its writes have left of the budget, or has left with one outcome. */
  predicate Stands(s: State, id: nat, item: OutgoingItem) {
    && id < |s.requests| && s.requests[id] == item
    && var front := |s.requests| - |s.queue|;
       if id >= front
       then 0 <= id - front < |s.queue| && OutcomesOf(s.log, id) == 0
            && s.queue[id - front] == item.(retries := s.queue[id - front].retries)
            && Attempts(s.log, id) + s.queue[id - front].retries == item.retries
       else OutcomesOf(s.log, id) == 1 && Attempts(s.log, id) <= item.retries
  }

  lemma StandsAfter(s: State, id: nat, steps: seq<Step>)
    requires Inv(s) && id < |s.requests|
    ensures Stands(Run(s, steps), id, s.requests[id])
  {
    var r := Run(s, steps);
    RunExtends(s, steps);
    FrontPart(r.requests, s.requests, id);
    Standing(r, id);
  }

  /** Queued writes are in the order of the requests, each writes the message requested, none follows the outcome. */
  lemma WritesInOrder(s: State, j: nat, k: nat)
    requires Inv(s) && j < k < |s.log| && s.log[k].Attempt?
    ensures s.log[k].id < |s.requests| && s.log[k].message == s.requests[s.log[k].id].message
    ensures s.log[k].useCrc == s.requests[s.log[k].id].useCrc
    ensures s.log[j].Attempt? ==> s.log[j].id <= s.log[k].id
    ensures IsOutcome(s.log[j]) ==> s.log[j].id < s.log[k].id
  {
    var upTo := s.log[..k];
    EventAt(s.requests, s.log, k);
    EventAt(s.requests, s.log, j);
    DisciplinedPrefix(s.requests, s.log, k);
    OutcomesUpTo(upTo, j + 1);
    assert upTo[..j + 1][..j] == s.log[..j];
    assert upTo[..j + 1][j] == s.log[j];
  }

  lemma {:induction false} DisciplinedPrefix(requests: seq<OutgoingItem>, log: seq<Event>, k: nat)
    requires Disciplined(requests, log) && k <= |log|
    ensures Disciplined(requests, log[..k])
    decreases |log|
  {
    if k < |log| {
      DisciplinedPrefix(requests, log[..|log| - 1], k);
      assert log[..|log| - 1][..k] == log[..k];
    } else {
      assert log[..k] == log;
    }
  }

  lemma {:induction false} OutcomesUpTo(log: seq<Event>, k: nat)
    requires k <= |log|
    ensures Outcomes(log[..k]) <= Outcomes(log)
    decreases |log|
  {
    if k < |log| {
      OutcomesUpTo(log[..|log| - 1], k);
      assert log[..|log| - 1][..k] == log[..k];
    } else {
      assert log[..k] == log;
    }
  }

  /** A queued write starts no earlier than the cooldown set by the write before it, of a request or of an answer. */
  lemma CooldownRespected(s: State, j: nat, k: nat)
    requires Inv(s) && j < k < |s.log| && s.log[k].Attempt? && (s.log[j].Attempt? || s.log[j].AnswerWritten?)
    requires forall i :: j < i < k ==> !s.log[i].Attempt? && !s.log[i].AnswerWritten?
    ensures s.log[k].start >= s.log[j].cooldownAt
  {
    EventAt(s.requests, s.log, k);
    CooldownIsLast(s.log[..k], j);
  }

  /** What must have gone before an outcome; w is the last queued write. */
  predicate Cause(s: State, w: Event, k: nat)
    requires w.Attempt? && k < |s.log| && IsOutcome(s.log[k]) && s.log[k].id < |s.requests|
  {
    var e := s.log[k];
    var request, writes := s.requests[e.id], Attempts(s.log[..k], e.id);
    match e
    case Sent(_, at) => request.noAnswer && w.ok && at == w.start
    case Answered(_, requestType, arrival, at) =>
      && !request.noAnswer && w.ok && requestType == request.message.frameType && w.loop < arrival.loop
      && at <= w.answerAt
    case TimedOut(_, requestType, at) =>
      && !request.noAnswer && w.ok && requestType == request.message.frameType && at > w.answerAt
      && writes == request.retries
    case Dropped(_, _) => !w.ok && writes == request.retries
    case _ => false
  }

  /**
   A request that asked for no answer leaves on its first successful write. Any other leaves answered, by a frame parsed
   in a later loop than its last write, which succeeded; or timed out, after all its writes and past the last deadline;
   or silently, when all its writes are made and the last one failed.
   */
  lemma OutcomeHasCause(s: State, k: nat)
    requires Inv(s) && k < |s.log| && IsOutcome(s.log[k])
    ensures s.log[k].id < |s.requests|
    ensures exists j :: LastWriteBefore(s.log, j, k) && s.log[j].id == s.log[k].id && Cause(s, s.log[j], k)
  {
    EventAt(s.requests, s.log, k);
    LastAttemptAt(s.log, k);
  }

  lemma TryFrontWaits(s: State, t: Tick)
    requires s.queue != [] && s.queue[0].retries > 0 && Front(s) >= 0 && !s.waiting && TryFront(s, t.now, t.ok, t.at).waiting
    ensures var r := TryFront(s, t.now, t.ok, t.at);
            && r.incoming == s.incoming && r.queue != [] && r.queue[0].message.frameType == r.lastType
            && r.log == s.log + [AttemptOf(s, t.now, t.ok, t.at)] && t.ok && Front(r) == Front(s)
            && r.queue[0].message == s.queue[0].message && r.loops == s.loops
  {
    WrittenFront(s, AttemptOf(s, t.now, t.ok, t.at));
  }

  lemma WrittenFront(s: State, a: Event)
    requires s.queue != [] && s.queue[0].retries > 0 && a.Attempt?
    ensures var r := Written(s, a);
            && |r.queue| == |s.queue| && r.queue[0] == s.queue[0].(retries := s.queue[0].retries - 1)
            && r.log == s.log + [a] && r.incoming == s.incoming && r.requests == s.requests && r.loops == s.loops
            && r.waiting == s.waiting
  {}

  /**
   The step that starts waiting leaves no frame at hand, so that nothing parsed up to the write can be taken for its
   answer, and remembers the type of the request at the front, which it has just written.
   */
  lemma WaitingStartsFresh(s: State, t: Tick)
    requires Front(s) >= 0 && !s.waiting && LoopStep(s, t).waiting
    ensures var r := LoopStep(s, t);
            && r.incoming == [] && r.queue != [] && r.queue[0].message.frameType == r.lastType
            && |r.log| > 0 && r.log[|r.log| - 1].Attempt? && r.log[|r.log| - 1].ok
            && r.log[|r.log| - 1].id == |r.requests| - |r.queue|
            && r.log[|r.log| - 1].message == r.queue[0].message && r.log[|r.log| - 1].loop == r.loops
  {
    var s0 := Receive(s, t.arrived);
    var s1 := HandleIncoming(s0, t.calls);
    HandleIncomingKeepsFront(s0, t.calls);
    if Ready(s1, t.now) {
      if s1.queue[0].retries > 0 {
        TryFrontWaits(s1, t);
      }
    }
  }
}
