/**
 Distances in time between writes, and between a write and its timeout, in runs that leave the two intervals alone and
 whose clock does not run backwards.
 */
module TransactionTiming {
  import opened Transactions
  import opened TransactionHistory
  import opened TransactionRuns

  // ----- the clock -----

  /** Not before this time, and the intervals stay as they are. */
  predicate CallInTime(c: Call, from: int) {
    !c.SetAnswerTimeout? && !c.SetCooldownInterval? && (c.SendAnswer? ==> from <= c.at)
  }

  function AfterCall(c: Call, from: int): int {
    if c.SendAnswer? then c.at else from
  }

  predicate CallsInTime(calls: seq<Call>, from: int)
    decreases |calls|
  {
    calls == [] || (CallInTime(calls[0], from) && CallsInTime(calls[1..], AfterCall(calls[0], from)))
  }

  function AfterCalls(calls: seq<Call>, from: int): int
    decreases |calls|
  {
    if calls == [] then from else AfterCalls(calls[1..], AfterCall(calls[0], from))
  }

  lemma {:induction false} CallsTakeTime(calls: seq<Call>, from: int)
    requires CallsInTime(calls, from)
    ensures from <= AfterCalls(calls, from)
    decreases |calls|
  {
    if calls != [] {
      CallsTakeTime(calls[1..], AfterCall(calls[0], from));
    }
  }

  /** A loop reads the clock, lets the handler run, and reads the clock again after a write. */
  predicate StepInTime(step: Step, from: int) {
    match step
    case Loop(t) => from <= t.now && CallsInTime(t.calls, t.now) && AfterCalls(t.calls, t.now) <= t.at
    case Application(c) => CallInTime(c, from)
  }

  function AfterStep(step: Step, from: int): int {
    match step
    case Loop(t) => t.at
    case Application(c) => AfterCall(c, from)
  }

  predicate InTime(steps: seq<Step>, from: int)
    decreases |steps|
  {
    steps == [] || (StepInTime(steps[0], from) && InTime(steps[1..], AfterStep(steps[0], from)))
  }

  // ----- deadlines -----

  /** The cooldown that the write at j sets is not over before that of the queued write at i, before it or the same. */
  predicate PairPaced(log: seq<Event>, i: nat, j: nat, cooldown: int)
    requires i < |log| && j < |log|
  {
    i <= j && log[i].Attempt? && (log[j].Attempt? || log[j].AnswerWritten?) ==>
      log[j].cooldownAt >= log[i].start + cooldown
  }

  predicate EventPaced(e: Event, timeout: int, time: int) {
    e.Attempt? ==> e.start <= time && e.answerAt == e.start + timeout
  }

  predicate LogPaced(log: seq<Event>, cooldown: int, timeout: int, time: int) {
    && (forall i :: 0 <= i < |log| ==> EventPaced(log[i], timeout, time))
    && (forall i, j :: 0 <= i < |log| && 0 <= j < |log| ==> PairPaced(log, i, j, cooldown))
  }

  /** The intervals in force, and the deadlines that every write up to this time has set. */
  predicate Paced(s: State, cooldown: int, timeout: int, time: int) {
    s.cooldown == cooldown && s.answerTimeout == timeout && LogPaced(s.log, cooldown, timeout, time)
  }

  lemma LaterPaced(log: seq<Event>, cooldown: int, timeout: int, time: int, later: int)
    requires LogPaced(log, cooldown, timeout, time) && time <= later
    ensures LogPaced(log, cooldown, timeout, later)
  {
    forall i | 0 <= i < |log|
      ensures EventPaced(log[i], timeout, later)
    {
      assert EventPaced(log[i], timeout, time);
    }
  }

  /** What an event has to satisfy to be logged at this time. */
  predicate Timely(e: Event, cooldown: int, timeout: int, time: int) {
    match e
    case Attempt(_, _, _, start, _, _, until, answerAt) =>
      start == time && until >= start + cooldown && answerAt == start + timeout
    case AnswerWritten(_, _, _, until) => until >= time + cooldown
    case _ => true
  }

  lemma LogMorePaced(log: seq<Event>, e: Event, cooldown: int, timeout: int, time: int)
    requires LogPaced(log, cooldown, timeout, time) && Timely(e, cooldown, timeout, time)
    ensures LogPaced(log + [e], cooldown, timeout, time)
  {
    var more := log + [e];
    forall i, j | 0 <= i < |more| && 0 <= j < |more|
      ensures PairPaced(more, i, j, cooldown)
    {
      if i < |log| {
        assert EventPaced(log[i], timeout, time);
        assert j < |log| ==> PairPaced(log, i, j, cooldown);
      }
    }
    forall i | 0 <= i < |more|
      ensures EventPaced(more[i], timeout, time)
    {
      assert i < |log| ==> EventPaced(log[i], timeout, time);
    }
  }

  // ----- steps -----

  lemma CallPaced(s: State, c: Call, cooldown: int, timeout: int, time: int)
    requires Paced(s, cooldown, timeout, time) && CallInTime(c, time)
    ensures Paced(Perform(s, c), cooldown, timeout, AfterCall(c, time))
  {
    LaterPaced(s.log, cooldown, timeout, time, AfterCall(c, time));
    if c.SendAnswer? && s.processing {
      LogMorePaced(s.log, Perform(s, c).log[|s.log|], cooldown, timeout, c.at);
    }
  }

  lemma {:induction false} CallsPaced(s: State, calls: seq<Call>, cooldown: int, timeout: int, time: int)
    requires Paced(s, cooldown, timeout, time) && CallsInTime(calls, time)
    ensures Paced(PerformAll(s, calls), cooldown, timeout, AfterCalls(calls, time))
    decreases |calls|
  {
    if calls != [] {
      CallPaced(s, calls[0], cooldown, timeout, time);
      CallsPaced(Perform(s, calls[0]), calls[1..], cooldown, timeout, AfterCall(calls[0], time));
    }
  }

  lemma LeavePaced(s: State, e: Event, cooldown: int, timeout: int, time: int)
    requires Paced(s, cooldown, timeout, time) && s.queue != [] && IsOutcome(e)
    ensures Paced(Leave(s, e), cooldown, timeout, time)
  {
    LogMorePaced(s.log, e, cooldown, timeout, time);
  }

  lemma WrittenPaced(s: State, a: Event, cooldown: int, timeout: int, time: int)
    requires Paced(s, cooldown, timeout, time) && s.queue != [] && s.queue[0].retries > 0 && a.Attempt?
    requires Timely(a, cooldown, timeout, time)
    ensures Paced(Written(s, a), cooldown, timeout, time)
  {
    LogMorePaced(s.log, a, cooldown, timeout, time);
  }

  lemma TryPaced(s: State, t: Tick, cooldown: int, timeout: int)
    requires s.queue != [] && s.queue[0].retries > 0 && Front(s) >= 0 && t.now <= t.at
    requires Paced(s, cooldown, timeout, t.now)
    ensures Paced(TryFront(s, t.now, t.ok, t.at), cooldown, timeout, t.at)
  {
    var a := AttemptOf(s, t.now, t.ok, t.at);
    WrittenPaced(s, a, cooldown, timeout, t.now);
    if t.ok && s.queue[0].noAnswer {
      LeavePaced(Written(s, a).(lastType := a.message.frameType), Sent(a.id, t.now), cooldown, timeout, t.now);
    }
    LaterPaced(TryFront(s, t.now, t.ok, t.at).log, cooldown, timeout, t.now, t.at);
  }

  /** A handler that writes an answer starts a cooldown: no queued write follows in the same loop. */
  lemma {:induction false} AnswerComesFirst(s: State, calls: seq<Call>, cooldown: int, time: int)
    requires s.cooldown == cooldown > 0 && CallsInTime(calls, time)
    ensures var r := PerformAll(s, calls); (r.log == s.log && r.cooldownAt == s.cooldownAt) || r.cooldownAt > time
    decreases |calls|
  {
    if calls != [] {
      AnswerComesFirst(Perform(s, calls[0]), calls[1..], cooldown, AfterCall(calls[0], time));
    }
  }

  lemma HandlingPaced(s: State, t: Tick, cooldown: int, timeout: int)
    requires Paced(s, cooldown, timeout, t.now) && StepInTime(Loop(t), t.now) && cooldown > 0
    ensures var r := HandleIncoming(s, t.calls);
            && Paced(r, cooldown, timeout, t.at)
            && (r.cooldownAt <= t.now ==> Paced(r, cooldown, timeout, t.now))
  {
    CallsTakeTime(t.calls, t.now);
    LaterPaced(s.log, cooldown, timeout, t.now, t.at);
    if s.incoming != [] {
      var f := s.incoming[|s.incoming| - 1].frame;
      var during := s.(incoming := [], incomingCrc := f.useCrc, processing := true, answerSent := false);
      CallsPaced(during, t.calls, cooldown, timeout, t.now);
      AnswerComesFirst(during, t.calls, cooldown, t.now);
      LaterPaced(PerformAll(during, t.calls).log, cooldown, timeout, AfterCalls(t.calls, t.now), t.at);
    }
  }

  lemma IdlePaced(s: State, t: Tick, cooldown: int, timeout: int)
    requires Front(s) >= 0 && Paced(s, cooldown, timeout, t.now) && StepInTime(Loop(t), t.now) && cooldown > 0
    ensures Paced(IdleStep(s, t), cooldown, timeout, t.at)
  {
    var s1 := HandleIncoming(s, t.calls);
    HandleIncomingKeepsFront(s, t.calls);
    HandlingPaced(s, t, cooldown, timeout);
    CallsTakeTime(t.calls, t.now);
    if Ready(s1, t.now) {
      if s1.queue[0].retries > 0 {
        TryPaced(s1, t, cooldown, timeout);
      } else {
        LeavePaced(s1, Dropped(Front(s1), t.now), cooldown, timeout, t.at);
      }
    }
  }

  lemma WaitingPaced(s: State, t: Tick, cooldown: int, timeout: int)
    requires Front(s) >= 0 && s.queue != [] && Paced(s, cooldown, timeout, t.now) && StepInTime(Loop(t), t.now)
    ensures Paced(WaitingStep(s, t), cooldown, timeout, t.at)
  {
    CallsTakeTime(t.calls, t.now);
    if t.now > s.answerAt {
      if s.queue[0].retries == 0 {
        var gone := Leave(s, TimedOut(Front(s), s.lastType, t.now));
        LeavePaced(s, TimedOut(Front(s), s.lastType, t.now), cooldown, timeout, t.now);
        CallsPaced(gone, t.calls, cooldown, timeout, t.now);
        LaterPaced(PerformAll(gone, t.calls).log, cooldown, timeout, AfterCalls(t.calls, t.now), t.at);
      } else {
        LaterPaced(s.log, cooldown, timeout, t.now, t.at);
      }
    } else if s.incoming != [] {
      var popped := s.(incoming := s.incoming[1..]);
      PerformAllKeepsQueue(popped, t.calls);
      CallsPaced(popped, t.calls, cooldown, timeout, t.now);
      LeavePaced(PerformAll(popped, t.calls), Answered(Front(s), s.lastType, s.incoming[0], t.now), cooldown, timeout,
                 AfterCalls(t.calls, t.now));
      LaterPaced(WaitingStep(s, t).log, cooldown, timeout, AfterCalls(t.calls, t.now), t.at);
    } else {
      LaterPaced(s.log, cooldown, timeout, t.now, t.at);
    }
  }

  lemma StepPaced(s: State, step: Step, cooldown: int, timeout: int, time: int)
    requires Runnable(s) && Paced(s, cooldown, timeout, time) && StepInTime(step, time) && cooldown > 0
    ensures Paced(StepOf(s, step), cooldown, timeout, AfterStep(step, time))
  {
    match step
    case Loop(t) =>
      LaterPaced(s.log, cooldown, timeout, time, t.now);
      if s.waiting {
        WaitingPaced(Receive(s, t.arrived), t, cooldown, timeout);
      } else {
        IdlePaced(Receive(s, t.arrived), t, cooldown, timeout);
      }
    case Application(c) => CallPaced(s, c, cooldown, timeout, time);
  }

  lemma {:induction false} RunPaced(s: State, steps: seq<Step>, cooldown: int, timeout: int, time: int) returns (end: int)
    requires Inv(s) && Paced(s, cooldown, timeout, time) && InTime(steps, time) && cooldown > 0
    ensures Paced(Run(s, steps), cooldown, timeout, end)
    decreases |steps|
  {
    end := time;
    if steps != [] {
      StepKeeps(s, steps[0]);
      StepPaced(s, steps[0], cooldown, timeout, time);
      end := RunPaced(StepOf(s, steps[0]), steps[1..], cooldown, timeout, AfterStep(steps[0], time));
    }
  }

  lemma AfterPaced(steps: seq<Step>, from: int) returns (end: int)
    requires InTime(steps, from)
    ensures Paced(After(steps), DEFAULT_COOLDOWN_INTERVAL, DEFAULT_ANSWER_TIMEOUT, end)
  {
    InitialInv();
    end := RunPaced(Initial, steps, DEFAULT_COOLDOWN_INTERVAL, DEFAULT_ANSWER_TIMEOUT, from);
  }

  lemma {:induction false} LastWriteFrom(log: seq<Event>, j: nat, k: nat) returns (w: nat)
    requires j < k <= |log| && (log[j].Attempt? || log[j].AnswerWritten?)
    ensures j <= w < k && (log[w].Attempt? || log[w].AnswerWritten?)
    ensures forall i :: w < i < k ==> !log[i].Attempt? && !log[i].AnswerWritten?
    decreases k
  {
    if log[k - 1].Attempt? || log[k - 1].AnswerWritten? {
      w := k - 1;
    } else {
      w := LastWriteFrom(log, j, k - 1);
    }
  }

  /**
   With the intervals that a handler starts with, any two queued writes start at least 400 ms apart, whatever is written
   between them.
   */
  lemma WritesSpaced(steps: seq<Step>, from: int, j: nat, k: nat)
    requires InTime(steps, from)
    requires j < k < |After(steps).log| && After(steps).log[j].Attempt? && After(steps).log[k].Attempt?
    ensures After(steps).log[k].start >= After(steps).log[j].start + 400
  {
    var log := After(steps).log;
    var end := AfterPaced(steps, from);
    var w := LastWriteFrom(log, j, k);
    CooldownRespected(After(steps), w, k);
    assert PairPaced(log, j, w, 400);
  }

  /** And a request times out more than 200 ms after its last write was started. */
  lemma TimeoutsWait(steps: seq<Step>, from: int, k: nat)
    requires InTime(steps, from)
    requires k < |After(steps).log| && After(steps).log[k].TimedOut?
    ensures var log := After(steps).log;
            exists j :: LastWriteBefore(log, j, k) && log[j].id == log[k].id && log[k].at > log[j].start + 200
  {
    var s := After(steps);
    var end := AfterPaced(steps, from);
    OutcomeHasCause(s, k);
    var j :| LastWriteBefore(s.log, j, k) && s.log[j].id == s.log[k].id && Cause(s, s.log[j], k);
    assert EventPaced(s.log[j], 200, end);
  }
}
