/**
 Why the queue empties. Every loop that writes a queued request, lets one leave or stops waiting uses up some of a
 measure that only new requests add to.
 */
module TransactionDraining {
  import opened Sequences
  import opened Transactions
  import opened TransactionHistory
  import opened TransactionRuns

  /** Twice the writes left, and one to leave, for each request. */
  function Weight(items: seq<OutgoingItem>): nat {
    if items == [] then 0 else Weight(items[..|items| - 1]) + 2 * items[|items| - 1].retries + 1
  }

  function Measure(s: State): nat {
    Weight(s.queue) + if s.waiting then 1 else 0
  }

  /** The writes left in the queue. */
  function Budget(items: seq<OutgoingItem>): nat {
    if items == [] then 0 else Budget(items[..|items| - 1]) + items[|items| - 1].retries
  }

  lemma {:induction false} WeightIsTwiceBudget(items: seq<OutgoingItem>)
    ensures Weight(items) == 2 * Budget(items) + |items|
  {
    if items != [] {
      WeightIsTwiceBudget(items[..|items| - 1]);
    }
  }

  lemma {:induction false} WeightOfConcat(a: seq<OutgoingItem>, b: seq<OutgoingItem>)
    ensures Weight(a + b) == Weight(a) + Weight(b)
    decreases |b|
  {
    if b == [] {
      EmptyBehind(a);
    } else {
      var front, last := b[..|b| - 1], b[|b| - 1];
      ConcatAssociative(a, front, [last]);
      assert front + [last] == b;
      assert (a + front + [last])[..|a + front|] == a + front;
      WeightOfConcat(a, front);
    }
  }

  lemma WeightOfFront(items: seq<OutgoingItem>)
    requires items != []
    ensures Weight(items) == 2 * items[0].retries + 1 + Weight(items[1..])
  {
    WeightOfConcat(items[..1], items[1..]);
    assert items[..1] + items[1..] == items && items[..1][..0] == [];
  }

  /** How many queue writes and departures a log holds. */
  function Moves(log: seq<Event>): nat {
    if log == [] then 0 else Moves(log[..|log| - 1]) + if log[|log| - 1].AnswerWritten? then 0 else 1
  }

  lemma MovesSnoc(log: seq<Event>, e: Event)
    ensures Moves(log + [e]) == Moves(log) + if e.AnswerWritten? then 0 else 1
  {
    assert (log + [e])[..|log|] == log;
  }

  /** Between s and r a queued request was written or left, or a wait ended. */
  predicate Effective(s: State, r: State) {
    Moves(r.log) > Moves(s.log) || (s.waiting && !r.waiting)
  }

  /** The requests that r has and s had not. */
  function Added(s: State, r: State): seq<OutgoingItem>
    requires |s.requests| <= |r.requests|
  {
    r.requests[|s.requests|..]
  }

  /** From s to r the measure fell, by new requests apart, and strictly if the step was effective. */
  predicate Falls(s: State, r: State) {
    && |s.requests| <= |r.requests|
    && Measure(r) + (if Effective(s, r) then 1 else 0) <= Measure(s) + Weight(Added(s, r))
  }

  // ----- calls -----

  lemma CallMoves(s: State, c: Call)
    ensures Moves(Perform(s, c).log) == Moves(s.log)
  {
    if c.SendAnswer? && s.processing {
      MovesSnoc(s.log, Perform(s, c).log[|s.log|]);
    }
  }

  lemma {:induction false} CallsMove(s: State, calls: seq<Call>)
    ensures Moves(PerformAll(s, calls).log) == Moves(s.log)
    decreases |calls|
  {
    if calls != [] {
      CallMoves(s, calls[0]);
      CallsMove(Perform(s, calls[0]), calls[1..]);
    }
  }

  lemma QueuedWeight(s: State, r: State)
    requires OnlyQueued(s, r)
    ensures Weight(r.queue) == Weight(s.queue) + Weight(Added(s, r))
  {
    WeightOfConcat(s.queue, r.queue[|s.queue|..]);
    assert r.queue == r.queue[..|s.queue|] + r.queue[|s.queue|..];
  }

  lemma HandlingMeasure(s: State, t: Tick)
    ensures var r := HandleIncoming(s, t.calls);
            && Moves(r.log) == Moves(s.log) && r.waiting == s.waiting && |s.requests| <= |r.requests|
            && Weight(r.queue) == Weight(s.queue) + Weight(Added(s, r))
  {
    HandleIncomingKeepsFront(s, t.calls);
    QueuedWeight(s.(incoming := [], processing := HandleIncoming(s, t.calls).processing), HandleIncoming(s, t.calls));
    if s.incoming != [] {
      var f := s.incoming[|s.incoming| - 1].frame;
      CallsMove(s.(incoming := [], incomingCrc := f.useCrc, processing := true, answerSent := false), t.calls);
    }
  }

  // ----- loops -----

  lemma LeaveFalls(s: State, e: Event)
    requires s.queue != [] && IsOutcome(e)
    ensures Measure(Leave(s, e)) + 1 <= Measure(s) && Moves(Leave(s, e).log) == Moves(s.log) + 1
    ensures Weight(Leave(s, e).queue) + 1 <= Weight(s.queue)
  {
    WeightOfFront(s.queue);
    MovesSnoc(s.log, e);
  }

  lemma WriteFalls(s: State, a: Event)
    requires s.queue != [] && s.queue[0].retries > 0 && a.Attempt?
    ensures Weight(Written(s, a).queue) + 2 == Weight(s.queue) && Moves(Written(s, a).log) == Moves(s.log) + 1
  {
    var counted := [s.queue[0].(retries := s.queue[0].retries - 1)] + s.queue[1..];
    WeightOfFront(s.queue);
    WeightOfFront(counted);
    assert counted[1..] == s.queue[1..];
    MovesSnoc(s.log, a);
  }

  lemma TryFalls(s: State, t: Tick)
    requires s.queue != [] && s.queue[0].retries > 0 && Front(s) >= 0 && !s.waiting
    ensures var r := TryFront(s, t.now, t.ok, t.at);
            Measure(r) + 1 <= Measure(s) && Moves(r.log) > Moves(s.log) && r.requests == s.requests
  {
    var a := AttemptOf(s, t.now, t.ok, t.at);
    WriteFalls(s, a);
    if t.ok && s.queue[0].noAnswer {
      LeaveFalls(Written(s, a).(lastType := a.message.frameType), Sent(a.id, t.now));
    }
  }

  lemma IdleFalls(s: State, t: Tick)
    requires Front(s) >= 0 && !s.waiting
    ensures Falls(s, IdleStep(s, t))
    ensures Ready(HandleIncoming(s, t.calls), t.now) ==> Effective(s, IdleStep(s, t))
  {
    var s1 := HandleIncoming(s, t.calls);
    HandlingMeasure(s, t);
    HandleIncomingKeepsFront(s, t.calls);
    if Ready(s1, t.now) {
      if s1.queue[0].retries > 0 {
        TryFalls(s1, t);
      } else {
        LeaveFalls(s1, Dropped(Front(s1), t.now));
      }
    }
  }

  lemma TimeoutFalls(s: State, t: Tick)
    requires s.queue != [] && Front(s) >= 0 && s.waiting && t.now > s.answerAt && s.queue[0].retries == 0
    ensures Falls(s, WaitingStep(s, t))
  {
    var gone := Leave(s, TimedOut(Front(s), s.lastType, t.now));
    LeaveFalls(s, TimedOut(Front(s), s.lastType, t.now));
    PerformAllKeepsQueue(gone, t.calls);
    QueuedWeight(gone, PerformAll(gone, t.calls));
    CallsMove(gone, t.calls);
  }

  lemma AnswerFalls(s: State, t: Tick)
    requires s.queue != [] && Front(s) >= 0 && s.waiting && t.now <= s.answerAt && s.incoming != []
    ensures Falls(s, WaitingStep(s, t))
  {
    var popped := s.(incoming := s.incoming[1..]);
    var r := PerformAll(popped, t.calls);
    PerformAllKeepsQueue(popped, t.calls);
    QueuedWeight(popped, r);
    CallsMove(popped, t.calls);
    LeaveFalls(r, Answered(Front(s), s.lastType, s.incoming[0], t.now));
  }

  lemma WaitingFalls(s: State, t: Tick)
    requires s.queue != [] && Front(s) >= 0 && s.waiting
    ensures Falls(s, WaitingStep(s, t))
    ensures t.now > s.answerAt || s.incoming != [] ==> Effective(s, WaitingStep(s, t))
  {
    if t.now > s.answerAt {
      if s.queue[0].retries == 0 {
        TimeoutFalls(s, t);
      }
    } else if s.incoming != [] {
      AnswerFalls(s, t);
    }
  }

  /** No loop raises the measure by more than what was newly queued, and an effective one lowers it. */
  lemma LoopFalls(s: State, t: Tick)
    requires Runnable(s)
    ensures Falls(s, LoopStep(s, t))
  {
    if s.waiting {
      WaitingFalls(Receive(s, t.arrived), t);
    } else {
      IdleFalls(Receive(s, t.arrived), t);
    }
  }

  // ----- draining -----

  /** All deadlines that can hold up the state have passed. */
  predicate Expired(s: State, now: int) {
    if s.waiting then now > s.answerAt else now >= s.cooldownAt && now >= s.retryAt
  }

  /** A loop with nothing received, nothing called and the deadlines passed is effective while there is work. */
  lemma ExpiredIsEffective(s: State, t: Tick)
    requires Runnable(s) && s.queue != [] && s.incoming == [] && t.arrived == [] && Expired(s, t.now)
    ensures Effective(s, LoopStep(s, t))
  {
    var s0 := Receive(s, t.arrived);
    if s.waiting {
      WaitingFalls(s0, t);
    } else {
      assert s0.incoming == [];
      IdleFalls(s0, t);
    }
  }

  /** How many of the steps of a run are effective loops. */
  function EffectiveLoops(s: State, steps: seq<Step>): nat
    requires Inv(s)
    decreases |steps|
  {
    if steps == [] then 0
    else
      StepKeeps(s, steps[0]);
      var next := StepOf(s, steps[0]);
      (if steps[0].Loop? && Effective(s, next) then 1 else 0) + EffectiveLoops(next, steps[1..])
  }

  lemma CallFalls(s: State, c: Call)
    ensures Falls(s, Perform(s, c)) && !Effective(s, Perform(s, c))
  {
    CallMoves(s, c);
    PerformKeepsQueue(s, c);
    QueuedWeight(s, Perform(s, c));
  }

  lemma StepFalls(s: State, step: Step)
    requires Runnable(s)
    ensures Falls(s, StepOf(s, step))
  {
    match step
    case Loop(t) => LoopFalls(s, t);
    case Application(c) => CallFalls(s, c);
  }

  lemma AddedTwice(s: State, r: State, q: State)
    requires Extends(s, r) && Extends(r, q)
    ensures |s.requests| <= |q.requests| && Weight(Added(s, q)) == Weight(Added(s, r)) + Weight(Added(r, q))
  {
    Prefixes(s.requests, r.requests, q.requests);
    WeightOfConcat(Added(s, r), Added(r, q));
  }

  /**
   In any run the effective loops number at most twice the writes left plus one for each request, over the requests
   queued at the start and those added on the way, and one for a wait under way.
   */
  lemma {:induction false} EffectiveLoopsBounded(s: State, steps: seq<Step>)
    requires Inv(s)
    ensures var r := Run(s, steps);
            && |s.requests| <= |r.requests|
            && EffectiveLoops(s, steps) + Measure(r)
               <= 2 * Budget(s.queue) + |s.queue| + (if s.waiting then 1 else 0) + 2 * Budget(Added(s, r)) + |Added(s, r)|
    decreases |steps|
  {
    WeightIsTwiceBudget(s.queue);
    RunExtends(s, steps);
    WeightIsTwiceBudget(Added(s, Run(s, steps)));
    if steps != [] {
      StepKeeps(s, steps[0]);
      StepFalls(s, steps[0]);
      StepExtends(s, steps[0]);
      var next := StepOf(s, steps[0]);
      RunExtends(next, steps[1..]);
      AddedTwice(s, next, Run(next, steps[1..]));
      EffectiveLoopsBounded(next, steps[1..]);
      WeightIsTwiceBudget(next.queue);
      WeightIsTwiceBudget(Added(next, Run(next, steps[1..])));
    }
  }

  function Loops(ticks: seq<Tick>): (steps: seq<Step>)
    ensures |steps| == |ticks|
  {
    if ticks == [] then [] else [Loop(ticks[0])] + Loops(ticks[1..])
  }

  /** Nothing is received or called in these loops, and each finds the deadlines passed while there is work. */
  predicate Undisturbed(s: State, ticks: seq<Tick>)
    requires Inv(s)
    decreases |ticks|
  {
    ticks == []
    || (&& ticks[0].arrived == [] && ticks[0].calls == [] && (s.queue != [] ==> Expired(s, ticks[0].now))
        && (LoopKeeps(s, ticks[0]); Undisturbed(LoopStep(s, ticks[0]), ticks[1..])))
  }

  lemma QuietLoop(s: State, t: Tick)
    requires Runnable(s) && s.incoming == [] && t.arrived == [] && t.calls == []
    ensures var r := LoopStep(s, t);
            r.incoming == [] && r.requests == s.requests && (s.queue == [] ==> r.queue == [])
  {
    assert Receive(s, t.arrived).incoming == [];
  }

  /** Undisturbed, n requests with b writes left are gone after 2 b + n loops, and one more for a wait under way. */
  lemma {:induction false} QueueDrains(s: State, ticks: seq<Tick>)
    requires Inv(s) && s.incoming == [] && Undisturbed(s, ticks)
    requires |ticks| >= 2 * Budget(s.queue) + |s.queue| + if s.waiting then 1 else 0
    ensures Run(s, Loops(ticks)).queue == []
    decreases |ticks|
  {
    WeightIsTwiceBudget(s.queue);
    if ticks != [] {
      var next := LoopStep(s, ticks[0]);
      LoopKeeps(s, ticks[0]);
      QuietLoop(s, ticks[0]);
      LoopFalls(s, ticks[0]);
      WeightIsTwiceBudget(next.queue);
      if s.queue != [] {
        ExpiredIsEffective(s, ticks[0]);
      }
      assert Loops(ticks)[1..] == Loops(ticks[1..]);
      QueueDrains(next, ticks[1..]);
    }
  }
}
