/**
 When a loop writes, what it makes of the frames at hand, and which flag an answer carries, in terms of the history and of
 what the loop is given.
 */
module TransactionSchedule {
  import opened Sequences
  import opened Bytes
  import opened FrameFormat
  import opened Transactions
  import opened TransactionHistory
  import opened TransactionRuns

  // ----- retries -----

  /** From a successful write on, until the request leaves or is written with success again, its interval is in force. */
  lemma {:induction false} RetryInForce(requests: seq<OutgoingItem>, log: seq<Event>, j: nat, k: nat)
    requires j < k <= |log| && log[j].Attempt? && log[j].ok
    requires log[j].id < |requests| && !requests[log[j].id].noAnswer
    requires forall i :: j < i < k ==> !IsOutcome(log[i]) && (log[i].Attempt? ==> !log[i].ok)
    ensures RetryAfter(requests, log[..k]) == log[j].start + requests[log[j].id].retryInterval
    decreases k
  {
    assert log[..k][..k - 1] == log[..k - 1] && log[..k][k - 1] == log[k - 1];
    if k - 1 > j {
      RetryInForce(requests, log, j, k - 1);
    }
  }

  lemma {:induction false} NoneLeft(log: seq<Event>, j: nat, k: nat)
    requires j < k <= |log| && Outcomes(log[..j]) == Outcomes(log[..k])
    ensures forall i :: j <= i < k ==> !IsOutcome(log[i])
    decreases k
  {
    var upTo := log[..k];
    assert upTo[..k - 1] == log[..k - 1] && upTo[k - 1] == log[k - 1];
    OutcomesUpTo(log[..k - 1], j);
    assert log[..k - 1][..j] == log[..j];
    if k - 1 > j {
      NoneLeft(log, j, k - 1);
    }
  }

  /**
   Between a successful write of a request that wants an answer and the next write of it lies the retry interval that was
   asked for, whatever the clock, the deadlines and the handlers do.
   */
  lemma RetriesWait(s: State, j: nat, k: nat)
    requires Inv(s) && j < k < |s.log| && s.log[j].Attempt? && s.log[k].Attempt? && s.log[k].id == s.log[j].id
    requires s.log[j].ok && forall i :: j < i < k && s.log[i].Attempt? ==> !s.log[i].ok
    ensures s.log[j].id < |s.requests|
    ensures var request := s.requests[s.log[j].id];
            !request.noAnswer ==> s.log[k].start >= s.log[j].start + request.retryInterval
  {
    EventAt(s.requests, s.log, j);
    EventAt(s.requests, s.log, k);
    NoneLeft(s.log, j, k);
    if !s.requests[s.log[j].id].noAnswer {
      RetryInForce(s.requests, s.log, j, k);
    }
  }

  /** So it does between any two writes of it, the first successful, if the interval is not negative. */
  lemma {:induction false} AllRetriesWait(s: State, j: nat, k: nat)
    requires Inv(s) && j < k < |s.log| && s.log[j].Attempt? && s.log[k].Attempt? && s.log[k].id == s.log[j].id
    requires s.log[j].ok && s.log[j].id < |s.requests| && !s.requests[s.log[j].id].noAnswer
    requires s.requests[s.log[j].id].retryInterval >= 0
    ensures s.log[k].start >= s.log[j].start + s.requests[s.log[j].id].retryInterval
    decreases k - j
  {
    if i :| j < i < k && s.log[i].Attempt? && s.log[i].ok {
      SameRequest(s, j, i, k);
      AllRetriesWait(s, j, i);
      AllRetriesWait(s, i, k);
    } else {
      RetriesWait(s, j, k);
    }
  }

  lemma SameRequest(s: State, j: nat, i: nat, k: nat)
    requires Inv(s) && j < i < k < |s.log| && s.log[j].Attempt? && s.log[i].Attempt? && s.log[k].Attempt?
    requires s.log[k].id == s.log[j].id
    ensures s.log[i].id == s.log[j].id
  {
    WritesInOrder(s, j, i);
    WritesInOrder(s, i, k);
  }

  // ----- waiting loops -----

  lemma {:induction false} CallsSilent(s: State, calls: seq<Call>)
    requires !s.processing
    ensures PerformAll(s, calls).log == s.log && !PerformAll(s, calls).processing
    decreases |calls|
  {
    if calls != [] {
      CallsSilent(Perform(s, calls[0]), calls[1..]);
    }
  }

  /**
   Waiting, a loop past the deadline of the last write ends the wait and leaves the frames at hand alone, and the request
   leaves if its writes are used up. Before that the oldest frame at hand is the answer. Without one the wait goes on.
   */
  lemma WaitingLoopEnds(s: State, t: Tick)
    requires Inv(s) && s.waiting
    ensures LastAttempt(s.log).Some? && Outcomes(s.log) < |s.requests|
    ensures var r, w, id, frames := LoopStep(s, t), LastAttempt(s.log).value, Outcomes(s.log),
                                    s.incoming + Arrivals(t.arrived, s.loops + 1);
            var request := s.requests[id];
            if t.now > w.answerAt
            then && !r.waiting && r.incoming == frames
                 && r.log == s.log + if Attempts(s.log, id) == request.retries
                                     then [TimedOut(id, request.message.frameType, t.now)] else []
            else if frames != []
            then && !r.waiting && r.incoming == frames[1..]
                 && r.log == s.log + [Answered(id, request.message.frameType, frames[0], t.now)]
            else r.waiting && r.incoming == [] && r.log == s.log
  {
    var s0 := Receive(s, t.arrived);
    if t.now > s.answerAt {
      if s.queue[0].retries == 0 {
        var gone := Leave(s0, TimedOut(Front(s0), s0.lastType, t.now));
        CallsSilent(gone, t.calls);
        PerformAllKeepsQueue(gone, t.calls);
      } else {
        EmptyBehind(s.log);
      }
    } else if s0.incoming != [] {
      var popped := s0.(incoming := s0.incoming[1..]);
      CallsSilent(popped, t.calls);
      PerformAllKeepsQueue(popped, t.calls);
    }
  }

  // ----- answers -----

  /** The answers that a handler of a frame with this flag writes, with the cooldown in force at each of them. */
  function AnswersOf(calls: seq<Call>, useCrc: bool, cooldown: int): seq<Event>
    decreases |calls|
  {
    if calls == [] then []
    else
      match calls[0]
      case SendAnswer(answer, choice, ok, at) =>
        [AnswerWritten(answer, if choice.Some? then choice.value else useCrc, ok, at + cooldown)]
        + AnswersOf(calls[1..], useCrc, cooldown)
      case SetCooldownInterval(interval) => AnswersOf(calls[1..], useCrc, interval)
      case _ => AnswersOf(calls[1..], useCrc, cooldown)
  }

  lemma {:induction false} HandlerAnswers(s: State, calls: seq<Call>)
    requires s.processing
    ensures PerformAll(s, calls).log == s.log + AnswersOf(calls, s.incomingCrc, s.cooldown)
    decreases |calls|
  {
    if calls == [] {
      EmptyBehind(s.log);
    } else {
      var next := Perform(s, calls[0]);
      HandlerAnswers(next, calls[1..]);
      if calls[0].SendAnswer? {
        ConcatAssociative(s.log, [AnswerEvent(s, calls[0])], AnswersOf(calls[1..], s.incomingCrc, s.cooldown));
      }
    }
  }

  /**
   Idle, a loop lets the handler loose if there are frames at hand, and all of these are gone afterwards. The answers it
   writes go into the history first. Each carries the flag chosen for it, or else that of the last of the frames.
   */
  lemma AnswersCarryFlag(s: State, t: Tick)
    requires Inv(s) && !s.waiting
    ensures var r, frames := LoopStep(s, t), s.incoming + Arrivals(t.arrived, s.loops + 1);
            var answers := if frames == [] then [] else AnswersOf(t.calls, frames[|frames| - 1].frame.useCrc, s.cooldown);
            && r.incoming == [] && s.log + answers <= r.log
            && forall i :: |s.log + answers| <= i < |r.log| ==> !r.log[i].AnswerWritten?
  {
    var s0 := Receive(s, t.arrived);
    var s1 := HandleIncoming(s0, t.calls);
    HandleIncomingKeepsFront(s0, t.calls);
    HandlingAnswers(s0, t.calls);
    if Ready(s1, t.now) {
      if s1.queue[0].retries > 0 {
        TryAnswersNothing(s1, t);
      }
    }
  }

  lemma HandlingAnswers(s: State, calls: seq<Call>)
    ensures HandleIncoming(s, calls).log
            == s.log + if s.incoming == [] then []
                       else AnswersOf(calls, s.incoming[|s.incoming| - 1].frame.useCrc, s.cooldown)
    ensures HandleIncoming(s, calls).incoming == []
  {
    if s.incoming == [] {
      EmptyBehind(s.log);
    } else {
      var f := s.incoming[|s.incoming| - 1].frame;
      var during := s.(incoming := [], incomingCrc := f.useCrc, processing := true, answerSent := false);
      HandlerAnswers(during, calls);
      PerformAllKeepsQueue(during, calls);
    }
  }

  lemma TryAnswersNothing(s: State, t: Tick)
    requires s.queue != [] && s.queue[0].retries > 0 && Front(s) >= 0
    ensures var r := TryFront(s, t.now, t.ok, t.at);
            && r.incoming == s.incoming && s.log <= r.log
            && forall i :: |s.log| <= i < |r.log| ==> !r.log[i].AnswerWritten?
  {
    WrittenFront(s, AttemptOf(s, t.now, t.ok, t.at));
  }

  // ----- the intervals in force -----

  /** The handler of a loop runs: on a frame while idle, on an answer, or on a timeout without budget. */
  predicate HandlerRuns(s: State, t: Tick)
    requires s.waiting ==> s.queue != []
  {
    if s.waiting && t.now > s.answerAt then s.queue[0].retries == 0 else s.incoming != [] || t.arrived != []
  }

  /** The answer timeout after these calls: what the last call that sets it says. */
  function TimeoutAfter(calls: seq<Call>, timeout: int): int {
    if calls == [] then timeout
    else if calls[|calls| - 1].SetAnswerTimeout? then calls[|calls| - 1].timeout
    else TimeoutAfter(calls[..|calls| - 1], timeout)
  }

  function CooldownSet(calls: seq<Call>, cooldown: int): int {
    if calls == [] then cooldown
    else if calls[|calls| - 1].SetCooldownInterval? then calls[|calls| - 1].interval
    else CooldownSet(calls[..|calls| - 1], cooldown)
  }

  lemma {:induction false} IntervalsAfter(s: State, calls: seq<Call>)
    ensures PerformAll(s, calls).answerTimeout == TimeoutAfter(calls, s.answerTimeout)
    ensures PerformAll(s, calls).cooldown == CooldownSet(calls, s.cooldown)
    decreases |calls|
  {
    if calls != [] {
      var front, last := calls[..|calls| - 1], calls[|calls| - 1];
      IntervalsAfter(s, front);
      assert calls == front + [last];
      PerformAllSnoc(s, front, last);
    }
  }

  /** The intervals in force are those that the last call to set them has set, wherever it was made. */
  lemma IntervalsInForce(s: State, t: Tick)
    requires Inv(s)
    ensures var r, calls := LoopStep(s, t), if HandlerRuns(s, t) then t.calls else [];
            r.answerTimeout == TimeoutAfter(calls, s.answerTimeout) && r.cooldown == CooldownSet(calls, s.cooldown)
  {
    var s0 := Receive(s, t.arrived);
    assert s0.incoming == [] <==> s.incoming == [] && t.arrived == [];
    if s.waiting && t.now > s.answerAt {
      if s.queue[0].retries == 0 {
        IntervalsAfter(Leave(s0, TimedOut(Front(s0), s0.lastType, t.now)), t.calls);
      }
    } else if s0.incoming != [] {
      if s.waiting {
        var popped := s0.(incoming := s0.incoming[1..]);
        IntervalsAfter(popped, t.calls);
        PerformAllKeepsQueue(popped, t.calls);
      } else {
        HandlingIntervals(s0, t);
      }
    }
  }

  lemma HandlingIntervals(s: State, t: Tick)
    requires Front(s) >= 0 && s.incoming != []
    ensures IdleStep(s, t).answerTimeout == TimeoutAfter(t.calls, s.answerTimeout)
    ensures IdleStep(s, t).cooldown == CooldownSet(t.calls, s.cooldown)
  {
    var f := s.incoming[|s.incoming| - 1].frame;
    IntervalsAfter(s.(incoming := [], incomingCrc := f.useCrc, processing := true, answerSent := false), t.calls);
    HandleIncomingKeepsFront(s, t.calls);
  }

  // ----- idle loops -----

  /** The calls that an idle loop makes: none without a frame at hand. */
  function Handled(s: State, t: Tick): seq<Call> {
    if s.incoming == [] && t.arrived == [] then [] else t.calls
  }

  /** The history when an idle loop comes to the queue: the answers of the handler have been added. */
  function Heard(s: State, t: Tick): seq<Event> {
    var frames := s.incoming + Arrivals(t.arrived, s.loops + 1);
    s.log + if frames == [] then [] else AnswersOf(t.calls, frames[|frames| - 1].frame.useCrc, s.cooldown)
  }

  /** The queue may be written: both deadlines that the history has set are over. */
  predicate Due(s: State, t: Tick) {
    t.now >= CooldownAfter(Heard(s, t)) && t.now >= RetryAfter(s.requests, s.log)
  }

  /** What a due loop adds to the history: a write while there is budget, and a departure if there is nothing to wait for. */
  function DueEvents(s: State, t: Tick): (events: seq<Event>)
    requires Outcomes(s.log) < |s.requests|
    ensures events != []
  {
    var id := Outcomes(s.log);
    var request := s.requests[id];
    if Attempts(s.log, id) == request.retries then [Dropped(id, t.now)]
    else
      [Attempt(id, request.message, request.useCrc, t.now, s.loops + 1, t.ok, t.at + CooldownSet(Handled(s, t), s.cooldown),
               t.now + TimeoutAfter(Handled(s, t), s.answerTimeout))]
      + if t.ok && request.noAnswer then [Sent(id, t.now)] else []
  }

  /**
   An idle loop with work queued writes if and only if both deadlines of the history are over, the answers of its own
   handler included. What it writes is the oldest request left, and the deadlines it sets are those of the intervals in
   force. It waits exactly for the answer to a successful write.
   */
  lemma IdleLoopWrites(s: State, t: Tick)
    requires Inv(s) && !s.waiting && s.queue != []
    ensures Outcomes(s.log) < |s.requests|
    ensures var r := LoopStep(s, t);
            && r.log == Heard(s, t) + (if Due(s, t) then DueEvents(s, t) else [])
            && (r.waiting <==> Due(s, t) && DueEvents(s, t)[0].Attempt? && t.ok && !s.requests[Outcomes(s.log)].noAnswer)
  {
    var s0 := Receive(s, t.arrived);
    var s1 := HandleIncoming(s0, t.calls);
    HandlerDone(s, s0, t, s1);
    EmptyBehind(s1.log);
    if Due(s, t) {
      DueWrites(s, s1, t);
    }
  }

  /** What the handler leaves of the state. */
  predicate HandledTo(s: State, t: Tick, r: State)
    requires s.queue != []
  {
    && r.queue != [] && r.queue[0] == s.queue[0] && Front(r) == Outcomes(s.log) && !r.waiting
    && r.log == Heard(s, t) && r.loops == s.loops + 1
    && r.cooldownAt == CooldownAfter(r.log) && r.retryAt == RetryAfter(s.requests, s.log)
    && r.cooldown == CooldownSet(Handled(s, t), s.cooldown) && r.answerTimeout == TimeoutAfter(Handled(s, t), s.answerTimeout)
  }

  lemma HandlerDone(s: State, s0: State, t: Tick, r: State)
    requires Inv(s) && !s.waiting && s.queue != [] && s0 == Receive(s, t.arrived) && r == HandleIncoming(s0, t.calls)
    ensures HandledTo(s, t, r)
  {
    assert s0.incoming == [] <==> s.incoming == [] && t.arrived == [];
    ReceiveKeeps(s, t);
    HandleKeeps(s0, t);
    HandlingAnswers(s0, t.calls);
    HandleIncomingKeepsFront(s0, t.calls);
    if s0.incoming != [] {
      var f := s0.incoming[|s0.incoming| - 1].frame;
      IntervalsAfter(s0.(incoming := [], incomingCrc := f.useCrc, processing := true, answerSent := false), t.calls);
    }
  }

  lemma DueWrites(s: State, s1: State, t: Tick)
    requires Inv(s) && s.queue != [] && HandledTo(s, t, s1) && Due(s, t)
    ensures Outcomes(s.log) < |s.requests|
    ensures var r := if s1.queue[0].retries > 0 then TryFront(s1, t.now, t.ok, t.at) else Leave(s1, Dropped(Front(s1), t.now));
            && r.log == Heard(s, t) + DueEvents(s, t)
            && (r.waiting <==> DueEvents(s, t)[0].Attempt? && t.ok && !s.requests[Outcomes(s.log)].noAnswer)
  {
    if s1.queue[0].retries > 0 && t.ok && s1.queue[0].noAnswer {
      ConcatAssociative(s1.log, [AttemptOf(s1, t.now, t.ok, t.at)], [Sent(Outcomes(s.log), t.now)]);
    } else if s1.queue[0].retries > 0 {
      EmptyBehind([AttemptOf(s1, t.now, t.ok, t.at)]);
    }
  }
}
