/**
 The simulated air conditioner: a room that the compressor drives to the target temperature and that drifts away from it
 afterwards. Temperatures and times are real numbers; times are in seconds.
 */
module Thermostat {
  const MAX_ROOM := 60.0
  const MAX_TICK := 5.0

  datatype Phase = IDLE | COOLING | HEATING | HOLDING | PASSIVE_DRIFT

  datatype Settings = Settings(
    dynamics: bool, roomDriftTemperature: real, secondsToTarget: real, holdSeconds: real, driftDelta: real,
    driftSeconds: real, hysteresis: real, passiveSecondsPerDegree: real)

  /** What the user has set: 0 is automatic, 1 cool, 2 heat. */
  datatype Command = Command(power: bool, mode: nat, setPoint: nat)

  datatype Room = Room(room: real, phase: Phase, compressor: bool, holdUntil: real, lastTick: real)

  function Min(a: real, b: real): real {
    if a < b then a else b
  }

  function Max(a: real, b: real): real {
    if a < b then b else a
  }

  function Clamp(lo: real, hi: real, x: real): real {
    Max(lo, Min(hi, x))
  }

  function Distance(a: real, b: real): real {
    if a < b then b - a else a - b
  }

  /** The limits that loading a control file enforces. */
  predicate Sane(s: Settings) {
    && s.secondsToTarget >= 1.0 && s.holdSeconds >= 0.0 && s.driftDelta >= 0.0 && s.driftSeconds >= 1.0
    && s.hysteresis >= 0.1 && s.passiveSecondsPerDegree >= 5.0
  }

  // ----- one tick -----

  function Target(c: Command): real {
    16.0 + c.setPoint as real
  }

  function MoveTowards(current: real, goal: real, maxStep: real): (r: real)
    ensures maxStep >= 0.0 ==> Distance(r, goal) == Max(0.0, Distance(current, goal) - maxStep)
    ensures maxStep >= 0.0 ==> Closer(goal, current, r)
  {
    if current < goal then Min(goal, current + maxStep)
    else if current > goal then Max(goal, current - maxStep)
    else current
  }

  /** From a to b is towards the goal and not past it. */
  predicate Closer(goal: real, a: real, b: real) {
    if a < goal then a <= b <= goal else goal <= b <= a
  }

  /** The time since the last tick, at most five seconds of it. */
  function Dt(lastTick: real, now: real): (dt: real)
    ensures 0.0 <= dt <= MAX_TICK
  {
    Clamp(0.0, MAX_TICK, now - if lastTick == 0.0 then now else lastTick)
  }

  predicate Cools(s: Settings, c: Command, x: Room) {
    && c.power
    && if c.mode == 1 then if x.phase == PASSIVE_DRIFT then x.room >= Target(c) + s.hysteresis else x.room > Target(c)
       else c.mode == 0 && x.room > Target(c) && (x.phase == PASSIVE_DRIFT ==> x.room >= Target(c) + s.hysteresis)
  }

  predicate Heats(s: Settings, c: Command, x: Room) {
    && c.power
    && if c.mode == 2 then if x.phase == PASSIVE_DRIFT then x.room <= Target(c) - s.hysteresis else x.room < Target(c)
       else c.mode == 0 && x.room < Target(c) && (x.phase == PASSIVE_DRIFT ==> x.room <= Target(c) - s.hysteresis)
  }

  predicate Active(s: Settings, c: Command, x: Room) {
    Cools(s, c, x) || Heats(s, c, x)
  }

  /** The hold interval, cut to whole milliseconds. */
  function Hold(s: Settings): real {
    (s.holdSeconds * 1000.0).Floor as real / 1000.0
  }

  lemma Scaled(a: real, b: real, dt: real)
    requires a <= b && dt >= 0.0
    ensures a * dt <= b * dt
  {}

  /** How far the room moves in a tick: the distance takes this many seconds, but there is a least speed. */
  function StepSize(least: real, distance: real, seconds: real, dt: real): (step: real)
    requires seconds > 0.0 && dt >= 0.0
    ensures step >= least * dt
  {
    var rate := Max(least, distance / seconds);
    Scaled(least, rate, dt);
    rate * dt
  }

  function ActiveStep(s: Settings, c: Command, x: Room, dt: real): (step: real)
    requires Sane(s) && dt >= 0.0
    ensures step >= 0.01 * dt
  {
    StepSize(0.01, Max(0.1, Distance(x.room, Target(c))), s.secondsToTarget, dt)
  }

  function DriftStep(s: Settings, c: Command, x: Room, dt: real): (step: real)
    requires Sane(s) && dt >= 0.0
    ensures step >= 0.001 * dt
  {
    StepSize(0.001, Distance(DriftGoal(s, c), x.room), s.passiveSecondsPerDegree, dt)
  }

  function Approached(s: Settings, c: Command, x: Room, now: real, step: real): Room {
    var room := MoveTowards(x.room, Target(c), step);
    if Distance(room, Target(c)) < 0.02 then
      x.(room := Target(c), phase := HOLDING, compressor := true, holdUntil := now + Hold(s))
    else
      x.(room := room, phase := if Cools(s, c, x) then COOLING else HEATING, compressor := true)
  }

  function DriftGoal(s: Settings, c: Command): real {
    if c.power && s.driftDelta > 0.0 && c.mode == 1 then Max(s.roomDriftTemperature, Target(c) + s.driftDelta)
    else if c.power && s.driftDelta > 0.0 && c.mode == 2 then Min(s.roomDriftTemperature, Target(c) - s.driftDelta)
    else s.roomDriftTemperature
  }

  function Drifted(s: Settings, c: Command, x: Room, step: real): Room {
    x.(room := MoveTowards(x.room, DriftGoal(s, c), step), phase := if c.power then PASSIVE_DRIFT else IDLE,
       compressor := false)
  }

  function Moved(s: Settings, c: Command, x: Room, now: real, dt: real): Room
    requires Sane(s) && dt >= 0.0
  {
    if Active(s, c, x) then Approached(s, c, x, now, ActiveStep(s, c, x, dt))
    else if c.power && now < x.holdUntil then x.(phase := HOLDING, room := Target(c), compressor := false)
    else Drifted(s, c, x, DriftStep(s, c, x, dt))
  }

  function Unsynced(s: Settings, c: Command, x: Room, now: real): Room
    requires Sane(s)
  {
    var moved := if s.dynamics then Moved(s, c, x, now, Dt(x.lastTick, now)) else x.(compressor := false);
    moved.(lastTick := now)
  }

  function Tick(s: Settings, c: Command, x: Room, now: real): (r: Room)
    requires Sane(s)
    ensures 0.0 <= r.room <= MAX_ROOM && r.lastTick == now
  {
    var moved := Unsynced(s, c, x, now);
    moved.(room := Clamp(0.0, MAX_ROOM, moved.room))
  }

  /** The states passed through, from the first to the one after the last tick. */
  function States(s: Settings, c: Command, x: Room, nows: seq<real>): (states: seq<Room>)
    requires Sane(s)
    ensures |states| == |nows| + 1 && states[0] == x
    decreases |nows|
  {
    if nows == [] then [x] else [x] + States(s, c, Tick(s, c, x, nows[0]), nows[1..])
  }

  /** The tick time that accumulates, each tick cut to five seconds. */
  function Elapsed(lastTick: real, nows: seq<real>): (total: real)
    ensures total >= 0.0
    decreases |nows|
  {
    if nows == [] then 0.0 else Dt(lastTick, nows[0]) + Elapsed(nows[0], nows[1..])
  }

  // ----- convergence -----

  predicate Running(s: Settings, c: Command) {
    Sane(s) && s.dynamics && c.power && Target(c) <= MAX_ROOM
  }

  predicate AtTarget(c: Command, x: Room) {
    x.phase == HOLDING && x.room == Target(c)
  }

  /** Bringing the room below its limit does not bring it to the target. */
  predicate Clear(c: Command, x: Room) {
    x.room <= MAX_ROOM || Target(c) < MAX_ROOM
  }

  /** x and r are on the same side of the target, r nearer to it by d at least. */
  predicate Nearer(c: Command, x: Room, r: Room, d: real) {
    Closer(Target(c), x.room, r.room) && Distance(r.room, Target(c)) <= Distance(x.room, Target(c)) - d
  }

  lemma ApproachedNearer(s: Settings, c: Command, x: Room, now: real, step: real, d: real)
    requires Running(s, c) && Active(s, c, x) && Clear(c, x) && step >= d >= 0.0
    ensures var moved := Approached(s, c, x, now, step);
            var r := moved.(room := Clamp(0.0, MAX_ROOM, moved.room), lastTick := now);
            && r.compressor && Closer(Target(c), x.room, r.room)
            && if AtTarget(c, r) then r.holdUntil == now + Hold(s)
               else Active(s, c, r) && (Cools(s, c, r) <==> Cools(s, c, x)) && Nearer(c, x, r, d)
  {}

  /**
   A tick of the compressor moves the room towards the target, not past it, by a hundredth of a degree a second at least;
   it either ends at the target, where the hold starts, or leaves the compressor wanted.
   */
  lemma ActiveTickApproaches(s: Settings, c: Command, x: Room, now: real)
    requires Running(s, c) && Active(s, c, x) && Clear(c, x)
    ensures var r := Tick(s, c, x, now);
            && r.compressor && r.lastTick == now && Closer(Target(c), x.room, r.room)
            && if AtTarget(c, r) then r.holdUntil == now + Hold(s)
               else Active(s, c, r) && (Cools(s, c, r) <==> Cools(s, c, x))
                    && Nearer(c, x, r, 0.01 * Dt(x.lastTick, now))
  {
    var dt := Dt(x.lastTick, now);
    ApproachedNearer(s, c, x, now, ActiveStep(s, c, x, dt), 0.01 * dt);
  }

  /**
   Otherwise the room is above the limit and the target at it: the first tick gets the room to the target and starts the
   hold exactly if it gets within two hundredths of a degree; if not, the room is cut to the target and no hold starts.
   */
  lemma CutToTarget(s: Settings, c: Command, x: Room, now: real)
    requires Running(s, c) && Active(s, c, x) && !Clear(c, x)
    ensures var r := Tick(s, c, x, now);
            && r.room == Target(c)
            && (AtTarget(c, r) <==> x.room - ActiveStep(s, c, x, Dt(x.lastTick, now)) < Target(c) + 0.02)
            && (!AtTarget(c, r) ==> r.phase == COOLING && !Active(s, c, r) && r.holdUntil == x.holdUntil)
  {
    var step := ActiveStep(s, c, x, Dt(x.lastTick, now));
    assert MoveTowards(x.room, Target(c), step) == Max(Target(c), x.room - step);
  }

  /** For example, cooling from 61 degrees to 60 over a minute: after a tick of a second the room is at 60, without a hold. */
  lemma HoldSkipped()
    ensures var s := Settings(true, 28.0, 60.0, 20.0, 1.0, 40.0, 0.7, 70.0);
            var c, x := Command(true, 1, 44), Room(61.0, IDLE, false, 0.0, 1.0);
            var r := Tick(s, c, x, 2.0);
            && Running(s, c) && Active(s, c, x)
            && r.room == Target(c) && r.phase == COOLING && !Active(s, c, r) && r.holdUntil == 0.0
  {
    var s := Settings(true, 28.0, 60.0, 20.0, 1.0, 40.0, 0.7, 70.0);
    CutToTarget(s, Command(true, 1, 44), Room(61.0, IDLE, false, 0.0, 1.0), 2.0);
  }

  /** The first k ticks are the compressor's, each moves the room towards the target, and the last one gets it there. */
  predicate ReachesAt(s: Settings, c: Command, states: seq<Room>, k: nat) {
    && 0 < k < |states| && AtTarget(c, states[k])
    && forall i :: 0 <= i < k ==> Active(s, c, states[i]) && Closer(Target(c), states[i].room, states[i + 1].room)
  }

  lemma ReachedLater(s: Settings, c: Command, x: Room, nows: seq<real>, k: nat)
    requires Running(s, c) && nows != [] && Active(s, c, x)
    requires Closer(Target(c), x.room, Tick(s, c, x, nows[0]).room)
    requires ReachesAt(s, c, States(s, c, Tick(s, c, x, nows[0]), nows[1..]), k)
    ensures ReachesAt(s, c, States(s, c, x, nows), k + 1)
  {
    var states, rest := States(s, c, x, nows), States(s, c, Tick(s, c, x, nows[0]), nows[1..]);
    forall i | 0 <= i < k + 1
      ensures Active(s, c, states[i]) && Closer(Target(c), states[i].room, states[i + 1].room)
    {
      if i > 0 {
        assert Active(s, c, rest[i - 1]) && Closer(Target(c), rest[i - 1].room, rest[i - 1 + 1].room);
      }
    }
  }

  /** Once the compressor is wanted the target is reached within a hundred seconds of tick time for each degree. */
  lemma {:induction false} TargetReached(s: Settings, c: Command, x: Room, nows: seq<real>)
    requires Running(s, c) && Active(s, c, x) && Clear(c, x)
    requires Elapsed(x.lastTick, nows) >= 100.0 * Distance(x.room, Target(c))
    ensures exists k :: ReachesAt(s, c, States(s, c, x, nows), k)
    decreases |nows|
  {
    if nows != [] {
      var r := Tick(s, c, x, nows[0]);
      ActiveTickApproaches(s, c, x, nows[0]);
      if AtTarget(c, r) {
        assert ReachesAt(s, c, States(s, c, x, nows), 1);
      } else {
        TargetReached(s, c, r, nows[1..]);
        var k :| ReachesAt(s, c, States(s, c, r, nows[1..]), k);
        ReachedLater(s, c, x, nows, k);
      }
    }
  }

  // ----- holding and drifting -----

  /** At the target, or drifting since the hold has ended. */
  predicate Resting(c: Command, x: Room) {
    AtTarget(c, x) || (x.phase == PASSIVE_DRIFT && x.lastTick >= x.holdUntil)
  }

  /** The clock does not run backwards. */
  predicate Forward(lastTick: real, nows: seq<real>)
    decreases |nows|
  {
    nows == [] || (lastTick <= nows[0] && Forward(nows[0], nows[1..]))
  }

  /** From rest the compressor starts only out of a drift, when the gap is the hysteresis at least and the hold is over. */
  lemma RestTick(s: Settings, c: Command, x: Room, now: real)
    requires Running(s, c) && Resting(c, x) && x.lastTick <= now
    ensures var r := Tick(s, c, x, now);
            if r.compressor
            then x.phase == PASSIVE_DRIFT && Distance(x.room, Target(c)) >= s.hysteresis && now >= x.holdUntil
                 && Active(s, c, x)
            else Resting(c, r) && r.holdUntil == x.holdUntil && r.lastTick == now
  {}

  /** The compressor is off in all states between the first and the k-th. */
  predicate FirstStart(states: seq<Room>, k: nat) {
    0 < k < |states| && states[k].compressor && forall i :: 0 < i < k ==> !states[i].compressor
  }

  lemma StartedLater(s: Settings, c: Command, x: Room, nows: seq<real>, k: nat)
    requires Sane(s) && nows != [] && !Tick(s, c, x, nows[0]).compressor
    ensures FirstStart(States(s, c, x, nows), k + 1) <==> FirstStart(States(s, c, Tick(s, c, x, nows[0]), nows[1..]), k)
  {
    var states, rest := States(s, c, x, nows), States(s, c, Tick(s, c, x, nows[0]), nows[1..]);
    assert states[1] == rest[0];
    if FirstStart(rest, k) {
      assert forall i :: 1 < i < k + 1 ==> states[i] == rest[i - 1];
    }
    if FirstStart(states, k + 1) {
      assert forall i :: 0 <= i < k ==> rest[i] == states[i + 1];
    }
  }

  /** In any run from rest the first start of the compressor is one that is due. */
  lemma {:induction false} StartsOnlyWhenDue(s: Settings, c: Command, x: Room, nows: seq<real>, k: nat)
    requires Running(s, c) && Resting(c, x) && Forward(x.lastTick, nows)
    requires FirstStart(States(s, c, x, nows), k)
    ensures var before := States(s, c, x, nows)[k - 1];
            && before.phase == PASSIVE_DRIFT && Distance(before.room, Target(c)) >= s.hysteresis
            && nows[k - 1] >= x.holdUntil
    decreases |nows|
  {
    var r := Tick(s, c, x, nows[0]);
    RestTick(s, c, x, nows[0]);
    if k > 1 {
      assert !States(s, c, x, nows)[1].compressor;
      StartedLater(s, c, x, nows, k - 1);
      StartsOnlyWhenDue(s, c, r, nows[1..], k - 1);
    }
  }

  // ----- restarting -----

  /** Which way the drift goes: up in cool mode, down in heat mode, and to where the drift temperature is in automatic. */
  predicate DriftsUp(s: Settings, c: Command) {
    c.mode == 1 || (c.mode != 2 && s.roomDriftTemperature >= Target(c))
  }

  /** How far the room has drifted that way from the target. */
  function Gap(s: Settings, c: Command, x: Room): real {
    if DriftsUp(s, c) then x.room - Target(c) else Target(c) - x.room
  }

  /**
   The drift takes the room to the restart threshold. In cool mode that needs a drift delta of the hysteresis, or a drift
   temperature that far above the target; in heat mode the mirror image; in automatic the drift temperature alone decides.
   The threshold has to be a possible room temperature.
   */
  predicate DriftReaches(s: Settings, c: Command) {
    var upper, lower := Target(c) + s.hysteresis, Target(c) - s.hysteresis;
    var above, below := s.roomDriftTemperature >= upper, s.roomDriftTemperature <= lower;
    match c.mode
    case 0 => (above && upper <= MAX_ROOM) || (below && lower >= 0.0)
    case 1 => (s.driftDelta >= s.hysteresis || above) && upper <= MAX_ROOM
    case 2 => (s.driftDelta >= s.hysteresis || below) && lower >= 0.0
    case _ => false
  }

  /** Then the goal of the drift lies beyond the threshold. */
  lemma GoalBeyondThreshold(s: Settings, c: Command)
    requires Running(s, c) && DriftReaches(s, c)
    ensures c.mode <= 2
    ensures if DriftsUp(s, c) then DriftGoal(s, c) >= Target(c) + s.hysteresis && Target(c) + s.hysteresis <= MAX_ROOM
            else DriftGoal(s, c) <= Target(c) - s.hysteresis && Target(c) - s.hysteresis >= 0.0
  {}

  /** The tick time that accumulates after the hold. */
  function DriftTime(holdUntil: real, lastTick: real, nows: seq<real>): (total: real)
    ensures total >= 0.0
    decreases |nows|
  {
    if nows == [] then 0.0
    else (if nows[0] >= holdUntil then Dt(lastTick, nows[0]) else 0.0) + DriftTime(holdUntil, nows[0], nows[1..])
  }

  lemma DriftedWidens(s: Settings, c: Command, x: Room, step: real, d: real)
    requires Running(s, c) && DriftReaches(s, c) && Gap(s, c, x) <= s.hysteresis && step >= d >= 0.0
    ensures var gap := Gap(s, c, x.(room := Clamp(0.0, MAX_ROOM, Drifted(s, c, x, step).room)));
            gap >= Gap(s, c, x) && gap >= Min(s.hysteresis, Gap(s, c, x) + d)
  {
    GoalBeyondThreshold(s, c);
  }

  /** A tick of drift widens the gap by a thousandth of a degree a second at least, up to the hysteresis. */
  lemma DriftTickWidens(s: Settings, c: Command, x: Room, now: real)
    requires Running(s, c) && DriftReaches(s, c) && Resting(c, x) && x.lastTick <= now
    requires !Tick(s, c, x, now).compressor
    ensures var r := Tick(s, c, x, now);
            && Gap(s, c, r) >= Gap(s, c, x)
            && (now >= x.holdUntil ==> Gap(s, c, r) >= Min(s.hysteresis, Gap(s, c, x) + 0.001 * Dt(x.lastTick, now)))
  {
    var dt := Dt(x.lastTick, now);
    RestTick(s, c, x, now);
    if now >= x.holdUntil {
      DriftedWidens(s, c, x, DriftStep(s, c, x, dt), 0.001 * dt);
    }
  }

  /**
   In every mode that has a compressor it starts again within a thousand seconds of drift time for each degree of hysteresis
   and one more tick.
   */
  lemma {:induction false} CompressorRestarts(s: Settings, c: Command, x: Room, nows: seq<real>, last: real)
    requires Running(s, c) && DriftReaches(s, c) && Resting(c, x)
    requires Forward(x.lastTick, nows + [last])
    requires DriftTime(x.holdUntil, x.lastTick, nows) >= 1000.0 * (s.hysteresis - Gap(s, c, x))
    ensures exists k :: FirstStart(States(s, c, x, nows + [last]), k)
    decreases |nows|
  {
    var all := nows + [last];
    var r := Tick(s, c, x, all[0]);
    RestTick(s, c, x, all[0]);
    if r.compressor {
      assert FirstStart(States(s, c, x, all), 1);
    } else if nows == [] {
      assert false;
    } else {
      assert all[1..] == nows[1..] + [last];
      DriftTickWidens(s, c, x, all[0]);
      CompressorRestarts(s, c, r, nows[1..], last);
      var k :| FirstStart(States(s, c, r, nows[1..] + [last]), k);
      StartedLater(s, c, x, all, k);
    }
  }

  // ----- the cycle -----

  lemma {:induction false} TailElapses(lastTick: real, a: seq<real>, f: real, b: seq<real>)
    ensures Elapsed(lastTick, a + [f] + b) >= Elapsed(f, b)
    decreases |a|
  {
    var all := a + [f] + b;
    if a == [] {
      assert all[1..] == b;
    } else {
      assert all[1..] == a[1..] + [f] + b;
      TailElapses(a[0], a[1..], f, b);
    }
  }

  /** The compressor starts for the first time in the i-th state and the target is reached again in the j-th. */
  predicate Cycled(c: Command, states: seq<Room>, i: nat, j: nat) {
    FirstStart(states, i) && i <= j < |states| && AtTarget(c, states[j])
  }

  lemma CycledLater(s: Settings, c: Command, x: Room, nows: seq<real>, i: nat, j: nat)
    requires Sane(s) && nows != [] && !Tick(s, c, x, nows[0]).compressor
    requires Cycled(c, States(s, c, Tick(s, c, x, nows[0]), nows[1..]), i, j)
    ensures Cycled(c, States(s, c, x, nows), i + 1, j + 1)
  {
    StartedLater(s, c, x, nows, i);
  }

  lemma StartedNow(s: Settings, c: Command, x: Room, nows: seq<real>, k: nat)
    requires Sane(s) && nows != [] && Tick(s, c, x, nows[0]).compressor && k < |nows|
    requires AtTarget(c, States(s, c, Tick(s, c, x, nows[0]), nows[1..])[k])
    ensures Cycled(c, States(s, c, x, nows), 1, k + 1)
  {}

  lemma CompressorMeansActive(s: Settings, c: Command, x: Room, now: real)
    requires Running(s, c) && Clear(c, x)
    ensures var r := Tick(s, c, x, now);
            r.compressor ==> AtTarget(c, r) || (Active(s, c, r) && Distance(r.room, Target(c)) <= MAX_ROOM)
  {
    if Active(s, c, x) {
      ActiveTickApproaches(s, c, x, now);
    }
  }

  lemma CycleClosed(s: Settings, c: Command, x: Room, nows: seq<real>)
    requires Running(s, c) && Clear(c, x) && nows != [] && Tick(s, c, x, nows[0]).compressor
    requires Elapsed(nows[0], nows[1..]) >= 100.0 * MAX_ROOM
    ensures exists i, j :: Cycled(c, States(s, c, x, nows), i, j)
  {
    var r := Tick(s, c, x, nows[0]);
    CompressorMeansActive(s, c, x, nows[0]);
    if AtTarget(c, r) {
      StartedNow(s, c, x, nows, 0);
    } else {
      TargetReached(s, c, r, nows[1..]);
      var k :| ReachesAt(s, c, States(s, c, r, nows[1..]), k);
      StartedNow(s, c, x, nows, k);
    }
  }

  /** From rest the room drifts off, the compressor starts and the target is reached again. */
  lemma {:induction false} CycleCompletes(s: Settings, c: Command, x: Room, a: seq<real>, f: real, b: seq<real>)
    requires Running(s, c) && DriftReaches(s, c) && Resting(c, x) && Clear(c, x)
    requires Forward(x.lastTick, a + [f] + b)
    requires DriftTime(x.holdUntil, x.lastTick, a) >= 1000.0 * (s.hysteresis - Gap(s, c, x))
    requires Elapsed(f, b) >= 100.0 * MAX_ROOM
    ensures exists i, j :: Cycled(c, States(s, c, x, a + [f] + b), i, j)
    decreases |a|
  {
    var all := a + [f] + b;
    var r := Tick(s, c, x, all[0]);
    RestTick(s, c, x, all[0]);
    if r.compressor {
      if a == [] {
        assert all[1..] == b;
      } else {
        assert all[1..] == a[1..] + [f] + b;
        TailElapses(a[0], a[1..], f, b);
      }
      CycleClosed(s, c, x, all);
    } else if a == [] {
      assert false;
    } else {
      assert all[1..] == a[1..] + [f] + b;
      DriftTickWidens(s, c, x, all[0]);
      CycleCompletes(s, c, r, a[1..], f, b);
      var i, j :| Cycled(c, States(s, c, r, a[1..] + [f] + b), i, j);
      CycledLater(s, c, x, all, i, j);
    }
  }

  // ----- one cycle after the other -----

  /** Time enough for a cycle: the hold, the drift to the threshold, the way back, and a tick too many for each. */
  function Period(s: Settings): real {
    Hold(s) + 1000.0 * s.hysteresis + 100.0 * MAX_ROOM + 15.0
  }

  /** The time that n periods take. */
  function Times(n: nat, period: real): real {
    if n == 0 then 0.0 else period + Times(n - 1, period)
  }

  /** What a hold may still take is a whole hold at most. */
  predicate HoldBounded(s: Settings, x: Room) {
    x.holdUntil <= x.lastTick + Hold(s)
  }

  function Last(lastTick: real, nows: seq<real>): real {
    if nows == [] then lastTick else nows[|nows| - 1]
  }

  /** These states contain n cycles, each from the target away and back to it, one after the other. */
  ghost predicate Cycles(c: Command, states: seq<Room>, n: nat) {
    n == 0 || exists i: nat, j: nat :: Cycled(c, states, i, j) && Cycles(c, states[j..], n - 1)
  }

  lemma {:induction false} ElapsedConcat(lastTick: real, p: seq<real>, q: seq<real>)
    ensures Elapsed(lastTick, p + q) == Elapsed(lastTick, p) + Elapsed(Last(lastTick, p), q)
    decreases |p|
  {
    if p == [] {
      assert p + q == q;
    } else {
      assert (p + q)[1..] == p[1..] + q;
      ElapsedConcat(p[0], p[1..], q);
    }
  }

  lemma {:induction false} ForwardParts(lastTick: real, p: seq<real>, q: seq<real>)
    requires Forward(lastTick, p + q)
    ensures Forward(lastTick, p) && Forward(Last(lastTick, p), q)
    decreases |p|
  {
    if p == [] {
      assert p + q == q;
    } else {
      assert (p + q)[1..] == p[1..] + q;
      ForwardParts(p[0], p[1..], q);
    }
  }

  /** The ticks that it takes for an amount of time overrun it by one tick at most. */
  lemma {:induction false} Cut(lastTick: real, nows: seq<real>, amount: real) returns (p: seq<real>, q: seq<real>)
    requires Elapsed(lastTick, nows) >= amount > -MAX_TICK
    ensures nows == p + q && Elapsed(lastTick, p) >= amount
    ensures Elapsed(Last(lastTick, p), q) >= Elapsed(lastTick, nows) - amount - MAX_TICK
    decreases |nows|
  {
    if amount <= 0.0 {
      p, q := [], nows;
    } else {
      p, q := Cut(nows[0], nows[1..], amount - Dt(lastTick, nows[0]));
      p := [nows[0]] + p;
      assert p[1..] + q == nows[1..];
    }
  }

  /** No more than the hold itself is lost for the drift. */
  lemma {:induction false} DriftAfterHold(holdUntil: real, lastTick: real, nows: seq<real>)
    requires Forward(lastTick, nows)
    ensures DriftTime(holdUntil, lastTick, nows) >= Elapsed(lastTick, nows) - Max(0.0, holdUntil - lastTick)
    decreases |nows|
  {
    if nows != [] {
      DriftAfterHold(holdUntil, nows[0], nows[1..]);
    }
  }

  lemma {:induction false} StatesFrom(s: Settings, c: Command, x: Room, nows: seq<real>, j: nat)
    requires Sane(s) && j <= |nows|
    ensures States(s, c, x, nows)[j..] == States(s, c, States(s, c, x, nows)[j], nows[j..])
    decreases j
  {
    var states := States(s, c, x, nows);
    if j == 0 {
      assert states[0..] == states && nows[0..] == nows;
    } else {
      var r := Tick(s, c, x, nows[0]);
      StatesFrom(s, c, r, nows[1..], j - 1);
      SuffixOfRest(x, States(s, c, r, nows[1..]), j);
      assert nows[1..][j - 1..] == nows[j..];
    }
  }

  lemma SuffixOfRest<T>(x: T, rest: seq<T>, j: nat)
    requires 0 < j <= |rest|
    ensures ([x] + rest)[j..] == rest[j - 1..] && ([x] + rest)[j] == rest[j - 1]
  {}

  lemma HoldStaysBounded(s: Settings, c: Command, x: Room, now: real)
    requires Sane(s) && HoldBounded(s, x) && x.lastTick <= now
    ensures HoldBounded(s, Tick(s, c, x, now))
  {}

  lemma {:induction false} BoundedFrom(s: Settings, c: Command, x: Room, nows: seq<real>, j: nat)
    requires Sane(s) && j <= |nows| && HoldBounded(s, x) && Forward(x.lastTick, nows)
    ensures var y := States(s, c, x, nows)[j]; HoldBounded(s, y) && y.lastTick == if j == 0 then x.lastTick else nows[j - 1]
    decreases j
  {
    if j > 0 {
      var r := Tick(s, c, x, nows[0]);
      HoldStaysBounded(s, c, x, nows[0]);
      BoundedFrom(s, c, r, nows[1..], j - 1);
      SuffixOfRest(x, States(s, c, r, nows[1..]), j);
    }
  }

  lemma {:induction false} StatesOfPrefix(s: Settings, c: Command, x: Room, p: seq<real>, q: seq<real>)
    requires Sane(s)
    ensures States(s, c, x, p + q)[..|p| + 1] == States(s, c, x, p)
    decreases |p|
  {
    if p != [] {
      assert (p + q)[1..] == p[1..] + q;
      StatesOfPrefix(s, c, Tick(s, c, x, p[0]), p[1..], q);
    }
  }

  lemma CycledInPrefix(c: Command, states: seq<Room>, n: nat, i: nat, j: nat)
    requires n <= |states| && Cycled(c, states[..n], i, j)
    ensures Cycled(c, states, i, j) && j < n
  {
    forall k | 0 < k < i
      ensures !states[k].compressor
    {
      assert states[..n][k] == states[k];
    }
  }

  /** The ticks for the hold and the drift, the next one, those for the way back, and the rest. */
  lemma CutForCycle(s: Settings, lastTick: real, nows: seq<real>)
    returns (a: seq<real>, f: real, b: seq<real>, q: seq<real>)
    requires Sane(s) && Elapsed(lastTick, nows) >= Period(s)
    ensures nows == a + [f] + b + q
    ensures Elapsed(lastTick, a) >= Hold(s) + 1000.0 * s.hysteresis && Elapsed(f, b) >= 100.0 * MAX_ROOM
    ensures Elapsed(Last(lastTick, a + [f] + b), q) >= Elapsed(lastTick, nows) - Period(s)
  {
    var r;
    a, r := Cut(lastTick, nows, Hold(s) + 1000.0 * s.hysteresis);
    f := r[0];
    b, q := Cut(f, r[1..], 100.0 * MAX_ROOM);
    assert r == [f] + (b + q);
    assert nows == a + [f] + b + q;
    assert Last(lastTick, a + [f] + b) == Last(f, b);
  }

  lemma CycleInTime(s: Settings, c: Command, x: Room, nows: seq<real>) returns (i: nat, j: nat)
    requires Running(s, c) && DriftReaches(s, c) && AtTarget(c, x) && HoldBounded(s, x)
    requires Forward(x.lastTick, nows) && Elapsed(x.lastTick, nows) >= Period(s)
    ensures Cycled(c, States(s, c, x, nows), i, j)
    ensures Elapsed(nows[j - 1], nows[j..]) >= Elapsed(x.lastTick, nows) - Period(s)
  {
    var a, f, b, q := CutForCycle(s, x.lastTick, nows);
    var p := a + [f] + b;
    ForwardParts(x.lastTick, p, q);
    assert p == a + ([f] + b);
    ForwardParts(x.lastTick, a, [f] + b);
    DriftAfterHold(x.holdUntil, x.lastTick, a);
    CycleCompletes(s, c, x, a, f, b);
    StatesOfPrefix(s, c, x, p, q);
    i, j :| Cycled(c, States(s, c, x, p), i, j);
    CycledInPrefix(c, States(s, c, x, nows), |p| + 1, i, j);
    RestElapses(x.lastTick, p, q, j);
  }

  lemma RestElapses(lastTick: real, p: seq<real>, q: seq<real>, j: nat)
    requires 0 < j <= |p|
    ensures var nows := p + q; Elapsed(nows[j - 1], nows[j..]) >= Elapsed(Last(lastTick, p), q)
  {
    assert (p + q)[j..] == p[j..] + q;
    ElapsedConcat(p[j - 1], p[j..], q);
  }

  /** The state at the end of a cycle is one from which the next can be timed. */
  lemma AtCycleEnd(s: Settings, c: Command, x: Room, nows: seq<real>, j: nat)
    requires Sane(s) && 0 < j <= |nows| && HoldBounded(s, x) && Forward(x.lastTick, nows)
    ensures var y := States(s, c, x, nows)[j];
            && States(s, c, x, nows)[j..] == States(s, c, y, nows[j..])
            && HoldBounded(s, y) && y.lastTick == nows[j - 1] && Forward(y.lastTick, nows[j..])
  {
    StatesFrom(s, c, x, nows, j);
    BoundedFrom(s, c, x, nows, j);
    assert nows == nows[..j] + nows[j..];
    ForwardParts(x.lastTick, nows[..j], nows[j..]);
  }

  lemma {:induction false} TimesNotNegative(n: nat, period: real)
    requires period >= 0.0
    ensures Times(n, period) >= 0.0
  {
    if n > 0 {
      TimesNotNegative(n - 1, period);
    }
  }

  lemma PeriodNotNegative(s: Settings)
    requires Sane(s)
    ensures Period(s) >= 0.0
  {}

  lemma OneCycleMore(c: Command, states: seq<Room>, i: nat, j: nat, rest: seq<Room>, n: nat)
    requires n > 0 && Cycled(c, states, i, j) && rest == states[j..] && Cycles(c, rest, n - 1)
    ensures Cycles(c, states, n)
  {}

  /**
   It goes on for ever: from the target, n periods of tick time contain n cycles, however the clock advances. A period is
   the hold, a thousand seconds for each degree of hysteresis, and 6015 seconds.
   */
  lemma {:induction false} CyclesRecur(s: Settings, c: Command, x: Room, nows: seq<real>, n: nat)
    requires Running(s, c) && DriftReaches(s, c) && AtTarget(c, x) && HoldBounded(s, x)
    requires Forward(x.lastTick, nows) && Elapsed(x.lastTick, nows) >= Times(n, Period(s))
    ensures Cycles(c, States(s, c, x, nows), n)
    decreases n
  {
    if n > 0 {
      PeriodNotNegative(s);
      TimesNotNegative(n - 1, Period(s));
      var i, j := CycleInTime(s, c, x, nows);
      AtCycleEnd(s, c, x, nows, j);
      var y := States(s, c, x, nows)[j];
      CyclesRecur(s, c, y, nows[j..], n - 1);
      OneCycleMore(c, States(s, c, x, nows), i, j, States(s, c, y, nows[j..]), n);
    }
  }
}
