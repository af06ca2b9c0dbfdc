/** What the room does without the compressor, and how fast it moves with it. */
module ThermostatDrift {
  import opened Thermostat

  // ----- no restart -----

  /** The room is short of every threshold at which the compressor would start out of a drift. */
  predicate ShortOfThreshold(s: Settings, c: Command, x: Room) {
    && (c.mode <= 1 ==> x.room < Target(c) + s.hysteresis)
    && (c.mode == 0 || c.mode == 2 ==> x.room > Target(c) - s.hysteresis)
    && 0.0 <= x.room <= MAX_ROOM
  }

  predicate Quiet(s: Settings, c: Command, x: Room) {
    ShortOfThreshold(s, c, x) && (AtTarget(c, x) || x.phase == PASSIVE_DRIFT)
  }

  lemma DriftStaysShort(s: Settings, c: Command, x: Room, step: real)
    requires Running(s, c) && !DriftReaches(s, c) && ShortOfThreshold(s, c, x) && step >= 0.0
    ensures var moved := Drifted(s, c, x, step); ShortOfThreshold(s, c, moved.(room := Clamp(0.0, MAX_ROOM, moved.room)))
  {}

  lemma QuietTick(s: Settings, c: Command, x: Room, now: real)
    requires Running(s, c) && !DriftReaches(s, c) && Quiet(s, c, x)
    ensures var r := Tick(s, c, x, now); Quiet(s, c, r) && !r.compressor
  {
    if c.power && now < x.holdUntil {
    } else {
      DriftStaysShort(s, c, x, DriftStep(s, c, x, Dt(x.lastTick, now)));
    }
  }

  /** If the drift does not reach the threshold the compressor never starts again, however long it takes. */
  lemma {:induction false} NeverRestarts(s: Settings, c: Command, x: Room, nows: seq<real>)
    requires Running(s, c) && !DriftReaches(s, c) && Quiet(s, c, x)
    ensures forall i :: 0 < i < |States(s, c, x, nows)| ==> !States(s, c, x, nows)[i].compressor
    decreases |nows|
  {
    if nows != [] {
      var r := Tick(s, c, x, nows[0]);
      QuietTick(s, c, x, nows[0]);
      NeverRestarts(s, c, r, nows[1..]);
      forall i | 0 < i < |States(s, c, x, nows)|
        ensures !States(s, c, x, nows)[i].compressor
      {
        assert States(s, c, x, nows)[i] == States(s, c, r, nows[1..])[i - 1];
        assert i > 1 ==> !States(s, c, r, nows[1..])[i - 1].compressor;
      }
    }
  }

  /**
   Given the time, the compressor starts again after the target has been reached if and only if the settings let the
   drift reach the threshold.
   */
  lemma RestartsIff(s: Settings, c: Command, x: Room, nows: seq<real>, last: real)
    requires Running(s, c) && AtTarget(c, x) && Forward(x.lastTick, nows + [last])
    requires DriftTime(x.holdUntil, x.lastTick, nows) >= 1000.0 * s.hysteresis
    ensures (exists k :: FirstStart(States(s, c, x, nows + [last]), k)) <==> DriftReaches(s, c)
  {
    if DriftReaches(s, c) {
      CompressorRestarts(s, c, x, nows, last);
    } else {
      NeverRestarts(s, c, x, nows + [last]);
    }
  }

  // ----- nothing to reach -----

  /** Nothing drives the room: the power is off, or the mode has no compressor and the hold is over. */
  predicate Undriven(c: Command, x: Room, now: real) {
    !c.power || (c.mode >= 3 && now >= x.holdUntil)
  }

  /** Where the room ends up then. */
  function Home(s: Settings): real {
    Clamp(0.0, 60.0, s.roomDriftTemperature)
  }

  lemma UndrivenTick(s: Settings, c: Command, x: Room, now: real)
    requires Sane(s) && s.dynamics && Undriven(c, x, now) && 0.0 <= x.room <= 60.0
    ensures var r := Tick(s, c, x, now);
            && !r.compressor && r.holdUntil == x.holdUntil && r.phase == (if c.power then PASSIVE_DRIFT else IDLE)
            && Closer(Home(s), x.room, r.room)
            && Distance(r.room, Home(s)) <= Max(0.0, Distance(x.room, Home(s)) - 0.001 * Dt(x.lastTick, now))
  {
    var step := DriftStep(s, c, x, Dt(x.lastTick, now));
    MovesHome(s.roomDriftTemperature, x.room, step, 0.001 * Dt(x.lastTick, now));
  }

  lemma MovesHome(goal: real, room: real, step: real, d: real)
    requires 0.0 <= room <= 60.0 && step >= d >= 0.0
    ensures var home, r := Clamp(0.0, 60.0, goal), Clamp(0.0, 60.0, MoveTowards(room, goal, step));
            Closer(home, room, r) && Distance(r, home) <= Max(0.0, Distance(room, home) - d)
  {}

  predicate HomewardAt(s: Settings, states: seq<Room>, i: nat)
    requires i + 1 < |states|
  {
    Closer(Home(s), states[i].room, states[i + 1].room) && !states[i + 1].compressor
  }

  predicate UndrivenAt(c: Command, x: Room, nows: seq<real>, i: nat)
    requires i < |nows|
  {
    Undriven(c, x, nows[i])
  }

  lemma UndrivenLater(s: Settings, c: Command, x: Room, nows: seq<real>)
    requires Sane(s) && s.dynamics && nows != [] && forall i :: 0 <= i < |nows| ==> UndrivenAt(c, x, nows, i)
    ensures forall i :: 0 <= i < |nows| - 1 ==> UndrivenAt(c, Tick(s, c, x, nows[0]), nows[1..], i)
  {
    assert UndrivenAt(c, x, nows, 0);
    assert Tick(s, c, x, nows[0]).holdUntil == x.holdUntil;
    forall i | 0 <= i < |nows| - 1
      ensures UndrivenAt(c, Tick(s, c, x, nows[0]), nows[1..], i)
    {
      assert UndrivenAt(c, x, nows, i + 1);
    }
  }

  /** The room moves to the drift temperature without turning back, and is there after a thousand seconds a degree. */
  lemma {:induction false} DriftsHome(s: Settings, c: Command, x: Room, nows: seq<real>)
    requires Sane(s) && s.dynamics && 0.0 <= x.room <= 60.0
    requires forall i :: 0 <= i < |nows| ==> UndrivenAt(c, x, nows, i)
    ensures var states := States(s, c, x, nows);
            && (forall i :: 0 <= i < |nows| ==> HomewardAt(s, states, i))
            && (Elapsed(x.lastTick, nows) >= 1000.0 * Distance(x.room, Home(s)) ==> states[|nows|].room == Home(s))
    decreases |nows|
  {
    if nows != [] {
      var r := Tick(s, c, x, nows[0]);
      assert UndrivenAt(c, x, nows, 0);
      UndrivenTick(s, c, x, nows[0]);
      UndrivenLater(s, c, x, nows);
      DriftsHome(s, c, r, nows[1..]);
      HomewardLater(s, c, x, nows);
    }
  }

  lemma HomewardLater(s: Settings, c: Command, x: Room, nows: seq<real>)
    requires Sane(s) && nows != []
    requires var r := Tick(s, c, x, nows[0]);
             && Closer(Home(s), x.room, r.room) && !r.compressor
             && forall i :: 0 <= i < |nows| - 1 ==> HomewardAt(s, States(s, c, r, nows[1..]), i)
    ensures forall i :: 0 <= i < |nows| ==> HomewardAt(s, States(s, c, x, nows), i)
  {
    var states, rest := States(s, c, x, nows), States(s, c, Tick(s, c, x, nows[0]), nows[1..]);
    forall i | 0 <= i < |nows|
      ensures HomewardAt(s, states, i)
    {
      assert states[i + 1] == rest[i];
      if i > 0 {
        assert states[i] == rest[i - 1] && HomewardAt(s, rest, i - 1);
      }
    }
  }

  // ----- the hold -----

  /** The hold takes the seconds that were set, cut to whole milliseconds. */
  lemma HoldIs(s: Settings)
    ensures s.holdSeconds - 0.001 < Hold(s) <= s.holdSeconds
  {
    CutToThousandths(s.holdSeconds * 1000.0, (s.holdSeconds * 1000.0).Floor);
  }

  lemma CutToThousandths(x: real, n: int)
    requires n as real <= x < n as real + 1.0
    ensures x / 1000.0 - 0.001 < n as real / 1000.0 <= x / 1000.0
  {}

  /** Until then the room stays at the target and the compressor off. */
  lemma {:induction false} RoomHeld(s: Settings, c: Command, x: Room, nows: seq<real>)
    requires Running(s, c) && AtTarget(c, x) && forall i :: 0 <= i < |nows| ==> nows[i] < x.holdUntil
    ensures forall i :: 0 < i < |States(s, c, x, nows)| ==>
              AtTarget(c, States(s, c, x, nows)[i]) && !States(s, c, x, nows)[i].compressor
    decreases |nows|
  {
    if nows != [] {
      var r := Tick(s, c, x, nows[0]);
      assert AtTarget(c, r) && !r.compressor && r.holdUntil == x.holdUntil;
      assert forall i :: 0 <= i < |nows[1..]| ==> nows[1..][i] == nows[i + 1];
      RoomHeld(s, c, r, nows[1..]);
      forall i | 0 < i < |States(s, c, x, nows)|
        ensures AtTarget(c, States(s, c, x, nows)[i]) && !States(s, c, x, nows)[i].compressor
      {
        assert States(s, c, x, nows)[i] == States(s, c, r, nows[1..])[i - 1];
      }
    }
  }

  // ----- the clock -----

  /** The first tick takes no time, none takes more than five seconds, and a clock that runs backwards stands still. */
  lemma TickTimes(lastTick: real, now: real)
    ensures lastTick == 0.0 || now <= lastTick ==> Dt(lastTick, now) == 0.0
    ensures lastTick != 0.0 && lastTick <= now <= lastTick + 5.0 ==> Dt(lastTick, now) == now - lastTick
    ensures lastTick != 0.0 && now >= lastTick + 5.0 ==> Dt(lastTick, now) == 5.0
  {}

  /** Without dynamics the room stays as it is, and the compressor off. */
  lemma NoDynamics(s: Settings, c: Command, x: Room, now: real)
    requires Sane(s) && !s.dynamics && 0.0 <= x.room <= 60.0
    ensures Tick(s, c, x, now) == x.(compressor := false, lastTick := now)
  {}

  /** The clock goes on, by five seconds at most from tick to tick. */
  predicate Steady(lastTick: real, nows: seq<real>)
    decreases |nows|
  {
    nows == [] || (lastTick <= nows[0] <= lastTick + 5.0 && Steady(nows[0], nows[1..]))
  }

  /** Tick time is real time then. */
  lemma {:induction false} ElapsedIsRealTime(lastTick: real, nows: seq<real>)
    requires lastTick > 0.0 && Steady(lastTick, nows)
    ensures Elapsed(lastTick, nows) == Last(lastTick, nows) - lastTick
    decreases |nows|
  {
    if nows != [] {
      ElapsedIsRealTime(nows[0], nows[1..]);
    }
  }

  // ----- how fast -----

  /** The speed of the compressor at this distance from the target, in degrees a second. */
  function Speed(s: Settings, distance: real): real
    requires Sane(s)
  {
    Max(0.01, Max(0.1, distance) / s.secondsToTarget)
  }

  /** The time it takes at least, at the speed of the start, to get within two hundredths of a degree of the target. */
  function Least(s: Settings, distance: real): real
    requires Sane(s)
  {
    (distance - 0.02) / Speed(s, distance)
  }

  lemma SpeedFalls(s: Settings, d: real, e: real)
    requires Sane(s) && e <= d
    ensures Speed(s, e) <= Speed(s, d)
  {
    Divided(Max(0.1, e), Max(0.1, d), s.secondsToTarget);
  }

  lemma Divided(a: real, b: real, q: real)
    requires a <= b && q > 0.0
    ensures a / q <= b / q
  {}

  lemma Quotient(a: real, v: real, time: real)
    requires v > 0.0
    ensures a <= v * time <==> a / v <= time
  {}

  /** A tick at that speed takes no more off the time than it lasts. */
  lemma LeastLater(s: Settings, d: real, e: real, dt: real)
    requires Sane(s) && dt >= 0.0 && d - Speed(s, d) * dt <= e <= d
    ensures e >= 0.02 ==> Least(s, d) <= dt + Least(s, e)
    ensures e <= 0.02 ==> Least(s, d) <= dt
  {
    var v, w := Speed(s, d), Speed(s, e);
    SpeedFalls(s, d, e);
    Slower(d - 0.02, e - 0.02, v, w, dt);
  }

  lemma Slower(a: real, b: real, v: real, w: real, dt: real)
    requires 0.0 < w <= v && a - v * dt <= b && dt >= 0.0
    ensures b >= 0.0 ==> a / v <= dt + b / w
    ensures b <= 0.0 ==> a / v <= dt
  {
    Quotient(a, v, dt);
    if b >= 0.0 {
      var t := b / w;
      assert b == w * t;
      Products(w, v, t);
      assert a <= v * dt + v * t == v * (dt + t);
      Quotient(a, v, dt + t);
    }
  }

  lemma Products(w: real, v: real, t: real)
    requires w <= v && t >= 0.0
    ensures w * t <= v * t
  {}

  lemma ApproachedNoFaster(s: Settings, c: Command, x: Room, now: real, step: real)
    requires Running(s, c) && Active(s, c, x) && 0.0 <= x.room <= MAX_ROOM && step >= 0.0
    ensures var moved := Approached(s, c, x, now, step);
            var r := moved.(room := Clamp(0.0, MAX_ROOM, moved.room), lastTick := now);
            var rest := Distance(x.room, Target(c)) - step;
            if AtTarget(c, r) then rest < 0.02 else Distance(r.room, Target(c)) >= rest
  {}

  lemma ActiveTickRest(s: Settings, c: Command, x: Room, now: real)
    requires Running(s, c) && Active(s, c, x) && 0.0 <= x.room <= MAX_ROOM
    ensures var r := Tick(s, c, x, now);
            var rest := Distance(x.room, Target(c)) - Speed(s, Distance(x.room, Target(c))) * Dt(x.lastTick, now);
            if AtTarget(c, r) then rest < 0.02 else Distance(r.room, Target(c)) >= rest
  {
    ApproachedNoFaster(s, c, x, now, ActiveStep(s, c, x, Dt(x.lastTick, now)));
  }

  lemma TimeMadeUp(s: Settings, d: real, e: real, dt: real, reached: bool)
    requires Sane(s) && dt >= 0.0 && d >= 0.0
    requires var rest := d - Speed(s, d) * dt; if reached then rest < 0.02 else rest <= e <= d
    ensures Least(s, d) <= dt + if reached then 0.0 else Max(0.0, Least(s, e))
  {
    if reached {
      Quotient(d - 0.02, Speed(s, d), dt);
    } else {
      LeastLater(s, d, e, dt);
    }
  }

  /** The time that a tick lasts and that it takes from there make up for the time it took before. */
  lemma ActiveTickNoFaster(s: Settings, c: Command, x: Room, now: real)
    requires Running(s, c) && Active(s, c, x) && 0.0 <= x.room <= MAX_ROOM
    ensures var r := Tick(s, c, x, now);
            var before, after := Least(s, Distance(x.room, Target(c))), Least(s, Distance(r.room, Target(c)));
            before <= Dt(x.lastTick, now) + if AtTarget(c, r) then 0.0 else Max(0.0, after)
  {
    var r, dt, d := Tick(s, c, x, now), Dt(x.lastTick, now), Distance(x.room, Target(c));
    ActiveTickRest(s, c, x, now);
    NoFurther(s, c, x, now);
    TimeMadeUp(s, d, Distance(r.room, Target(c)), dt, AtTarget(c, r));
  }

  lemma NoFurther(s: Settings, c: Command, x: Room, now: real)
    requires Running(s, c) && Active(s, c, x) && 0.0 <= x.room <= MAX_ROOM
    ensures Distance(Tick(s, c, x, now).room, Target(c)) <= Distance(x.room, Target(c))
  {
    ActiveTickApproaches(s, c, x, now);
  }

  /** The target is not reached sooner than the speed at the start allows, to within two hundredths of a degree. */
  lemma {:induction false} TargetNotSooner(s: Settings, c: Command, x: Room, nows: seq<real>, k: nat)
    requires Running(s, c) && 0.0 <= x.room <= MAX_ROOM && k <= |nows| && ReachesAt(s, c, States(s, c, x, nows), k)
    requires forall i :: 0 < i < k ==> !AtTarget(c, States(s, c, x, nows)[i])
    ensures Elapsed(x.lastTick, nows[..k]) >= Least(s, Distance(x.room, Target(c)))
    decreases k
  {
    StartsActive(s, c, x, nows, k);
    ActiveTickNoFaster(s, c, x, nows[0]);
    ElapsedFirst(x.lastTick, nows, k);
    if k > 1 {
      ReachesRest(s, c, x, nows, k);
      TargetNotSooner(s, c, Tick(s, c, x, nows[0]), nows[1..], k - 1);
    }
  }

  lemma StartsActive(s: Settings, c: Command, x: Room, nows: seq<real>, k: nat)
    requires Sane(s) && 0 < k <= |nows| && ReachesAt(s, c, States(s, c, x, nows), k)
    requires forall i :: 0 < i < k ==> !AtTarget(c, States(s, c, x, nows)[i])
    ensures Active(s, c, x) && (AtTarget(c, Tick(s, c, x, nows[0])) <==> k == 1)
  {
    var states := States(s, c, x, nows);
    assert Active(s, c, states[0]);
    assert states[1] == States(s, c, Tick(s, c, x, nows[0]), nows[1..])[0];
  }

  lemma ElapsedFirst(lastTick: real, nows: seq<real>, k: nat)
    requires 0 < k <= |nows|
    ensures Elapsed(lastTick, nows[..k]) == Dt(lastTick, nows[0]) + Elapsed(nows[0], nows[1..][..k - 1])
  {
    assert nows[..k][1..] == nows[1..][..k - 1];
  }

  lemma ReachesRest(s: Settings, c: Command, x: Room, nows: seq<real>, k: nat)
    requires Sane(s) && 1 < k <= |nows| && ReachesAt(s, c, States(s, c, x, nows), k)
    requires forall i :: 0 < i < k ==> !AtTarget(c, States(s, c, x, nows)[i])
    ensures var rest := States(s, c, Tick(s, c, x, nows[0]), nows[1..]);
            ReachesAt(s, c, rest, k - 1) && forall i :: 0 < i < k - 1 ==> !AtTarget(c, rest[i])
  {
    var states, rest := States(s, c, x, nows), States(s, c, Tick(s, c, x, nows[0]), nows[1..]);
    forall i | 0 <= i < k - 1
      ensures Active(s, c, rest[i]) && Closer(Target(c), rest[i].room, rest[i + 1].room)
    {
      assert rest[i] == states[i + 1] && rest[i + 1] == states[i + 1 + 1];
      assert Active(s, c, states[i + 1]) && Closer(Target(c), states[i + 1].room, states[i + 1 + 1].room);
    }
    assert forall i :: 0 <= i < |rest| ==> rest[i] == states[i + 1];
  }

  // ----- how fast the room drifts -----

  function DriftSpeed(s: Settings, distance: real): (v: real)
    requires Sane(s)
    ensures v > 0.0
  {
    Max(0.001, distance / s.passiveSecondsPerDegree)
  }

  /** The time that a drift takes at least: all of it at the speed of the start. */
  function Soonest(s: Settings, distance: real): real {
    Min(1000.0 * distance, s.passiveSecondsPerDegree)
  }

  lemma SoonestAtSpeed(s: Settings, d: real)
    requires Sane(s) && d >= 0.0
    ensures Soonest(s, d) == d / DriftSpeed(s, d)
  {
    AtSpeed(d, s.passiveSecondsPerDegree);
  }

  lemma AtSpeed(d: real, q: real)
    requires q > 0.0 && d >= 0.0
    ensures Min(1000.0 * d, q) == d / Max(0.001, d / q)
  {
    Quotient(d, 0.001, q);
    var v := d / q;
    assert d == v * q;
    if v > 0.001 {
      assert d / v == q;
      Quotient(d, 0.001, q);
    }
  }

  lemma DriftTickRest(s: Settings, c: Command, x: Room, now: real)
    requires Sane(s) && s.dynamics && Undriven(c, x, now) && 0.0 <= x.room <= 60.0
    ensures var d, e := Distance(x.room, s.roomDriftTemperature), Distance(Tick(s, c, x, now).room, s.roomDriftTemperature);
            d - DriftSpeed(s, d) * Dt(x.lastTick, now) <= e <= d
  {
    MovesNoFurther(s.roomDriftTemperature, x.room, DriftStep(s, c, x, Dt(x.lastTick, now)));
  }

  lemma MovesNoFurther(goal: real, room: real, step: real)
    requires 0.0 <= room <= 60.0 && step >= 0.0
    ensures Distance(room, goal) - step <= Distance(Clamp(0.0, 60.0, MoveTowards(room, goal, step)), goal) <= Distance(room, goal)
  {}

  lemma SoonestLater(s: Settings, d: real, e: real, dt: real)
    requires Sane(s) && dt >= 0.0 && e >= 0.0 && d - DriftSpeed(s, d) * dt <= e <= d
    ensures Soonest(s, d) <= dt + Soonest(s, e)
  {
    SoonestAtSpeed(s, d);
    SoonestAtSpeed(s, e);
    Divided(e, d, s.passiveSecondsPerDegree);
    Slower(d, e, DriftSpeed(s, d), DriftSpeed(s, e), dt);
  }

  lemma DriftTickNotSooner(s: Settings, c: Command, x: Room, now: real)
    requires Sane(s) && s.dynamics && Undriven(c, x, now) && 0.0 <= x.room <= 60.0
    ensures Soonest(s, Distance(x.room, s.roomDriftTemperature))
            <= Dt(x.lastTick, now) + Soonest(s, Distance(Tick(s, c, x, now).room, s.roomDriftTemperature))
  {
    DriftTickRest(s, c, x, now);
    SoonestLater(s, Distance(x.room, s.roomDriftTemperature), Distance(Tick(s, c, x, now).room, s.roomDriftTemperature),
                 Dt(x.lastTick, now));
  }

  /**
   The drift temperature is not reached sooner than after the seconds of passiveSecondsPerDegree, however many degrees
   away it is, or after a thousand seconds a degree if that is less.
   */
  lemma {:induction false} DriftNotSooner(s: Settings, c: Command, x: Room, nows: seq<real>)
    requires Sane(s) && s.dynamics && 0.0 <= x.room <= 60.0
    requires forall i :: 0 <= i < |nows| ==> UndrivenAt(c, x, nows, i)
    requires States(s, c, x, nows)[|nows|].room == s.roomDriftTemperature
    ensures Elapsed(x.lastTick, nows) >= Min(1000.0 * Distance(x.room, s.roomDriftTemperature), s.passiveSecondsPerDegree)
    decreases |nows|
  {
    if nows != [] {
      var r := Tick(s, c, x, nows[0]);
      assert UndrivenAt(c, x, nows, 0);
      UndrivenLater(s, c, x, nows);
      DriftTickNotSooner(s, c, x, nows[0]);
      DriftNotSooner(s, c, r, nows[1..]);
    }
  }

  // ----- single ticks, spelled out -----

  const EXAMPLE := Settings(true, 28.0, 60.0, 20.0, 1.0, 40.0, 0.7, 70.0)

  /** Cooling from 34 degrees to 24 over a minute, a second takes a sixth of a degree. */
  lemma CoolingSecond()
    ensures Tick(EXAMPLE, Command(true, 1, 8), Room(34.0, IDLE, false, 0.0, 1.0), 2.0)
            == Room(34.0 - 1.0 / 6.0, COOLING, true, 0.0, 2.0)
  {
    assert StepSize(0.01, 10.0, 60.0, 1.0) == 1.0 / 6.0;
  }

  /** After the hold in cool mode at 30 degrees the room drifts up, to 31, though the drift temperature is 28. */
  lemma DriftSecond()
    ensures Tick(EXAMPLE, Command(true, 1, 14), Room(30.0, HOLDING, false, 1.0, 1.0), 2.0)
            == Room(30.0 + 1.0 / 70.0, PASSIVE_DRIFT, false, 1.0, 2.0)
  {
    assert StepSize(0.001, 1.0, 70.0, 1.0) == 1.0 / 70.0;
  }

  /** With the power off the set point is nothing to the room: at 24 degrees it goes on to 28. */
  lemma OffSecond()
    ensures Tick(EXAMPLE, Command(false, 1, 8), Room(24.0, PASSIVE_DRIFT, false, 0.0, 1.0), 2.0)
            == Room(24.0 + 4.0 / 70.0, IDLE, false, 0.0, 2.0)
  {
    assert StepSize(0.001, 4.0, 70.0, 1.0) == 4.0 / 70.0;
  }

  /** Near the target a tenth of a degree counts as the distance, but a hundredth of a degree a second is the least. */
  lemma CoolingNearby()
    ensures Tick(EXAMPLE.(secondsToTarget := 1.0), Command(true, 1, 14), Room(30.05, COOLING, true, 0.0, 1.0), 1.25)
            == Room(30.025, COOLING, true, 0.0, 1.25)
    ensures Tick(EXAMPLE, Command(true, 1, 14), Room(30.05, COOLING, true, 0.0, 1.0), 2.0)
            == Room(30.04, COOLING, true, 0.0, 2.0)
  {
    assert StepSize(0.01, 0.1, 1.0, 0.25) == 0.025;
    assert StepSize(0.01, 0.1, 60.0, 1.0) == 0.01;
  }

  /** Within two hundredths of a degree it counts as reached, and the hold of twenty seconds starts. */
  lemma ReachedNearby()
    ensures Tick(EXAMPLE, Command(true, 1, 14), Room(30.025, COOLING, true, 0.0, 1.0), 2.0)
            == Room(30.0, HOLDING, true, 22.0, 2.0)
  {
    assert StepSize(0.01, 0.1, 60.0, 1.0) == 0.01;
    assert Hold(EXAMPLE) == 20.0;
  }
}
