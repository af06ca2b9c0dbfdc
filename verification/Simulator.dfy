/** The simulator's state and its operations, proved to take the ticks of Thermostat. */
module Simulator {
  import opened Bytes
  import opened Thermostat

  /** What the user has set on the device. */
  datatype Panel = Panel(
    power: bool, mode: nat, setPoint: nat, fanMode: nat, swingBoth: nat, useSwingBits: bool, horizontalSwing: bool,
    verticalSwing: bool, turboMode: bool, quietMode: bool, displayStatus: bool)

  /** The device's packet. */
  class HaierPacketControl {
    var acPower: bool
    var acMode: nat
    var setPoint: nat
    var fanMode: nat
    var swingBoth: nat
    var useSwingBits: bool
    var horizontalSwing: bool
    var verticalSwing: bool
    var turboMode: bool
    var quietMode: bool
    var displayStatus: bool
    var roomTemperature: nat
    var roomHumidity: nat
    var compressor: bool

    ghost function PanelOf(): Panel
      reads this`acPower, this`acMode, this`setPoint, this`fanMode, this`swingBoth, this`useSwingBits
      reads this`horizontalSwing, this`verticalSwing, this`turboMode, this`quietMode, this`displayStatus
    {
      Panel(acPower, acMode, setPoint, fanMode, swingBoth, useSwingBits, horizontalSwing, verticalSwing, turboMode,
            quietMode, displayStatus)
    }

    function CommandOf(): Command
      reads this`acPower, this`acMode, this`setPoint
    {
      Command(acPower, acMode, setPoint)
    }
  }

  /** A number in the control file: missing, not a number, or a number. */
  datatype Entry<T> = Missing | Unreadable | Value(value: T) {
    function Or(fallback: T): T {
      if Value? then value else fallback
    }
  }

  datatype Config = Config(
    dynamics: Option<string>, secondsToTarget: Entry<real>, holdSeconds: Entry<real>, driftDelta: Entry<real>,
    driftSeconds: Entry<real>, hysteresis: Entry<real>, passiveSecondsPerDegree: Entry<real>,
    ambientTemperature: Entry<real>, roomDriftTemperature: Entry<real>, humidity: Entry<real>,
    roomTemperature: Entry<real>, targetTemperature: Entry<int>, mode: Option<string>, fanMode: Option<string>,
    power: Option<string>, swingMode: Option<string>, turboMode: Option<string>, quietMode: Option<string>,
    displayStatus: Option<string>)

  /** The control file as it is found: when it was last changed, and what it says. */
  datatype ControlFile = ControlFile(mtime: int, cfg: Config)

  function Truth(text: Option<string>, fallback: bool): bool {
    match text
    case None => fallback
    case Some(t) => t == "1" || t == "true" || t == "on" || t == "yes"
  }

  function ModeFrom(text: Option<string>, fallback: nat): nat {
    match text
    case None => fallback
    case Some(t) =>
      if t == "auto" then 0 else if t == "cool" then 1 else if t == "heat" then 2 else if t == "fan" then 3
      else if t == "dry" then 4 else fallback
  }

  function FanFrom(text: Option<string>, fallback: nat): nat {
    match text
    case None => fallback
    case Some(t) =>
      if t == "high" then 0 else if t == "medium" then 1 else if t == "low" then 2 else if t == "auto" then 3
      else fallback
  }

  function SwingFrom(text: string): nat {
    if text == "both" then 3 else if text == "horizontal" then 2 else if text == "vertical" then 1 else 0
  }

  /** The set point for a wanted target, which is cut to 16 to 30 degrees. */
  function SetPointFor(wanted: Entry<int>, setPoint: nat): (r: nat)
    ensures wanted.Missing? ==> r == setPoint
    ensures !wanted.Missing? ==> r <= 14 && 16.0 + r as real == Clamp(16.0, 30.0, wanted.Or(16 + setPoint) as real)
  {
    var t := wanted.Or(16 + setPoint);
    if wanted.Missing? then setPoint else (if t < 16 then 16 else if t > 30 then 30 else t) - 16
  }

  function Driven(p: Panel, cfg: Config): Panel {
    p.(setPoint := SetPointFor(cfg.targetTemperature, p.setPoint), mode := ModeFrom(cfg.mode, p.mode),
       fanMode := FanFrom(cfg.fanMode, p.fanMode), power := Truth(cfg.power, p.power))
  }

  function Swung(p: Panel, swing: Option<string>): Panel {
    match swing
    case None => p
    case Some(t) =>
      p.(swingBoth := SwingFrom(t), useSwingBits := false, horizontalSwing := false, verticalSwing := false)
  }

  function Switched(p: Panel, cfg: Config): Panel {
    p.(turboMode := Truth(cfg.turboMode, p.turboMode), quietMode := Truth(cfg.quietMode, p.quietMode),
       displayStatus := Truth(cfg.displayStatus, p.displayStatus))
  }

  /** The panel after a control file. */
  function Commanded(p: Panel, cfg: Config): Panel {
    Switched(Swung(Driven(p, cfg), cfg.swingMode), cfg)
  }

  /** Rounds half up, which is away from zero here. */
  function Round(x: real): (n: nat)
    requires x >= 0.0
    ensures -0.5 < n as real - x <= 0.5
  {
    (x + 0.5).Floor
  }

  /** The settings after a control file, within their limits; a drift temperature goes before an ambient temperature. */
  function Loaded(s: Settings, cfg: Config): (r: Settings)
    ensures Sane(r)
  {
    Settings(Truth(cfg.dynamics, s.dynamics),
             cfg.roomDriftTemperature.Or(cfg.ambientTemperature.Or(s.roomDriftTemperature)),
             Max(1.0, cfg.secondsToTarget.Or(s.secondsToTarget)), Max(0.0, cfg.holdSeconds.Or(s.holdSeconds)),
             Max(0.0, cfg.driftDelta.Or(s.driftDelta)), Max(1.0, cfg.driftSeconds.Or(s.driftSeconds)),
             Max(0.1, cfg.hysteresis.Or(s.hysteresis)),
             Max(5.0, cfg.passiveSecondsPerDegree.Or(s.passiveSecondsPerDegree)))
  }

  /** A control file that is there and has changed, or must be loaded. */
  function News(file: Option<ControlFile>, mtime: int, force: bool): Option<ControlFile> {
    if file.Some? && (force || file.value.mtime != mtime) then file else None
  }

  function LoadedBy(s: Settings, news: Option<ControlFile>): Settings {
    match news case None => s case Some(f) => Loaded(s, f.cfg)
  }

  function CommandedBy(p: Panel, news: Option<ControlFile>): Panel {
    match news case None => p case Some(f) => Commanded(p, f.cfg)
  }

  function RoomBy(x: Room, news: Option<ControlFile>): Room {
    match news case None => x case Some(f) => x.(room := Clamp(0.0, MAX_ROOM, f.cfg.roomTemperature.Or(x.room)))
  }

  function HumidityBy(humidity: real, news: Option<ControlFile>): real {
    match news case None => humidity case Some(f) => Clamp(0.0, 100.0, f.cfg.humidity.Or(humidity))
  }

  function MtimeBy(mtime: int, news: Option<ControlFile>): int {
    match news case None => mtime case Some(f) => f.mtime
  }

  class Runtime {
    var initialized: bool
    var dynamics: bool
    var room: real
    var humidity: real
    var roomDriftTemperature: real
    var secondsToTarget: real
    var holdSeconds: real
    var driftDelta: real
    var driftSeconds: real
    var hysteresis: real
    var passiveSecondsPerDegree: real
    var compressorActive: bool
    var phase: Phase
    var holdUntil: real
    var lastTick: real
    var controlMtime: int

    ghost function SettingsOf(): Settings
      reads this`dynamics, this`roomDriftTemperature, this`secondsToTarget, this`holdSeconds, this`driftDelta
      reads this`driftSeconds, this`hysteresis, this`passiveSecondsPerDegree
    {
      Settings(dynamics, roomDriftTemperature, secondsToTarget, holdSeconds, driftDelta, driftSeconds, hysteresis,
               passiveSecondsPerDegree)
    }

    ghost function RoomOf(): Room
      reads this`room, this`phase, this`compressorActive, this`holdUntil, this`lastTick
    {
      Room(room, phase, compressorActive, holdUntil, lastTick)
    }

    ghost predicate Valid()
      reads this`dynamics, this`roomDriftTemperature, this`secondsToTarget, this`holdSeconds, this`driftDelta
      reads this`driftSeconds, this`hysteresis, this`passiveSecondsPerDegree
    {
      Sane(SettingsOf())
    }

    constructor ()
      ensures Valid() && !initialized
      ensures RoomOf() == Room(20.0, IDLE, false, 0.0, 0.0)
    {
      initialized, dynamics, room, humidity, roomDriftTemperature := false, true, 20.0, 45.0, 28.0;
      secondsToTarget, holdSeconds, driftDelta, driftSeconds := 60.0, 20.0, 1.0, 40.0;
      hysteresis, passiveSecondsPerDegree, compressorActive, phase := 0.7, 70.0, false, IDLE;
      holdUntil, lastTick, controlMtime := 0.0, 0.0, 0;
    }

    /** The packet says what the room is like, rounded. */
    ghost predicate Reported(state: HaierPacketControl)
      reads this`room, this`humidity, this`compressorActive
      reads state`roomTemperature, state`roomHumidity, state`compressor
    {
      && -0.5 < state.roomTemperature as real - room <= 0.5 && state.roomTemperature <= 60
      && -0.5 < state.roomHumidity as real - humidity <= 0.5 && state.roomHumidity <= 100
      && state.compressor == compressorActive
    }

    /** Keeps the room and the humidity possible and reports them, rounded, in the packet. */
    method SyncRoom(state: HaierPacketControl)
      modifies this`room, this`humidity, state`roomTemperature, state`roomHumidity, state`compressor
      ensures room == Clamp(0.0, MAX_ROOM, old(room)) && humidity == Clamp(0.0, 100.0, old(humidity))
      ensures Reported(state)
    {
      room := Max(0.0, Min(60.0, room));
      humidity := Max(0.0, Min(100.0, humidity));
      state.roomTemperature := Round(room);
      state.roomHumidity := Round(humidity);
      state.compressor := compressorActive;
    }

    /** The settings of the control file, within their limits, whatever the file says. */
    method LoadSettings(cfg: Config)
      modifies this`dynamics, this`roomDriftTemperature, this`secondsToTarget, this`holdSeconds, this`driftDelta
      modifies this`driftSeconds, this`hysteresis, this`passiveSecondsPerDegree, this`humidity
      ensures SettingsOf() == Loaded(old(SettingsOf()), cfg) && humidity == cfg.humidity.Or(old(humidity))
    {
      dynamics := Truth(cfg.dynamics, dynamics);
      secondsToTarget := Max(1.0, cfg.secondsToTarget.Or(secondsToTarget));
      holdSeconds := Max(0.0, cfg.holdSeconds.Or(holdSeconds));
      driftDelta := Max(0.0, cfg.driftDelta.Or(driftDelta));
      driftSeconds := Max(1.0, cfg.driftSeconds.Or(driftSeconds));
      hysteresis := Max(0.1, cfg.hysteresis.Or(hysteresis));
      passiveSecondsPerDegree := Max(5.0, cfg.passiveSecondsPerDegree.Or(passiveSecondsPerDegree));
      roomDriftTemperature := cfg.ambientTemperature.Or(roomDriftTemperature);
      roomDriftTemperature := cfg.roomDriftTemperature.Or(roomDriftTemperature);
      humidity := cfg.humidity.Or(humidity);
    }

    /** What the control file asks of the device. */
    method LoadCommand(state: HaierPacketControl, cfg: Config)
      modifies state`acPower, state`acMode, state`setPoint, state`fanMode, state`swingBoth, state`useSwingBits
      modifies state`horizontalSwing, state`verticalSwing, state`turboMode, state`quietMode, state`displayStatus
      ensures state.PanelOf() == Commanded(old(state.PanelOf()), cfg)
    {
      ApplyDrive(state, cfg);
      ApplySwing(state, cfg.swingMode);
      ApplySwitches(state, cfg);
    }

    method ApplyDrive(state: HaierPacketControl, cfg: Config)
      modifies state`acPower, state`acMode, state`setPoint, state`fanMode
      ensures state.PanelOf() == Driven(old(state.PanelOf()), cfg)
    {
      if !cfg.targetTemperature.Missing? {
        var wanted := cfg.targetTemperature.Or(16 + state.setPoint);
        var temp := if wanted < 16 then 16 else if wanted > 30 then 30 else wanted;
        state.setPoint := temp - 16;
      }
      state.acMode := ModeFrom(cfg.mode, state.acMode);
      state.fanMode := FanFrom(cfg.fanMode, state.fanMode);
      state.acPower := Truth(cfg.power, state.acPower);
    }

    method ApplySwitches(state: HaierPacketControl, cfg: Config)
      modifies state`turboMode, state`quietMode, state`displayStatus
      ensures state.PanelOf() == Switched(old(state.PanelOf()), cfg)
    {
      state.turboMode := Truth(cfg.turboMode, state.turboMode);
      state.quietMode := Truth(cfg.quietMode, state.quietMode);
      state.displayStatus := Truth(cfg.displayStatus, state.displayStatus);
    }

    method ApplySwing(state: HaierPacketControl, value: Option<string>)
      modifies state`swingBoth, state`useSwingBits, state`horizontalSwing, state`verticalSwing
      ensures state.PanelOf() == Swung(old(state.PanelOf()), value)
    {
      if value.Some? {
        state.swingBoth := 0;
        state.useSwingBits, state.horizontalSwing, state.verticalSwing := false, false, false;
        if value.value == "both" {
          state.swingBoth := 3;
        } else if value.value == "horizontal" {
          state.swingBoth := 2;
        } else if value.value == "vertical" {
          state.swingBoth := 1;
        }
      }
    }

    method Apply(state: HaierPacketControl, cfg: Config)
      modifies this`dynamics, this`roomDriftTemperature, this`secondsToTarget, this`holdSeconds, this`driftDelta
      modifies this`driftSeconds, this`hysteresis, this`passiveSecondsPerDegree, this`humidity, this`room, state
      ensures SettingsOf() == Loaded(old(SettingsOf()), cfg) && state.PanelOf() == Commanded(old(state.PanelOf()), cfg)
      ensures humidity == Clamp(0.0, 100.0, cfg.humidity.Or(old(humidity)))
      ensures room == Clamp(0.0, MAX_ROOM, cfg.roomTemperature.Or(old(room))) && Reported(state)
    {
      LoadSettings(cfg);
      if !cfg.roomTemperature.Missing? {
        room := cfg.roomTemperature.Or(room);
      }
      LoadCommand(state, cfg);
      SyncRoom(state);
    }

    /** Loads a control file that is news: settings, room, humidity and panel, each within its limits. */
    method LoadControl(state: HaierPacketControl, file: Option<ControlFile>, force: bool)
      requires Valid()
      modifies this`dynamics, this`roomDriftTemperature, this`secondsToTarget, this`holdSeconds, this`driftDelta
      modifies this`driftSeconds, this`hysteresis, this`passiveSecondsPerDegree, this`humidity, this`room
      modifies this`controlMtime, state
      ensures Valid()
      ensures var news := News(file, old(controlMtime), force);
              && controlMtime == MtimeBy(old(controlMtime), news)
              && SettingsOf() == LoadedBy(old(SettingsOf()), news)
              && RoomOf() == RoomBy(old(RoomOf()), news)
              && humidity == HumidityBy(old(humidity), news)
              && state.PanelOf() == CommandedBy(old(state.PanelOf()), news)
              && if news.None? then unchanged(state) else Reported(state)
    {
      if file.None? {
        return;
      }
      if !force && file.value.mtime == controlMtime {
        return;
      }
      controlMtime := file.value.mtime;
      Apply(state, file.value.cfg);
    }

    /** Whether the compressor is wanted, to cool or to heat; out of a drift it takes the hysteresis. */
    method Wanted(state: HaierPacketControl, t: real) returns (activeCool: bool, activeHeat: bool)
      requires t == Target(state.CommandOf())
      ensures activeCool == Cools(SettingsOf(), state.CommandOf(), RoomOf())
      ensures activeHeat == Heats(SettingsOf(), state.CommandOf(), RoomOf())
    {
      var autoMode := state.acPower && state.acMode == 0;
      var coolMode := state.acPower && state.acMode == 1;
      var heatMode := state.acPower && state.acMode == 2;
      activeCool, activeHeat := false, false;
      if coolMode {
        activeCool := if phase == PASSIVE_DRIFT then room >= t + hysteresis else room > t;
      } else if heatMode {
        activeHeat := if phase == PASSIVE_DRIFT then room <= t - hysteresis else room < t;
      } else if autoMode {
        if room < t {
          activeHeat := if phase == PASSIVE_DRIFT then room <= t - hysteresis else true;
        } else if room > t {
          activeCool := if phase == PASSIVE_DRIFT then room >= t + hysteresis else true;
        }
      }
    }

    method RunCompressor(state: HaierPacketControl, t: real, activeCool: bool, now: real, dt: real)
      requires Valid() && dt >= 0.0 && t == Target(state.CommandOf())
      requires activeCool == Cools(SettingsOf(), state.CommandOf(), RoomOf())
      modifies this`room, this`phase, this`compressorActive, this`holdUntil
      ensures var s, c, x := old(SettingsOf()), state.CommandOf(), old(RoomOf());
              RoomOf() == Approached(s, c, x, now, ActiveStep(s, c, x, dt))
    {
      compressorActive := true;
      phase := if activeCool then COOLING else HEATING;
      var step := StepSize(0.01, Max(0.1, Distance(room, t)), secondsToTarget, dt);
      room := MoveTowards(room, t, step);
      if Distance(room, t) < 0.02 {
        room := t;
        phase := HOLDING;
        holdUntil := now + (holdSeconds * 1000.0).Floor as real / 1000.0;
      }
    }

    method Drift(state: HaierPacketControl, t: real, dt: real)
      requires Valid() && dt >= 0.0 && t == Target(state.CommandOf()) && !compressorActive
      modifies this`room, this`phase
      ensures var s, c, x := old(SettingsOf()), state.CommandOf(), old(RoomOf());
              RoomOf() == Drifted(s, c, x, DriftStep(s, c, x, dt))
    {
      phase := if state.acPower then PASSIVE_DRIFT else IDLE;
      var driftGoal := roomDriftTemperature;
      if state.acPower && phase == PASSIVE_DRIFT && driftDelta > 0.0 {
        if state.acMode == 1 {
          driftGoal := Max(driftGoal, t + driftDelta);
        } else if state.acMode == 2 {
          driftGoal := Min(driftGoal, t - driftDelta);
        }
      }
      var step := StepSize(0.001, Distance(driftGoal, room), passiveSecondsPerDegree, dt);
      room := MoveTowards(room, driftGoal, step);
    }

    method Move(state: HaierPacketControl, now: real, dt: real)
      requires Valid() && dt >= 0.0 && !compressorActive
      modifies this`room, this`phase, this`compressorActive, this`holdUntil
      ensures RoomOf() == Moved(old(SettingsOf()), state.CommandOf(), old(RoomOf()), now, dt)
    {
      var t := 16.0 + state.setPoint as real;
      var activeCool, activeHeat := Wanted(state, t);
      if activeCool || activeHeat {
        RunCompressor(state, t, activeCool, now, dt);
      } else if state.acPower && now < holdUntil {
        phase := HOLDING;
        room := t;
      } else {
        Drift(state, t, dt);
      }
    }

    method SinceLastTick(now: real) returns (dt: real)
      modifies this`lastTick
      ensures dt == Dt(old(lastTick), now) && lastTick == now
    {
      if lastTick == 0.0 {
        lastTick := now;
      }
      dt := Max(0.0, Min(5.0, now - lastTick));
      lastTick := now;
    }

    /** A tick, but for keeping the room possible and reporting it. */
    method Advance(state: HaierPacketControl, now: real)
      requires Valid()
      modifies this`room, this`phase, this`compressorActive, this`holdUntil, this`lastTick
      ensures RoomOf() == Unsynced(old(SettingsOf()), state.CommandOf(), old(RoomOf()), now)
    {
      var dt := SinceLastTick(now);
      compressorActive := false;
      if dynamics {
        Move(state, now, dt);
      }
    }

    /** One tick at a reading of the clock. */
    method Simulate(state: HaierPacketControl, now: real)
      requires Valid()
      modifies this`room, this`humidity, this`phase, this`compressorActive, this`holdUntil, this`lastTick
      modifies state`roomTemperature, state`roomHumidity, state`compressor
      ensures Valid()
      ensures RoomOf() == Tick(old(SettingsOf()), state.CommandOf(), old(RoomOf()), now)
      ensures humidity == Clamp(0.0, 100.0, old(humidity))
      ensures Reported(state)
    {
      Advance(state, now);
      SyncRoom(state);
    }

    /** Starts from the packet; without a control file the room may be above its limit until the first tick. */
    method Init(state: HaierPacketControl, now: real, file: Option<ControlFile>)
      requires Valid()
      modifies this, state
      ensures Valid() && initialized && controlMtime == MtimeBy(old(controlMtime), file)
      ensures SettingsOf() == LoadedBy(old(SettingsOf()), file)
      ensures RoomOf() == RoomBy(old(RoomOf()).(room := old(state.roomTemperature) as real, lastTick := now), file)
      ensures humidity == HumidityBy(old(state.roomHumidity) as real, file)
      ensures state.PanelOf() == CommandedBy(old(state.PanelOf()), file)
    {
      room := state.roomTemperature as real;
      humidity := state.roomHumidity as real;
      lastTick := now;
      initialized := true;
      LoadControl(state, file, true);
    }

    /** A look at the control file, and a tick. */
    method LoadAndSimulate(state: HaierPacketControl, now: real, file: Option<ControlFile>)
      requires Valid()
      modifies this, state
      ensures Valid() && initialized == old(initialized) && Reported(state)
      ensures var news := News(file, old(controlMtime), false);
              && state.PanelOf() == CommandedBy(old(state.PanelOf()), news)
              && RoomOf() == Tick(LoadedBy(old(SettingsOf()), news), state.CommandOf(), RoomBy(old(RoomOf()), news), now)
    {
      ghost var news := News(file, controlMtime, false);
      ghost var s, x, p := LoadedBy(SettingsOf(), news), RoomBy(RoomOf(), news), CommandedBy(state.PanelOf(), news);
      LoadControl(state, file, false);
      SimulateFrom(state, now, s, x, p);
    }

    /** The tick of a state that has a name. */
    method SimulateFrom(state: HaierPacketControl, now: real, ghost s: Settings, ghost x: Room, ghost p: Panel)
      requires Valid() && SettingsOf() == s && RoomOf() == x && state.PanelOf() == p
      modifies this`room, this`humidity, this`phase, this`compressorActive, this`holdUntil, this`lastTick
      modifies state`roomTemperature, state`roomHumidity, state`compressor
      ensures Valid() && Reported(state) && state.PanelOf() == p
      ensures RoomOf() == Tick(s, state.CommandOf(), x, now)
    {
      Simulate(state, now);
    }

    /** What the simulator does once in a while: start if it has not yet, look at the control file, and take a tick. */
    method ControlTick(state: HaierPacketControl, startNow: real, startFile: Option<ControlFile>, now: real,
                       file: Option<ControlFile>)
      requires Valid()
      modifies this, state
      ensures Valid() && initialized && Reported(state)
      ensures old(initialized) ==>
                var news := News(file, old(controlMtime), false);
                && state.PanelOf() == CommandedBy(old(state.PanelOf()), news)
                && RoomOf() == Tick(LoadedBy(old(SettingsOf()), news), state.CommandOf(), RoomBy(old(RoomOf()), news), now)
      ensures !old(initialized) ==>
                var start := old(RoomOf()).(room := old(state.roomTemperature) as real, lastTick := startNow);
                var news := News(file, MtimeBy(old(controlMtime), startFile), false);
                && state.PanelOf() == CommandedBy(CommandedBy(old(state.PanelOf()), startFile), news)
                && RoomOf() == Tick(LoadedBy(LoadedBy(old(SettingsOf()), startFile), news), state.CommandOf(),
                                    RoomBy(RoomBy(start, startFile), news), now)
    {
      if !initialized {
        Init(state, startNow, startFile);
      }
      LoadAndSimulate(state, now, file);
    }
  }
}
