/** What the words and the keys of the simulator's control file mean: the words it reads are the names it reports. */
module ControlWords {
  import opened Bytes
  import opened Thermostat
  import opened Simulator

  // ----- words -----

  /** The name under which a mode is reported. */
  function ModeName(mode: nat): string {
    match mode
    case 0 => "auto" case 1 => "cool" case 2 => "heat" case 3 => "fan" case 4 => "dry" case _ => "unknown"
  }

  function FanName(fan: nat): string {
    match fan case 0 => "high" case 1 => "medium" case 2 => "low" case 3 => "auto" case _ => "unknown"
  }

  function SwingName(p: Panel): string {
    if p.swingBoth == 1 then "vertical" else if p.swingBoth == 2 then "horizontal" else if p.swingBoth == 3 then "both"
    else if p.swingBoth > 3 then "unknown"
    else if !p.useSwingBits then "off"
    else if p.horizontalSwing && p.verticalSwing then "both"
    else if p.horizontalSwing then "horizontal"
    else if p.verticalSwing then "vertical" else "off"
  }

  /** A mode that is named is set; any other word changes nothing. */
  lemma ModeRead(word: string, fallback: nat)
    ensures var mode := ModeFrom(Some(word), fallback);
            if word in {"auto", "cool", "heat", "fan", "dry"} then mode <= 4 && ModeName(mode) == word else mode == fallback
    ensures forall mode :: 0 <= mode <= 4 ==> ModeFrom(Some(ModeName(mode)), fallback) == mode
  {}

  lemma FanRead(word: string, fallback: nat)
    ensures var fan := FanFrom(Some(word), fallback);
            if word in {"high", "medium", "low", "auto"} then fan <= 3 && FanName(fan) == word else fan == fallback
    ensures forall fan :: 0 <= fan <= 3 ==> FanFrom(Some(FanName(fan)), fallback) == fan
  {}

  /** A swing that is named is reported by that name afterwards, whatever was set before; any other word is no swing. */
  lemma SwingRead(p: Panel, word: string)
    ensures SwingName(Swung(p, Some(word))) == if word in {"vertical", "horizontal", "both"} then word else "off"
  {}

  /** The words for true. Every other word is false. */
  const YES := {"1", "true", "on", "yes"}

  // ----- keys -----

  /** A control file that says nothing. */
  const NOTHING := Config(None, Missing, Missing, Missing, Missing, Missing, Missing, Missing, Missing, Missing, Missing, Missing,
                          None, None, None, None, None, None, None)

  /** A file that says nothing changes nothing. */
  lemma NothingSaid(s: Settings, p: Panel, x: Room, humidity: real, mtime: int)
    requires Sane(s) && 0.0 <= x.room <= 60.0 && 0.0 <= humidity <= 100.0
    ensures var news := Some(ControlFile(mtime, NOTHING));
            LoadedBy(s, news) == s && CommandedBy(p, news) == p && RoomBy(x, news) == x && HumidityBy(humidity, news) == humidity
  {}

  function AtLeast(least: real, v: real): real {
    if v < least then least else v
  }

  /** A single number changes the setting that it is for, as far as its limit allows, and no other. */
  lemma SingleSetting(s: Settings, v: real)
    requires Sane(s)
    ensures Loaded(s, NOTHING.(secondsToTarget := Value(v))) == s.(secondsToTarget := AtLeast(1.0, v))
    ensures Loaded(s, NOTHING.(holdSeconds := Value(v))) == s.(holdSeconds := AtLeast(0.0, v))
    ensures Loaded(s, NOTHING.(driftDelta := Value(v))) == s.(driftDelta := AtLeast(0.0, v))
    ensures Loaded(s, NOTHING.(driftSeconds := Value(v))) == s.(driftSeconds := AtLeast(1.0, v))
    ensures Loaded(s, NOTHING.(hysteresis := Value(v))) == s.(hysteresis := AtLeast(0.1, v))
    ensures Loaded(s, NOTHING.(passiveSecondsPerDegree := Value(v))) == s.(passiveSecondsPerDegree := AtLeast(5.0, v))
    ensures Loaded(s, NOTHING.(ambientTemperature := Value(v))) == s.(roomDriftTemperature := v)
    ensures Loaded(s, NOTHING.(roomDriftTemperature := Value(v))) == s.(roomDriftTemperature := v)
    ensures Loaded(s, NOTHING.(dynamics := Some("off"))) == s.(dynamics := false)
  {}

  /** A number that cannot be read is as good as none, and a drift temperature goes before an ambient one. */
  lemma Unread(s: Settings, v: real, w: real)
    requires Sane(s)
    ensures Loaded(s, NOTHING.(hysteresis := Unreadable, holdSeconds := Unreadable, ambientTemperature := Unreadable)) == s
    ensures Loaded(s, NOTHING.(roomDriftTemperature := Value(v), ambientTemperature := Value(w))) == s.(roomDriftTemperature := v)
  {}

  lemma OnlyDriven(p: Panel, cfg: Config)
    requires cfg.swingMode == cfg.turboMode == cfg.quietMode == cfg.displayStatus == None
    ensures Commanded(p, cfg) == Driven(p, cfg)
  {}

  lemma OnlySwitched(p: Panel, cfg: Config)
    requires cfg.targetTemperature == Missing && cfg.mode == cfg.fanMode == cfg.power == cfg.swingMode == None
    ensures Commanded(p, cfg) == Switched(p, cfg)
  {}

  lemma OnlySwung(p: Panel, word: string)
    ensures Commanded(p, NOTHING.(swingMode := Some(word))) == Swung(p, Some(word))
  {}

  /** A single key changes what it is for on the panel, and nothing else. */
  lemma SingleControl(p: Panel, target: int, word: string)
    requires 16 <= target <= 30
    ensures Commanded(p, NOTHING.(targetTemperature := Value(target))) == p.(setPoint := target - 16)
    ensures Commanded(p, NOTHING.(mode := Some(word))) == p.(mode := ModeFrom(Some(word), p.mode))
    ensures Commanded(p, NOTHING.(fanMode := Some(word))) == p.(fanMode := FanFrom(Some(word), p.fanMode))
    ensures Commanded(p, NOTHING.(power := Some(word))) == p.(power := word in YES)
  {
    OnlyDriven(p, NOTHING.(targetTemperature := Value(target)));
    OnlyDriven(p, NOTHING.(mode := Some(word)));
    OnlyDriven(p, NOTHING.(fanMode := Some(word)));
    OnlyDriven(p, NOTHING.(power := Some(word)));
  }

  lemma SingleSwitch(p: Panel, word: string)
    ensures Commanded(p, NOTHING.(turboMode := Some(word))) == p.(turboMode := word in YES)
    ensures Commanded(p, NOTHING.(quietMode := Some(word))) == p.(quietMode := word in YES)
    ensures Commanded(p, NOTHING.(displayStatus := Some(word))) == p.(displayStatus := word in YES)
    ensures var r := Commanded(p, NOTHING.(swingMode := Some(word)));
            r == p.(swingBoth := r.swingBoth, useSwingBits := false, horizontalSwing := false, verticalSwing := false)
  {
    OnlySwitched(p, NOTHING.(turboMode := Some(word)));
    OnlySwitched(p, NOTHING.(quietMode := Some(word)));
    OnlySwitched(p, NOTHING.(displayStatus := Some(word)));
    OnlySwung(p, word);
  }

  /** Unless it must be, a file that has been loaded is not loaded again until it has changed. */
  lemma NewsOnce(file: Option<ControlFile>, mtime: int, force: bool)
    ensures News(file, MtimeBy(mtime, News(file, mtime, force)), false) == None
    ensures file.Some? ==> (News(file, mtime, force) == file <==> force || file.value.mtime != mtime)
  {}
}
