/**
 * The scheduler entity: its state, the three user commands and the schedule tick.
 *
 * `State` is the entity's mutable part and the `After...` functions say what each
 * operation leaves behind; the class `Scheduler` holds the same fields and its
 * methods are proved to follow those functions. The lemmas state what the entity
 * promises over several calls.
 */
module Controller {

  import opened Wrappers
  import opened Clock
  import opened Schedule
  import opened Resolver
  import opened OverrideGuard

  /** Home Assistant's HVAC modes; the entity forwards whatever mode it is given. */
  datatype HvacMode = Off | Heat | Cool | HeatCool | Auto | Dry | FanOnly

  /** The entity's `_attr_preset_modes`. */
  const PresetModes: seq<string> := ["home", "away", "sleep", "vacation"]

  /** Temperature used when the catalog has none for the chosen preset. */
  const DefaultPresetTemperature: real := 21.0

  /** Preset name to its configured temperature; an entry without one is absent. */
  type Catalog = map<string, real>

  datatype State = State(
    presetMode: string,
    targetTemperature: Option<real>,
    hvacMode: HvacMode,
    lastPresetChange: Option<Wall>)

  /** What the tick did, one value per early return of the tick and one per outcome of the preset change. */
  datatype TickOutcome =
    | NoSchedules      // the schedules configuration is empty
    | NoDaySchedule    // the day type has no table, or an empty one
    | NothingDue       // the resolved preset is missing or empty
    | AlreadyActive    // the resolved preset is the current one
    | OverrideActive   // a preset change was made less than 30 minutes ago
    | InvalidPreset    // the preset change rejected the resolved name
    | Applied          // the preset change took place

  datatype TickResult = TickResult(state: State, outcome: TickOutcome)

  function InitialState(): State
  {
    State("home", None, HeatCool, None)
  }

  function PresetTemperature(presets: Catalog, name: string): real
  {
    if name in presets then presets[name] else DefaultPresetTemperature
  }

  /** `async_set_preset_mode`: reject an unknown name, else switch, stamp the time and take the preset's temperature. */
  function AfterSetPresetMode(s: State, presets: Catalog, name: string, now: Wall): State
  {
    if name !in PresetModes then s
    else s.(presetMode := name,
            lastPresetChange := Some(now),
            targetTemperature := Some(PresetTemperature(presets, name)))
  }

  /** `async_set_temperature`: a missing or falsy (zero) temperature is ignored. */
  function AfterSetTemperature(s: State, temperature: Option<real>): State
  {
    if temperature.Some? && temperature.value != 0.0 then s.(targetTemperature := temperature) else s
  }

  /** `async_set_hvac_mode`. */
  function AfterSetHvacMode(s: State, mode: HvacMode): State
  {
    s.(hvacMode := mode)
  }

  /** Python truthiness of `active_preset`. */
  predicate Truthy(p: Option<string>)
  {
    p.Some? && p.value != ""
  }

  /** `_async_check_schedule` at `now`; the change goes through the preset command. */
  function AfterCheckSchedule(s: State, schedules: Schedules, presets: Catalog, now: Wall): TickResult
  {
    if schedules == map[] then TickResult(s, NoSchedules)
    else
      var day := DaySchedule(schedules, now);
      if day == [] then TickResult(s, NoDaySchedule)
      else
        var active := ActivePreset(day, TimeOfDay(now));
        if !Truthy(active) then TickResult(s, NothingDue)
        else if active.value == s.presetMode then TickResult(s, AlreadyActive)
        else if Suppressed(s.lastPresetChange, now) then TickResult(s, OverrideActive)
        else if active.value !in PresetModes then TickResult(s, InvalidPreset)
        else TickResult(AfterSetPresetMode(s, presets, active.value, now), Applied)
  }

  /** The entity: configuration fixed at construction, four state fields. */
  class Scheduler {
    const schedules: Schedules
    const presets: Catalog
    var presetMode: string
    var targetTemperature: Option<real>
    var hvacMode: HvacMode
    var lastPresetChange: Option<Wall>

    function View(): State
      reads this
    {
      State(presetMode, targetTemperature, hvacMode, lastPresetChange)
    }

    constructor (schedules: Schedules, presets: Catalog)
      ensures this.schedules == schedules && this.presets == presets
      ensures View() == InitialState()
    {
      this.schedules := schedules;
      this.presets := presets;
      presetMode := "home";
      targetTemperature := None;
      hvacMode := HeatCool;
      lastPresetChange := None;
    }

    method SetTemperature(temperature: Option<real>)
      modifies this
      ensures View() == AfterSetTemperature(old(View()), temperature)
    {
      if temperature.Some? && temperature.value != 0.0 {
        targetTemperature := temperature;
      }
    }

    method SetHvacMode(mode: HvacMode)
      modifies this
      ensures View() == AfterSetHvacMode(old(View()), mode)
    {
      hvacMode := mode;
    }

    method SetPresetMode(name: string, now: Wall) returns (accepted: bool)
      modifies this
      ensures accepted <==> name in PresetModes
      ensures View() == AfterSetPresetMode(old(View()), presets, name, now)
    {
      if name !in PresetModes {
        return false;
      }
      presetMode := name;
      lastPresetChange := Some(now);
      targetTemperature := Some(PresetTemperature(presets, name));
      accepted := true;
    }

    method CheckSchedule(now: Wall) returns (outcome: TickOutcome)
      modifies this
      ensures TickResult(View(), outcome) == AfterCheckSchedule(old(View()), schedules, presets, now)
    {
      if schedules == map[] {
        return NoSchedules;
      }
      var day := DaySchedule(schedules, now);
      if day == [] {
        return NoDaySchedule;
      }
      var active := ResolveActivePreset(day, TimeOfDay(now));
      if active.None? || active.value == "" {
        return NothingDue;
      }
      if active.value == presetMode {
        return AlreadyActive;
      }
      if Suppressed(lastPresetChange, now) {
        return OverrideActive;
      }
      var accepted := SetPresetMode(active.value, now);
      outcome := if accepted then Applied else InvalidPreset;
    }
  }

  // ----- what the operations promise -----

  /** An unknown preset name changes nothing; a known one sets the preset, the stamp and the temperature, and nothing else. */
  lemma SetPresetModeEffect(s: State, presets: Catalog, name: string, now: Wall)
    ensures var r := AfterSetPresetMode(s, presets, name, now);
      && (name !in PresetModes ==> r == s)
      && (name in PresetModes ==>
            && r.presetMode == name
            && r.lastPresetChange == Some(now)
            && r.targetTemperature == Some(if name in presets then presets[name] else 21.0)
            && r.hvacMode == s.hvacMode)
  {
  }

  /** Only the target temperature can change, and only for a present, non-zero value. */
  lemma SetTemperatureEffect(s: State, temperature: Option<real>)
    ensures var r := AfterSetTemperature(s, temperature);
      && r.presetMode == s.presetMode
      && r.hvacMode == s.hvacMode
      && r.lastPresetChange == s.lastPresetChange
      && (r != s <==> temperature.Some? && temperature.value != 0.0 && s.targetTemperature != temperature)
      && (temperature.Some? && temperature.value != 0.0 ==> r.targetTemperature == temperature)
  {
  }

  /** Setting the HVAC mode leaves the preset, the temperature and the stamp alone. */
  lemma SetHvacModeEffect(s: State, mode: HvacMode)
    ensures var r := AfterSetHvacMode(s, mode);
      r.hvacMode == mode && r.presetMode == s.presetMode
      && r.targetTemperature == s.targetTemperature && r.lastPresetChange == s.lastPresetChange
  {
  }

  /** The tick leaves the state alone when there is no schedule, no table for today, nothing due, nothing new, or a recent preset change. */
  lemma CheckScheduleNoOp(s: State, schedules: Schedules, presets: Catalog, now: Wall)
    requires var day := DaySchedule(schedules, now); var active := ActivePreset(day, TimeOfDay(now));
      || schedules == map[]
      || day == []
      || !Truthy(active)
      || active == Some(s.presetMode)
      || Suppressed(s.lastPresetChange, now)
      || active.value !in PresetModes
    ensures AfterCheckSchedule(s, schedules, presets, now).state == s
    ensures AfterCheckSchedule(s, schedules, presets, now).outcome != Applied
  {
  }

  /**
   * Otherwise the tick applies the due preset through the preset command: the
   * preset, its temperature (21 if the catalog has none) and a fresh stamp, so a
   * schedule-driven change re-arms the override window too.
   */
  lemma CheckScheduleApplies(s: State, schedules: Schedules, presets: Catalog, now: Wall)
    requires var day := DaySchedule(schedules, now); var active := ActivePreset(day, TimeOfDay(now));
      && schedules != map[]
      && day != []
      && Truthy(active)
      && active != Some(s.presetMode)
      && !Suppressed(s.lastPresetChange, now)
      && active.value in PresetModes
    ensures var active := ActivePreset(DaySchedule(schedules, now), TimeOfDay(now));
      var r := AfterCheckSchedule(s, schedules, presets, now);
      && r.outcome == Applied
      && r.state.presetMode == active.value
      && r.state.targetTemperature == Some(PresetTemperature(presets, active.value))
      && r.state.lastPresetChange == Some(now)
      && r.state.hvacMode == s.hvacMode
  {
  }

  /** A second tick at the same instant changes nothing and applies nothing. */
  lemma CheckScheduleIdempotent(s: State, schedules: Schedules, presets: Catalog, now: Wall)
    ensures var s1 := AfterCheckSchedule(s, schedules, presets, now).state;
      var r2 := AfterCheckSchedule(s1, schedules, presets, now);
      r2.state == s1 && r2.outcome != Applied
  {
    var active := ActivePreset(DaySchedule(schedules, now), TimeOfDay(now));
    var r1 := AfterCheckSchedule(s, schedules, presets, now);
    if r1.outcome == Applied {
      assert r1.state == AfterSetPresetMode(s, presets, active.value, now);
      assert r1.state.presetMode == active.value;
      assert AfterCheckSchedule(r1.state, schedules, presets, now) == TickResult(r1.state, AlreadyActive);
    } else {
      assert r1.state == s;
      CheckScheduleNoOp(s, schedules, presets, now);
    }
  }

  /**
   * Override law: after a preset change at `t`, a tick at any `t2` with
   * `t <= t2 < t + 30 min` keeps that preset; from `t + 30 min` on a different,
   * supported, due preset is applied.
   */
  lemma OverrideWindow(s: State, schedules: Schedules, presets: Catalog, name: string, t: Wall, t2: Wall)
    requires name in PresetModes
    ensures var s1 := AfterSetPresetMode(s, presets, name, t);
      t <= t2 < t + 1800 ==> AfterCheckSchedule(s1, schedules, presets, t2).state == s1
    ensures var s1 := AfterSetPresetMode(s, presets, name, t);
      var active := ActivePreset(DaySchedule(schedules, t2), TimeOfDay(t2));
      (t + 1800 <= t2 && schedules != map[] && DaySchedule(schedules, t2) != []
       && Truthy(active) && active.value != name && active.value in PresetModes)
      ==> AfterCheckSchedule(s1, schedules, presets, t2).state
          == AfterSetPresetMode(s1, presets, active.value, t2)
  {
  }

  /**
   * Because the tick changes the preset through the preset command, a
   * schedule-driven change stamps the time as well, and for the next 30 minutes
   * the tick holds that preset even when another one falls due.
   */
  lemma ScheduleChangeRearmsOverride(s: State, schedules: Schedules, presets: Catalog, now: Wall, later: Wall)
    requires AfterCheckSchedule(s, schedules, presets, now).outcome == Applied
    requires now <= later < now + 1800
    ensures var s1 := AfterCheckSchedule(s, schedules, presets, now).state;
      s1.lastPresetChange == Some(now) && AfterCheckSchedule(s1, schedules, presets, later).state == s1
  {
    var active := ActivePreset(DaySchedule(schedules, now), TimeOfDay(now));
    OverrideWindow(s, schedules, presets, active.value, now, later);
  }

  /** Every operation keeps the current preset one of the four supported ones. */
  lemma OperationsKeepSupportedPreset(s: State, schedules: Schedules, presets: Catalog, now: Wall,
                                      name: string, temperature: Option<real>, mode: HvacMode)
    requires s.presetMode in PresetModes
    ensures AfterSetPresetMode(s, presets, name, now).presetMode in PresetModes
    ensures AfterSetTemperature(s, temperature).presetMode in PresetModes
    ensures AfterSetHvacMode(s, mode).presetMode in PresetModes
    ensures AfterCheckSchedule(s, schedules, presets, now).state.presetMode in PresetModes
  {
  }
}
