/**
 * Worked cases on the default configuration offered by the setup form
 * (config_flow.py): four weekday slots, two weekend slots, four presets.
 * The configuration and the clock reading come in as parameters fixed by the
 * requires clauses, so that each case is derived from the resolver lemmas.
 */
module Scenarios {

  import opened Wrappers
  import opened Clock
  import opened Schedule
  import opened Resolver
  import opened OverrideGuard
  import opened Controller

  function DefaultSchedules(): Schedules
  {
    map[
      "weekday" := [Slot(360, Some("home")), Slot(480, Some("away")),
                    Slot(1020, Some("home")), Slot(1320, Some("sleep"))],
      "weekend" := [Slot(480, Some("home")), Slot(1380, Some("sleep"))]]
  }

  function DefaultPresets(): Catalog
  {
    map["home" := 21.0, "away" := 18.0, "sleep" := 19.0, "vacation" := 16.0]
  }

  /** Local time `hh:mm` on the day `day` days after 0001-01-01, a Monday. */
  function At(day: nat, hh: nat, mm: nat): Wall
  {
    day * SecondsPerDay + hh * 3600 + mm * 60
  }

  /** A reading on Tuesday selects the weekday table. */
  lemma OnTuesday(schedules: Schedules, now: Wall, hh: nat, mm: nat)
    requires schedules == DefaultSchedules() && now == At(1, hh, mm) && hh < 24 && mm < 60
    ensures DayOfWeek(now) == 1 && TimeOfDay(now) == hh * 3600 + mm * 60
    ensures DaySchedule(schedules, now) == schedules["weekday"]
  {
    assert now == 86400 + (hh * 3600 + mm * 60);
  }

  lemma DefaultCatalog(presets: Catalog)
    requires presets == DefaultPresets()
    ensures CatalogTemperature(presets, Some("away")) == Some(18.0)
    ensures PresetTemperature(presets, "away") == 18.0
    ensures PresetTemperature(presets, "home") == 21.0
    ensures PresetTemperature(presets, "vacation") == 16.0
  {
  }

  /** Tuesday 07:30: home is active. */
  lemma TuesdayMorningActive(schedules: Schedules, now: Wall)
    requires schedules == DefaultSchedules() && now == At(1, 7, 30)
    ensures ActivePreset(DaySchedule(schedules, now), TimeOfDay(now)) == Some("home")
  {
    OnTuesday(schedules, now, 7, 30);
    ActiveSlotAt(DaySchedule(schedules, now), TimeOfDay(now), 0);
  }

  /** Tuesday 07:30: away follows at 08:00, with 18 degrees. */
  lemma TuesdayMorningNext(schedules: Schedules, presets: Catalog, now: Wall)
    requires schedules == DefaultSchedules() && presets == DefaultPresets() && now == At(1, 7, 30)
    ensures NextSchedule(schedules, now) == Some(480)
    ensures NextTemperature(schedules, presets, now) == Some(18.0)
  {
    OnTuesday(schedules, now, 7, 30);
    NextSlotAt(DaySchedule(schedules, now), TimeOfDay(now), 1);
    DefaultCatalog(presets);
  }

  /** Tuesday 23:00: sleep is active. */
  lemma TuesdayNightActive(schedules: Schedules, now: Wall)
    requires schedules == DefaultSchedules() && now == At(1, 23, 0)
    ensures ActivePreset(DaySchedule(schedules, now), TimeOfDay(now)) == Some("sleep")
  {
    OnTuesday(schedules, now, 23, 0);
    ActiveSlotAt(DaySchedule(schedules, now), TimeOfDay(now), 3);
  }

  /** Tuesday 23:00: nothing follows today; there is no wrap into Wednesday. */
  lemma TuesdayNightNext(schedules: Schedules, presets: Catalog, now: Wall)
    requires schedules == DefaultSchedules() && now == At(1, 23, 0)
    ensures NextSchedule(schedules, now) == None
    ensures NextTemperature(schedules, presets, now) == None
  {
    OnTuesday(schedules, now, 23, 0);
    var day, sec := DaySchedule(schedules, now), TimeOfDay(now);
    assert forall j :: 0 <= j < |day| ==> !Later(day[j], sec);
    NextSlotCorrect(day, sec);
    assert NextSlot(day, sec) == None;
  }

  /** Saturday 07:30 reads the weekend table, where nothing is due before 08:00. */
  lemma SaturdayMorning(schedules: Schedules, presets: Catalog, now: Wall)
    requires schedules == DefaultSchedules() && now == At(5, 7, 30)
    ensures DaySchedule(schedules, now) == schedules["weekend"]
    ensures AfterCheckSchedule(InitialState(), schedules, presets, now) == TickResult(InitialState(), NothingDue)
  {
    assert DayOfWeek(now) == 5 && TimeOfDay(now) == 27000;
    ActiveSlotCorrect(DaySchedule(schedules, now), TimeOfDay(now));
  }

  /** Between 10:00 and 10:59 on Tuesday the weekday table has away due. */
  lemma AwayDueOnTuesday(schedules: Schedules, now: Wall, mm: nat)
    requires schedules == DefaultSchedules() && now == At(1, 10, mm) && mm < 60
    ensures DaySchedule(schedules, now) != []
    ensures ActivePreset(DaySchedule(schedules, now), TimeOfDay(now)) == Some("away")
  {
    OnTuesday(schedules, now, 10, mm);
    ActiveSlotAt(DaySchedule(schedules, now), TimeOfDay(now), 1);
  }

  /** A manual switch to vacation at Tuesday 10:00 sets 16 degrees and still holds at 10:20, while away is due. */
  lemma OverrideHolds(schedules: Schedules, presets: Catalog, t: Wall, now: Wall)
    requires schedules == DefaultSchedules() && presets == DefaultPresets()
    requires t == At(1, 10, 0) && now == At(1, 10, 20)
    ensures var s1 := AfterSetPresetMode(InitialState(), presets, "vacation", t);
      && s1.targetTemperature == Some(16.0)
      && ActivePreset(DaySchedule(schedules, now), TimeOfDay(now)) == Some("away")
      && AfterCheckSchedule(s1, schedules, presets, now) == TickResult(s1, OverrideActive)
  {
    AwayDueOnTuesday(schedules, now, 20);
    DefaultCatalog(presets);
  }

  /** At 10:31 the window has lapsed and the schedule's away takes over, at 18 degrees. */
  lemma OverrideLapses(schedules: Schedules, presets: Catalog, t: Wall, now: Wall)
    requires schedules == DefaultSchedules() && presets == DefaultPresets()
    requires t == At(1, 10, 0) && now == At(1, 10, 31)
    ensures var s1 := AfterSetPresetMode(InitialState(), presets, "vacation", t);
      AfterCheckSchedule(s1, schedules, presets, now)
      == TickResult(State("away", Some(18.0), HeatCool, Some(now)), Applied)
  {
    var s1 := AfterSetPresetMode(InitialState(), presets, "vacation", t);
    DefaultCatalog(presets);
    assert s1 == State("vacation", Some(16.0), HeatCool, Some(t));
    AwayDueOnTuesday(schedules, now, 31);
    assert !Suppressed(s1.lastPresetChange, now);
    CheckScheduleApplies(s1, schedules, presets, now);
  }

  /** An unsupported preset name leaves the whole state as it was. */
  lemma BogusPreset(presets: Catalog, now: Wall)
    ensures var s := State("away", Some(18.0), Heat, Some(At(1, 9, 0)));
      AfterSetPresetMode(s, presets, "bogus", now) == s
  {
  }

  /** Two slots at 06:00: the later-declared is active after 06:00, the earlier-declared is next before it. */
  lemma EqualTimes(day: seq<Slot>)
    requires day == [Slot(360, Some("home")), Slot(360, Some("away"))]
    ensures ActivePreset(day, 7 * 3600) == Some("away")
    ensures NextSlot(day, 5 * 3600) == Some(Slot(360, Some("home")))
  {
    ActiveSlotAt(day, 7 * 3600, 1);
    NextSlotAt(day, 5 * 3600, 0);
  }

  function CloseSlots(): Schedules
  {
    map["weekday" := [Slot(360, Some("home")), Slot(370, Some("away"))]]
  }

  /** Slots ten minutes apart: the tick at Tuesday 06:00 switches sleep to home and, through the preset command, stamps the time. */
  lemma CloseSlotsFirstTick(schedules: Schedules, presets: Catalog, t: Wall)
    requires schedules == CloseSlots() && presets == DefaultPresets() && t == At(1, 6, 0)
    ensures AfterCheckSchedule(State("sleep", None, HeatCool, None), schedules, presets, t)
         == TickResult(State("home", Some(21.0), HeatCool, Some(t)), Applied)
  {
    assert DayOfWeek(t) == 1 && TimeOfDay(t) == 21600 && DaySchedule(schedules, t) == schedules["weekday"];
    ActiveSlotAt(schedules["weekday"], TimeOfDay(t), 0);
    DefaultCatalog(presets);
    CheckScheduleApplies(State("sleep", None, HeatCool, None), schedules, presets, t);
  }

  /** At 06:10 away is due, but the stamp of the 06:00 change holds it back. */
  lemma CloseSlotsSecondTick(schedules: Schedules, presets: Catalog, t: Wall, now: Wall)
    requires schedules == CloseSlots() && t == At(1, 6, 0) && now == At(1, 6, 10)
    ensures var s1 := State("home", Some(21.0), HeatCool, Some(t));
      && ActivePreset(DaySchedule(schedules, now), TimeOfDay(now)) == Some("away")
      && AfterCheckSchedule(s1, schedules, presets, now) == TickResult(s1, OverrideActive)
  {
    assert DayOfWeek(now) == 1 && TimeOfDay(now) == 22200 && DaySchedule(schedules, now) == schedules["weekday"];
    ActiveSlotAt(schedules["weekday"], TimeOfDay(now), 1);
  }
}
