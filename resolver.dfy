/**
 * The schedule resolvers: which preset is due now, and what comes next today.
 *
 * Each works on the day's table sorted by time. The active slot is the last slot
 * of the sorted table that is due; the next slot is the first one that is later.
 * Their declarative partners, `IsActiveIndex` and `IsNextIndex`, speak of the
 * table in declaration order, so the lemmas below also show what the stable sort
 * decides: the last-declared slot wins a tie for "active", the first-declared a
 * tie for "next".
 */
module Resolver {

  import opened Wrappers
  import opened Clock
  import opened Schedule

  /** `current_time >= slot_time`: the slot's start has passed (or is now). */
  predicate Due(s: Slot, sec: SecondOfDay)
  {
    60 * s.minute <= sec
  }

  /** `current_time < slot_time`: the slot starts later today. */
  predicate Later(s: Slot, sec: SecondOfDay)
  {
    sec < 60 * s.minute
  }

  /** Number of leading slots that are due: where the walk of the tick loop stops. */
  function DuePrefix(ys: seq<Slot>, sec: SecondOfDay): (p: nat)
    ensures p <= |ys|
    ensures forall j :: 0 <= j < p ==> Due(ys[j], sec)
    ensures p < |ys| ==> !Due(ys[p], sec)
  {
    if ys == [] || !Due(ys[0], sec) then 0 else 1 + DuePrefix(ys[1..], sec)
  }

  /** In a sorted table the due slots are exactly the leading ones. */
  lemma SortedDueIsPrefix(ys: seq<Slot>, sec: SecondOfDay, k: nat)
    requires Sorted(ys) && k < |ys|
    ensures Due(ys[k], sec) <==> k < DuePrefix(ys, sec)
  {
  }

  /** The day's table: `self._schedules.get(schedule_type, [])`. */
  function DaySchedule(schedules: Schedules, now: Wall): seq<Slot>
  {
    var key := DayKey(DayOfWeek(now));
    if key in schedules then schedules[key] else []
  }

  lemma LastOfEqual(a: seq<Slot>, x: Slot, b: seq<Slot>, y: Slot)
    requires a + [x] == b + [y]
    ensures x == y
  {
    assert (a + [x])[|a|] == x;
  }

  lemma FirstOfEqual(x: Slot, a: seq<Slot>, y: Slot, b: seq<Slot>)
    requires [x] + a == [y] + b
    ensures x == y
  {
    assert ([x] + a)[0] == x;
  }

  // ----- active slot -----

  /** Slot `i` is due, no due slot has a later time, and no due slot declared after it has the same time. */
  ghost predicate IsActiveIndex(xs: seq<Slot>, sec: SecondOfDay, i: int)
  {
    && 0 <= i < |xs|
    && Due(xs[i], sec)
    && (forall j :: 0 <= j < |xs| && Due(xs[j], sec) ==> xs[j].minute <= xs[i].minute)
    && (forall j :: i < j < |xs| && Due(xs[j], sec) ==> xs[j].minute < xs[i].minute)
  }

  /** The slot the tick loop settles on: the last due slot of the sorted table. */
  function ActiveSlot(xs: seq<Slot>, sec: SecondOfDay): Option<Slot>
  {
    var ys := SortByTime(xs);
    var p := DuePrefix(ys, sec);
    if p == 0 then None else Some(ys[p - 1])
  }

  /** `active_preset` after the loop: None before the first slot, or when the active slot has no preset. */
  function ActivePreset(xs: seq<Slot>, sec: SecondOfDay): Option<string>
  {
    match ActiveSlot(xs, sec)
    case None => None
    case Some(s) => s.preset
  }

  lemma ActiveIndexExists(xs: seq<Slot>, sec: SecondOfDay)
    requires exists j :: 0 <= j < |xs| && Due(xs[j], sec)
    ensures exists i :: IsActiveIndex(xs, sec, i)
    decreases |xs|
  {
    var n := |xs| - 1;
    var init := xs[..n];
    if exists j :: 0 <= j < n && Due(init[j], sec) {
      ActiveIndexExists(init, sec);
      var i0 :| IsActiveIndex(init, sec, i0);
      if Due(xs[n], sec) && xs[i0].minute <= xs[n].minute {
        assert IsActiveIndex(xs, sec, n);
      } else {
        assert IsActiveIndex(xs, sec, i0);
      }
    } else {
      assert IsActiveIndex(xs, sec, n);
    }
  }

  /** In any stable sort of the table, the last due slot has the active slot's time. */
  lemma LastDueMinute(xs: seq<Slot>, ys: seq<Slot>, sec: SecondOfDay, i: nat)
    requires StableSortOf(ys, xs) && IsActiveIndex(xs, sec, i)
    ensures 0 < DuePrefix(ys, sec) && ys[DuePrefix(ys, sec) - 1].minute == xs[i].minute
  {
    var p := DuePrefix(ys, sec);
    PermutationMember(xs, ys, i);
    var k :| 0 <= k < |ys| && ys[k] == xs[i];
    SortedDueIsPrefix(ys, sec, k);
    assert ys[k].minute <= ys[p - 1].minute by {
      if k < p - 1 {
        assert Sorted(ys);
      }
    }
    PermutationMember(ys, xs, p - 1);
    var j :| 0 <= j < |xs| && xs[j] == ys[p - 1];
    assert Due(xs[j], sec);
  }

  /** In any stable sort of the table, the last due slot is the active slot itself. */
  lemma LastDueIsActive(xs: seq<Slot>, ys: seq<Slot>, sec: SecondOfDay, i: nat)
    requires StableSortOf(ys, xs) && IsActiveIndex(xs, sec, i)
    ensures 0 < DuePrefix(ys, sec) && ys[DuePrefix(ys, sec) - 1] == xs[i]
  {
    var p := DuePrefix(ys, sec);
    var t := xs[i].minute;
    LastDueMinute(xs, ys, sec, i);
    forall j | p - 1 < j < |ys| ensures ys[j].minute != t {
      SortedDueIsPrefix(ys, sec, j);
    }
    LastAtMinute(ys, p - 1);
    LastAtMinute(xs, i);
    assert AtMinute(ys, t) == AtMinute(xs, t);
    LastOfEqual(AtMinute(ys[..p - 1], t), ys[p - 1], AtMinute(xs[..i], t), xs[i]);
  }

  lemma ActiveSlotAt(xs: seq<Slot>, sec: SecondOfDay, i: nat)
    requires IsActiveIndex(xs, sec, i)
    ensures ActiveSlot(xs, sec) == Some(xs[i])
  {
    SortByTimeCorrect(xs);
    LastDueIsActive(xs, SortByTime(xs), sec, i);
  }

  /**
   * The active slot is the due slot with the latest time, the last-declared one
   * among equal times; there is none exactly when no slot is due yet.
   */
  lemma ActiveSlotCorrect(xs: seq<Slot>, sec: SecondOfDay)
    ensures ActiveSlot(xs, sec).None? <==> forall j :: 0 <= j < |xs| ==> !Due(xs[j], sec)
    ensures forall i :: IsActiveIndex(xs, sec, i) ==> ActiveSlot(xs, sec) == Some(xs[i])
    ensures ActiveSlot(xs, sec).Some? ==>
              exists i :: IsActiveIndex(xs, sec, i) && ActiveSlot(xs, sec) == Some(xs[i])
  {
    forall i | IsActiveIndex(xs, sec, i) ensures ActiveSlot(xs, sec) == Some(xs[i]) {
      ActiveSlotAt(xs, sec, i);
    }
    var ys := SortByTime(xs);
    if exists j :: 0 <= j < |xs| && Due(xs[j], sec) {
      ActiveIndexExists(xs, sec);
    } else if |ys| > 0 {
      SortByTimeCorrect(xs);
      PermutationMember(ys, xs, 0);
      assert !Due(ys[0], sec);
    }
  }

  /** The search loop of the tick, over the sorted table, stopping at the first slot still to come. */
  method ResolveActivePreset(xs: seq<Slot>, sec: SecondOfDay) returns (active: Option<string>)
    ensures active == ActivePreset(xs, sec)
    ensures (forall j :: 0 <= j < |xs| ==> !Due(xs[j], sec)) ==> active == None
    ensures forall i :: IsActiveIndex(xs, sec, i) ==> active == xs[i].preset
  {
    var ys := SortByTime(xs);
    ghost var p := DuePrefix(ys, sec);
    active := None;
    var k := 0;
    while k < |ys|
      invariant k <= |ys|
      invariant forall j :: 0 <= j < k ==> Due(ys[j], sec)
      invariant active == if k == 0 then None else ys[k - 1].preset
    {
      if Due(ys[k], sec) {
        active := ys[k].preset;
      } else {
        break;
      }
      k := k + 1;
    }
    assert k == p;
    ActiveSlotCorrect(xs, sec);
  }

  // ----- next slot -----

  /** Slot `i` is later, no later slot has an earlier time, and no later slot declared before it has the same time. */
  ghost predicate IsNextIndex(xs: seq<Slot>, sec: SecondOfDay, i: int)
  {
    && 0 <= i < |xs|
    && Later(xs[i], sec)
    && (forall j :: 0 <= j < |xs| && Later(xs[j], sec) ==> xs[i].minute <= xs[j].minute)
    && (forall j :: 0 <= j < i && Later(xs[j], sec) ==> xs[i].minute < xs[j].minute)
  }

  /** The first-match scan shared by the next-schedule and next-temperature lookups. */
  function FirstLater(ys: seq<Slot>, sec: SecondOfDay): (r: Option<Slot>)
    ensures r == if DuePrefix(ys, sec) < |ys| then Some(ys[DuePrefix(ys, sec)]) else None
  {
    if ys == [] then None
    else if Later(ys[0], sec) then Some(ys[0])
    else FirstLater(ys[1..], sec)
  }

  function NextSlot(xs: seq<Slot>, sec: SecondOfDay): Option<Slot>
  {
    FirstLater(SortByTime(xs), sec)
  }

  lemma NextIndexExists(xs: seq<Slot>, sec: SecondOfDay)
    requires exists j :: 0 <= j < |xs| && Later(xs[j], sec)
    ensures exists i :: IsNextIndex(xs, sec, i)
    decreases |xs|
  {
    var n := |xs| - 1;
    var init := xs[..n];
    if exists j :: 0 <= j < n && Later(init[j], sec) {
      NextIndexExists(init, sec);
      var i0 :| IsNextIndex(init, sec, i0);
      if Later(xs[n], sec) && xs[n].minute < xs[i0].minute {
        assert IsNextIndex(xs, sec, n);
      } else {
        assert IsNextIndex(xs, sec, i0);
      }
    } else {
      assert IsNextIndex(xs, sec, n);
    }
  }

  /** In any stable sort of the table, the first later slot has the next slot's time. */
  lemma FirstLaterMinute(xs: seq<Slot>, ys: seq<Slot>, sec: SecondOfDay, i: nat)
    requires StableSortOf(ys, xs) && IsNextIndex(xs, sec, i)
    ensures DuePrefix(ys, sec) < |ys| && ys[DuePrefix(ys, sec)].minute == xs[i].minute
  {
    var p := DuePrefix(ys, sec);
    PermutationMember(xs, ys, i);
    var k :| 0 <= k < |ys| && ys[k] == xs[i];
    SortedDueIsPrefix(ys, sec, k);
    assert ys[p].minute <= ys[k].minute by {
      if p < k {
        assert Sorted(ys);
      }
    }
    PermutationMember(ys, xs, p);
    var j :| 0 <= j < |xs| && xs[j] == ys[p];
    assert Later(xs[j], sec);
  }

  /** In any stable sort of the table, the first later slot is the next slot itself. */
  lemma FirstLaterIsNext(xs: seq<Slot>, ys: seq<Slot>, sec: SecondOfDay, i: nat)
    requires StableSortOf(ys, xs) && IsNextIndex(xs, sec, i)
    ensures DuePrefix(ys, sec) < |ys| && ys[DuePrefix(ys, sec)] == xs[i]
  {
    var p := DuePrefix(ys, sec);
    var t := xs[i].minute;
    FirstLaterMinute(xs, ys, sec, i);
    FirstAtMinute(ys, p);
    FirstAtMinute(xs, i);
    assert AtMinute(ys, t) == AtMinute(xs, t);
    FirstOfEqual(ys[p], AtMinute(ys[p + 1..], t), xs[i], AtMinute(xs[i + 1..], t));
  }

  lemma NextSlotAt(xs: seq<Slot>, sec: SecondOfDay, i: nat)
    requires IsNextIndex(xs, sec, i)
    ensures NextSlot(xs, sec) == Some(xs[i])
  {
    SortByTimeCorrect(xs);
    FirstLaterIsNext(xs, SortByTime(xs), sec, i);
  }

  /**
   * The next slot is the later slot with the earliest time, the first-declared one
   * among equal times; there is none exactly when no slot is later today.
   */
  lemma NextSlotCorrect(xs: seq<Slot>, sec: SecondOfDay)
    ensures NextSlot(xs, sec).None? <==> forall j :: 0 <= j < |xs| ==> !Later(xs[j], sec)
    ensures forall i :: IsNextIndex(xs, sec, i) ==> NextSlot(xs, sec) == Some(xs[i])
    ensures NextSlot(xs, sec).Some? ==>
              exists i :: IsNextIndex(xs, sec, i) && NextSlot(xs, sec) == Some(xs[i])
  {
    forall i | IsNextIndex(xs, sec, i) ensures NextSlot(xs, sec) == Some(xs[i]) {
      NextSlotAt(xs, sec, i);
    }
    var ys := SortByTime(xs);
    var p := DuePrefix(ys, sec);
    if exists j :: 0 <= j < |xs| && Later(xs[j], sec) {
      NextIndexExists(xs, sec);
    } else if p < |ys| {
      SortByTimeCorrect(xs);
      PermutationMember(ys, xs, p);
    }
  }

  /** `_get_next_schedule`: the time of the next slot today, if any. */
  function NextSchedule(schedules: Schedules, now: Wall): Option<Minute>
  {
    match NextSlot(DaySchedule(schedules, now), TimeOfDay(now))
    case None => None
    case Some(s) => Some(s.minute)
  }

  /** `self._presets.get(preset, {}).get("temperature")`: no default. */
  function CatalogTemperature(presets: map<string, real>, preset: Option<string>): Option<real>
  {
    if preset.Some? && preset.value in presets then Some(presets[preset.value]) else None
  }

  /** `_get_next_temperature`: the catalog temperature of the next slot's preset, if any. */
  function NextTemperature(schedules: Schedules, presets: map<string, real>, now: Wall): Option<real>
  {
    match NextSlot(DaySchedule(schedules, now), TimeOfDay(now))
    case None => None
    case Some(s) => CatalogTemperature(presets, s.preset)
  }

  /**
   * The next schedule time is strictly after now and is the smallest such slot
   * time of the day's table; there is none when no slot is later (no wrap into
   * the next day).
   */
  lemma NextScheduleCorrect(schedules: Schedules, now: Wall)
    ensures var day, sec, r := DaySchedule(schedules, now), TimeOfDay(now), NextSchedule(schedules, now);
      && (r.None? <==> forall j :: 0 <= j < |day| ==> !Later(day[j], sec))
      && (r.Some? ==> sec < 60 * r.value)
      && (r.Some? ==> exists j :: 0 <= j < |day| && day[j].minute == r.value)
      && (r.Some? ==> forall j :: 0 <= j < |day| && Later(day[j], sec) ==> r.value <= day[j].minute)
  {
    NextSlotCorrect(DaySchedule(schedules, now), TimeOfDay(now));
  }

  /**
   * The next temperature is the catalog temperature of the next slot's preset,
   * and None when there is no next slot or its preset has no catalog temperature.
   */
  lemma NextTemperatureCorrect(schedules: Schedules, presets: map<string, real>, now: Wall)
    ensures var day, sec, r := DaySchedule(schedules, now), TimeOfDay(now), NextTemperature(schedules, presets, now);
      && ((forall j :: 0 <= j < |day| ==> !Later(day[j], sec)) ==> r == None)
      && (forall i :: IsNextIndex(day, sec, i) ==> r == CatalogTemperature(presets, day[i].preset))
      && (r.Some? ==> exists i :: IsNextIndex(day, sec, i) && day[i].preset.Some?
                                  && day[i].preset.value in presets && r == Some(presets[day[i].preset.value]))
  {
    NextSlotCorrect(DaySchedule(schedules, now), TimeOfDay(now));
  }
}
