# Climate Scheduler: schedule resolution and override arbitration

This project models the core of the Home Assistant integration `climate_scheduler`. The core is the
`ClimateSchedulerEntity` in `custom_components/climate_scheduler/climate.py`. Its parts:

- A configuration of two day-type tables, `"weekday"` and `"weekend"`. Each table is a list of
  `{time, preset}` slots.
- A preset catalog mapping each preset name to a temperature.
- Four pieces of mutable state: the preset, the target temperature, the HVAC mode and the time of the
  last preset change.

At every tick the entity does the following:

1. It picks today's table.
2. It sorts the table by time.
3. It walks the sorted table to find the preset that is due now.
4. It switches to that preset, unless the preset is already current or a preset change happened less
   than 30 minutes ago.

Two read-only lookups report the next slot time today and that slot's catalog temperature.

Modules, one per concern of the entity:

| file | module | what it holds |
|---|---|---|
| `clock.dfy` | `Clock` | The clock reading as a value. `Wall` is whole local seconds since 0001-01-01 00:00, a Monday. It gives the weekday and the weekday/weekend key. |
| `schedule.dfy` | `Schedule` | Slots and day tables. `SortByTime` is a stable insertion sort with the result of Python's `sorted(..., key=time)`. It is proved ordered, a permutation and stable, using the `AtMinute` filter. |
| `resolver.dfy` | `Resolver` | The active-slot walk of the tick. `ActiveSlot` (a function) and `ResolveActivePreset` (the loop) find the due slot; `FirstLater` finds the next one. `NextSchedule` and `NextTemperature` model the two next-slot lookups, `_get_next_schedule` and `_get_next_temperature`. `IsActiveIndex` and `IsNextIndex` are declarative reference definitions stated on the table in declaration order, and they are proved equal to the sort-and-walk results. |
| `guard.dfy` | `OverrideGuard` | The 30-minute window as `Suppressed`. |
| `controller.dfy` | `Controller` | The entity state as the datatype `State`, plus one pure transition function per operation (`AfterSetPresetMode`, `AfterSetTemperature`, `AfterSetHvacMode`, `AfterCheckSchedule`). The class `Scheduler` holds the same fields; each of its methods is proved to leave exactly the state the matching function gives. |
| `scenarios.dfy` | `Scenarios` | Worked cases on the default configuration that the setup form creates, plus tie and override cases. |

Modelling choices:

- Slot times are minutes since midnight, in `0..1439`.
  - A slot without a `"time"` key is sorted and compared as `"00:00"`, so in the model it is minute 0.
  - A slot without a `"preset"` key has `preset == None`.
  - Times are taken to be zero-padded `"HH:MM"` strings, so the string sort equals the sort by minute.
- The catalog is `map<string, real>`. A preset whose entry has no `"temperature"` is absent from the map.
- The tick's `active_preset` is tested for Python truthiness: `None` and `""` are both falsy.
- Each tick reports which branch it took, as `TickOutcome`. The source returns nothing. Three branches
  write a log line (climate.py:158, 201, 204); the other four return silently.
- The wall clock is a parameter of every operation that reads it.

Behaviour of the code that its own names and comments do not suggest, modelled as written:

- The tick makes a schedule-driven change by calling `async_set_preset_mode` (climate.py:209). That
  command stamps `_last_preset_change` (climate.py:162) on every accepted change. So a
  schedule-driven change also re-arms the override window, although the comment at climate.py:197
  and the name `minutes_since_manual` (climate.py:199) speak only of a manual change.
  - `Controller.ScheduleChangeRearmsOverride` and `Scenarios.CloseSlotsSecondTick` prove the
    consequence: after a schedule-driven switch, a slot falling due within the next 30 minutes is
    held back.
- The preset command defaults the temperature to 21 when the catalog has none (climate.py:165).
  The next-temperature lookup reads the same catalog with no default (climate.py:265), so the two
  can disagree for a preset without a catalog temperature.
- The tick also returns early when the whole schedules configuration is empty (climate.py:174).
- Ties between slots at the same time are settled by the stable sort:
  - the last-declared due slot is active;
  - the first-declared later slot is next.

## Model

| member | source | states |
|---|---|---|
| Clock.DayKey | custom_components/climate_scheduler/climate.py:180-182 | Monday to Friday read the `"weekday"` table, Saturday and Sunday the `"weekend"` table, in both directions. |
| Schedule.InsertSorted | custom_components/climate_scheduler/climate.py:189 | Inserting a slot into a time-ordered table keeps it time-ordered. |
| Schedule.InsertPermutes | custom_components/climate_scheduler/climate.py:189 | Insertion adds exactly the new slot and removes nothing (multisets). |
| Schedule.SortByTimeOrders | custom_components/climate_scheduler/climate.py:189 | The sorted table is in ascending time order. |
| Schedule.SortByTimePermutes | custom_components/climate_scheduler/climate.py:189 | The sorted table holds exactly the table's slots, with multiplicity. |
| Schedule.InsertStable | custom_components/climate_scheduler/climate.py:189 | Insertion appends the new slot after all earlier-inserted slots of its time and leaves other times untouched. |
| Schedule.SortStable | custom_components/climate_scheduler/climate.py:189 | For every time, the slots at that time appear in the sorted table in declaration order (stability of `sorted`). |
| Schedule.SortByTimeCorrect | custom_components/climate_scheduler/climate.py:189 | The sort is a stable sort: ordered, a permutation, declaration order kept among equal times. |
| Schedule.SortSortedIsIdentity | custom_components/climate_scheduler/climate.py:189 | A table already in time order comes out of the sort unchanged. |
| Resolver.DuePrefix | custom_components/climate_scheduler/climate.py:189-194 | The walk stops at the first slot that is not due: every slot before the stopping point is due, the one at it is not. |
| Resolver.SortedDueIsPrefix | custom_components/climate_scheduler/climate.py:189-194 | In a sorted table a slot is due exactly when it lies before the stopping point of the walk. |
| Resolver.ActiveIndexExists | custom_components/climate_scheduler/climate.py:188-194 | Whenever some slot is due, a slot meeting the declarative definition of "active" exists. |
| Resolver.LastDueMinute | custom_components/climate_scheduler/climate.py:189-194 | In any stable sort of the table, the last due slot has the latest due time. |
| Resolver.LastDueIsActive | custom_components/climate_scheduler/climate.py:189-194 | In any stable sort of the table, the last due slot is the latest due slot, and among equal times it is the last declared. |
| Resolver.ActiveSlotAt | custom_components/climate_scheduler/climate.py:188-194 | The walk settles on the slot that the declarative definition names. |
| Resolver.ActiveSlotCorrect | custom_components/climate_scheduler/climate.py:188-194 | There is no active slot iff no slot is due (now is before the first slot). Otherwise the active slot is the due slot with the latest time, the last-declared one among equal times. |
| Resolver.ResolveActivePreset | custom_components/climate_scheduler/climate.py:187-194 | The loop over the sorted table, with `break` at the first slot still to come, returns the active slot's preset. It returns None when nothing is due, and the preset of the declaratively active slot otherwise. |
| Resolver.FirstLater | custom_components/climate_scheduler/climate.py:248-252 | The first-match scan returns the slot just past the due prefix, and None when every slot is due. |
| Resolver.NextIndexExists | custom_components/climate_scheduler/climate.py:248-252 | Whenever some slot is later today, a slot meeting the declarative definition of "next" exists. |
| Resolver.FirstLaterMinute | custom_components/climate_scheduler/climate.py:248-252 | In any stable sort of the table, the first later slot has the earliest later time. |
| Resolver.FirstLaterIsNext | custom_components/climate_scheduler/climate.py:248-252 | In any stable sort of the table, the first later slot is the earliest later slot, and among equal times it is the first declared. |
| Resolver.NextSlotAt | custom_components/climate_scheduler/climate.py:248-252 | The scan returns the slot that the declarative definition names. |
| Resolver.NextSlotCorrect | custom_components/climate_scheduler/climate.py:248-252 | There is no next slot iff no slot is strictly later than now. Otherwise the next slot is the later slot with the earliest time, the first-declared one among equal times. |
| Resolver.NextScheduleCorrect | custom_components/climate_scheduler/climate.py:241-252 | The next schedule time is strictly after now, is a slot time of today's table, and is the smallest such. It is None exactly when no slot is later today, with no wrap into the next day. |
| Resolver.NextTemperatureCorrect | custom_components/climate_scheduler/climate.py:254-266 | The next temperature is the catalog temperature of the next slot's preset, with no default. It is None when nothing follows today or the catalog has no temperature for that preset. |
| Controller.Scheduler.constructor | custom_components/climate_scheduler/climate.py:81-90 | A new entity keeps its configuration and starts in preset home, HVAC mode heat/cool, no target temperature and no preset-change stamp. |
| Controller.Scheduler.SetTemperature | custom_components/climate_scheduler/climate.py:142-147 | The new state is the old one with the target temperature replaced when a non-zero temperature is given, and unchanged otherwise. |
| Controller.Scheduler.SetHvacMode | custom_components/climate_scheduler/climate.py:149-153 | The new state is the old one with the HVAC mode replaced. |
| Controller.Scheduler.SetPresetMode | custom_components/climate_scheduler/climate.py:155-169 | The command is accepted iff the name is one of the four supported presets, and the new state is the one the preset transition gives. |
| Controller.Scheduler.CheckSchedule | custom_components/climate_scheduler/climate.py:171-209 | The tick, run on the object through the active-preset loop and the preset command, leaves exactly the state and reports exactly the outcome of the pure tick transition. |
| Controller.SetPresetModeEffect | custom_components/climate_scheduler/climate.py:155-169 | An unsupported name changes nothing. A supported name sets the preset, stamps now and sets the catalog temperature (21 when absent), and keeps the HVAC mode. |
| Controller.SetTemperatureEffect | custom_components/climate_scheduler/climate.py:142-147 | Only the target temperature can change. It changes iff a non-zero value different from the current one is given; the preset, the mode and the stamp are kept. |
| Controller.SetHvacModeEffect | custom_components/climate_scheduler/climate.py:149-153 | The mode becomes the given one; the preset, the temperature and the stamp are kept. |
| Controller.CheckScheduleNoOp | custom_components/climate_scheduler/climate.py:174-202 | The tick changes nothing and applies nothing in six cases: empty configuration, no or empty table for today, no truthy due preset, the due preset already current, a preset change less than 30 minutes ago, or an unsupported due preset. |
| Controller.CheckScheduleApplies | custom_components/climate_scheduler/climate.py:196-209 | In every other case the tick applies the due preset: the preset, its catalog temperature (21 when absent), a fresh stamp, and the HVAC mode kept. |
| Controller.CheckScheduleIdempotent | custom_components/climate_scheduler/climate.py:171-209 | A second tick at the same instant leaves the state unchanged and applies nothing. |
| Controller.OverrideWindow | custom_components/climate_scheduler/climate.py:196-202 | After a preset change at t, any tick in [t, t + 30 min) keeps the state. From t + 30 min on, a different supported due preset is applied. |
| Controller.ScheduleChangeRearmsOverride | custom_components/climate_scheduler/climate.py:209 | A schedule-driven change stamps the time, so ticks during the next 30 minutes keep the preset it set. |
| Controller.OperationsKeepSupportedPreset | custom_components/climate_scheduler/climate.py:157-161 | Every operation keeps the current preset among the four supported ones. |
| Scenarios.OnTuesday | custom_components/climate_scheduler/config_flow.py:31-42 | A Tuesday reading selects the weekday table of the default configuration. |
| Scenarios.DefaultCatalog | custom_components/climate_scheduler/config_flow.py:44-49 | The default catalog gives away 18, home 21 and vacation 16. |
| Scenarios.TuesdayMorningActive | custom_components/climate_scheduler/config_flow.py:31-37 | On Tuesday at 07:30, home is active. |
| Scenarios.TuesdayMorningNext | custom_components/climate_scheduler/config_flow.py:31-37 | On Tuesday at 07:30, the next change is at 08:00 with 18 degrees. |
| Scenarios.TuesdayNightActive | custom_components/climate_scheduler/config_flow.py:31-37 | On Tuesday at 23:00, sleep is active. |
| Scenarios.TuesdayNightNext | custom_components/climate_scheduler/config_flow.py:31-37 | On Tuesday at 23:00, there is no next change and no next temperature. |
| Scenarios.SaturdayMorning | custom_components/climate_scheduler/config_flow.py:38-41 | On Saturday at 07:30, the weekend table is read, nothing is due and the tick changes nothing. |
| Scenarios.AwayDueOnTuesday | custom_components/climate_scheduler/config_flow.py:31-37 | At any minute between 10:00 and 10:59 on Tuesday, away is due. |
| Scenarios.OverrideHolds | custom_components/climate_scheduler/climate.py:196-202 | After a manual switch to vacation (16 degrees) at 10:00, the tick at 10:20 is suppressed although away is due. |
| Scenarios.OverrideLapses | custom_components/climate_scheduler/climate.py:196-209 | At 10:31 the tick switches to away at 18 degrees and stamps 10:31. |
| Scenarios.BogusPreset | custom_components/climate_scheduler/climate.py:157-159 | An unsupported preset name leaves the whole state as it was. |
| Scenarios.EqualTimes | custom_components/climate_scheduler/climate.py:189 | With two slots at 06:00, the later-declared is active after 06:00 and the earlier-declared is next before 06:00. |
| Scenarios.CloseSlotsFirstTick | custom_components/climate_scheduler/climate.py:196-209 | A tick at 06:00 switches sleep to home at 21 degrees and stamps 06:00. |
| Scenarios.CloseSlotsSecondTick | custom_components/climate_scheduler/climate.py:196-202 | At 06:10 away is due, but the stamp of the schedule-driven 06:00 change holds it back. |

## Left out

- Controller.Scheduler.constructor: the configuration arrives already chosen, as the constructor's
  `schedules` and `presets` arguments. The source picks each from the entry's options first, then its
  data, then `{}` (climate.py:78-79); that precedence and the `{}` fallback are not modelled. The
  fallback is what leads to the modelled `NoSchedules` tick and the 21-degree default when an entry
  carries neither key.
- State restoration in `async_added_to_hass` (climate.py:113-135) is not modelled. It reads the host's
  persisted state and registers the five-minute timer. The first tick it runs is the same `CheckSchedule`.
- The command dispatch `_async_apply_to_climate_entity` (climate.py:211-239) and
  `async_write_ha_state` are not modelled. They are calls into the host platform that change none of
  the modelled state.
- The timer subscription and its removal (climate.py:127-140), logging, and the entity's read-only
  properties (`device_info`, `extra_state_attributes`, `current_temperature`, `hvac_action`) are not
  modelled.
- The configuration flow, `config_flow.py`, is not part of this model. Only its default tables and
  catalog appear, as scenario data in `Scenarios`.
- Each operation reads the clock once, as its `now` parameter, where the source calls `datetime.now()`
  several times.
- Clock readings are whole seconds. For slot comparisons this is exact, because slot times have zero
  seconds.
- OverrideGuard.Suppressed: the 30-minute test is on whole seconds, whereas the source compares microsecond-precise
  differences; two readings less than a second apart can be classified differently at the window's edge.
- Daylight-saving jumps and time zones are not modelled: the clock is naive local wall time, as in the
  source.
- `datetime.strptime` parsing is not modelled; slot times are given as minutes. A malformed time string
  (which raises in the source) and a time that is not zero-padded (for which the string sort differs
  from the numeric one) are not modelled.
- Temperatures are `real` rather than floating point. The values the source stores without checking
  their type (any truthy object passed to `async_set_temperature`, any catalog value) are modelled as
  reals.
- Resolver.NextScheduleCorrect: the source returns the slot's `"HH:MM"` string; the model returns its
  minute of the day.
- `HvacMode` lists Home Assistant's modes; the entity stores whatever mode it is given, so the four
  modes in `_attr_hvac_modes` are not enforced, as in the source.
