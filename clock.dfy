/**
 * The wall clock, passed in as a value.
 *
 * The scheduler reads a naive local `datetime.now()`. Here one reading is a `Wall`:
 * whole local seconds since 0001-01-01 00:00, which is a Monday in the proleptic
 * Gregorian calendar Python's `datetime` uses. Naive datetimes subtract as
 * wall-clock values, so a difference of two `Wall`s is what the code measures.
 */
module Clock {

  type Wall = nat

  const SecondsPerDay: nat := 86400

  /** Python's `date.weekday()`: Monday is 0, Sunday is 6. */
  type Weekday = d: int | 0 <= d < 7

  /** Seconds since local midnight; the slot times compared against it have zero seconds. */
  type SecondOfDay = s: int | 0 <= s < 86400

  function DayOfWeek(now: Wall): Weekday
  {
    (now / SecondsPerDay) % 7
  }

  function TimeOfDay(now: Wall): SecondOfDay
  {
    now % SecondsPerDay
  }

  /** Keys of the two day-type tables in the schedules configuration (const.py). */
  const WeekdayKey: string := "weekday"
  const WeekendKey: string := "weekend"

  /** Monday to Friday read the weekday table, Saturday and Sunday the weekend table. */
  function DayKey(d: Weekday): (k: string)
    ensures k == WeekdayKey <==> d <= 4
    ensures k == WeekendKey <==> 5 <= d
  {
    if d < 5 then WeekdayKey else WeekendKey
  }
}
