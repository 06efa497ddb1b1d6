/** The override guard of the schedule tick. */
module OverrideGuard {

  import opened Wrappers
  import opened Clock

  /** Thirty minutes: `minutes_since_manual < 30` on whole seconds is `seconds < 1800`. */
  const WindowSeconds: int := 1800

  /**
   * A schedule-driven change is skipped while the last preset change is less than
   * the window ago. A stamp in the future (the clock was set back) also suppresses.
   */
  predicate Suppressed(lastPresetChange: Option<Wall>, now: Wall)
  {
    lastPresetChange.Some? && now - lastPresetChange.value < WindowSeconds
  }
}
