/**
 * `format_duration`: which unit a duration is shown in, and the numbers
 * shown. The decimal rendering (`:.0f`, `:.2f`, `:.1f`) is not modelled;
 * the model keeps the real number each format field receives.
 */
module Durations {
  /** The bucket a duration falls in, with the value(s) the format string renders. */
  datatype Shown =
    | Millis(ms: real)                   // `f"{seconds*1000:.0f}ms"`
    | Seconds(secs: real)                // `f"{seconds:.2f}s"`
    | Minutes(minutes: int, secs: real)  // `f"{minutes}m {secs:.1f}s"`

  function FormatDuration(seconds: real): (d: Shown)
    ensures d.Millis? <==> seconds < 1.0
    ensures d.Seconds? <==> 1.0 <= seconds < 60.0
    ensures d.Minutes? <==> 60.0 <= seconds
    ensures d.Millis? ==> d.ms == seconds * 1000.0
    ensures d.Seconds? ==> d.secs == seconds
    ensures d.Minutes? ==> 1 <= d.minutes && d.minutes as real * 60.0 + d.secs == seconds
    ensures d.Minutes? ==> 0.0 <= d.secs < 60.0
  {
    if seconds < 1.0 then Millis(seconds * 1000.0)
    else if seconds < 60.0 then Seconds(seconds)
    else
      // `int(seconds // 60)` and `seconds % 60`, both exact on reals
      var minutes := (seconds / 60.0).Floor;
      Minutes(minutes, seconds - minutes as real * 60.0)
  }
}
