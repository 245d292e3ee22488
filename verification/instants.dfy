/** Instants and durations as the estimator's `time.Time` and `time.Duration` values.

    An instant is a count of nanoseconds since Go's zero `time.Time`
    (00:00:00 UTC on January 1 of year 1), so the zero time is the instant 0.
    `t.After(u)` is `t > u` and `t.Before(u)` is `t < u`; `.Local()` changes
    only the display location and is the identity on instants.
 */
module Instants {

  type Instant = int

  /** The zero `time.Time`, returned as the failure sentinel and the initial running estimate. */
  const Zero: Instant := 0

  const Second: int := 1_000_000_000

  /** Bounds of `time.Duration`, a signed 64-bit count of nanoseconds. */
  const MinDuration: int := -0x8000_0000_0000_0000
  const MaxDuration: int := 0x7FFF_FFFF_FFFF_FFFF

  type Duration = d: int | MinDuration <= d <= MaxDuration

  /** `t.Sub(u)`: the elapsed time from `u` to `t`, saturated at the bounds of `time.Duration`. */
  function Sub(t: Instant, u: Instant): (d: Duration)
    ensures d == t - u <==> MinDuration <= t - u <= MaxDuration
    ensures t - u > MaxDuration ==> d == MaxDuration
    ensures t - u < MinDuration ==> d == MinDuration
    ensures d >= 0 <==> t >= u
    ensures d == 0 <==> t == u
    ensures u <= t ==> d <= t - u
  {
    if t - u > MaxDuration then MaxDuration
    else if t - u < MinDuration then MinDuration
    else t - u
  }
}
