/**
 * Durations and the offset of a clock reading from the start of its day.
 * Instants and durations are whole nanoseconds; a Go `time.Duration` is a
 * signed 64-bit count of nanoseconds, so its range is written out here.
 */
module Clock {
  /** A `time.Duration`: nanoseconds. */
  type Duration = int

  const MinDuration: Duration := -0x8000_0000_0000_0000
  const MaxDuration: Duration := 0x7fff_ffff_ffff_ffff

  const Hour: Duration := 3_600_000_000_000
  const Day: Duration := 24 * Hour

  /** A value a `time.Duration` can hold. */
  predicate IsDuration(d: int) {
    MinDuration <= d <= MaxDuration
  }

  /**
   * `t.Sub(u)` for two instants given in nanoseconds: the difference, or the
   * nearest representable duration when the difference does not fit.
   */
  function Sub(t: int, u: int): (d: Duration)
    ensures IsDuration(d)
    ensures IsDuration(t - u) ==> d == t - u
    ensures d < 0 <==> t < u
    ensures !IsDuration(t - u) ==> (d == MaxDuration || d == MinDuration)
  {
    if t - u > MaxDuration then MaxDuration
    else if t - u < MinDuration then MinDuration
    else t - u
  }

  /**
   * `sinceMidnight(t)`: the offset of `t` from local midnight of the current
   * day. The day start is read from the wall clock at the moment of the call,
   * not derived from `t`, so it is a parameter here.
   */
  function SinceMidnight(t: int, dayStart: int): (d: Duration)
    ensures d >= 0 <==> t >= dayStart
    ensures IsDuration(t - dayStart) ==> dayStart + d == t
  {
    Sub(t, dayStart)
  }

  /**
   * A reading taken within the day that starts at `dayStart` maps to an
   * offset in [0h, 24h), and adding that offset back to the day start gives
   * the reading again.
   */
  lemma SinceMidnightWithinDay(t: int, dayStart: int)
    requires dayStart <= t < dayStart + Day
    ensures 0 <= SinceMidnight(t, dayStart) < Day
    ensures dayStart + SinceMidnight(t, dayStart) == t
  {
  }
}
