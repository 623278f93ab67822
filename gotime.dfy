/**
 * Go's `time.Time`, reduced to what the dispatch decision uses: instants on
 * the wall clock, `time.Unix`, `Time.Add` with a whole number of seconds,
 * the zero Time and the comparisons (which become integer comparisons).
 */
module GoTime {
  import opened Go

  /** An instant, in nanoseconds since the Unix epoch (1970-01-01T00:00:00Z). */
  type Instant = int

  const NanosPerSecond: int := 1_000_000_000

  /** Seconds from January 1 of year 1 to the Unix epoch; Go stores times as seconds since year 1. */
  const UnixToInternal: int := 62_135_596_800

  /** The zero Time, January 1 of year 1, 00:00:00 UTC: the instant `IsZero` recognises. */
  const ZeroTime: Instant := -UnixToInternal * NanosPerSecond

  /**
   * `time.Unix(sec, 0)`. Go keeps `sec + unixToInternal` in an int64, so a
   * `sec` within 62135596800 of the int64 maximum wraps to the far past.
   */
  function Unix(sec: int64): (t: Instant)
    ensures sec as int <= MaxInt64 - UnixToInternal ==> t == sec as int * NanosPerSecond
    ensures sec as int > MaxInt64 - UnixToInternal ==> t == (sec as int - TwoTo64) * NanosPerSecond
  {
    (Wrap64(sec as int + UnixToInternal) as int - UnixToInternal) * NanosPerSecond
  }

  /**
   * `t.Add(time.Duration(s) * time.Second)`. The product of an int32 and 10^9
   * always fits a Duration (an int64), so no wrap happens there.
   */
  function AddSeconds(t: Instant, s: int32): (r: Instant)
    ensures (r - t) % NanosPerSecond == 0 && (r - t) / NanosPerSecond == s as int
    ensures s > 0 ==> r > t
    ensures s == 0 ==> r == t
    ensures s < 0 ==> r < t
  {
    t + s as int * NanosPerSecond
  }
}
