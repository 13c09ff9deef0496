/** Shared vocabulary of the model: outcomes of fallible steps, the answers of a
    list call to the cluster, and Go's representation of instants and durations. */
module Basics {

  /** An operation that either succeeds without a value or fails with an error
      (a Go function returning only `error`). */
  datatype Outcome<+E> = Pass | Fail(error: E)

  /** A value or an error (a Go function returning `(T, error)`). */
  datatype Result<+T, +E> = Ok(value: T) | Err(error: E)

  /** What a list call to the cluster answers: an error, or the listed items in
      the order the server returned them. */
  datatype Listing<+T> = ListFailed | Listed(items: seq<T>)

  const MinInt64: int := -0x8000_0000_0000_0000
  const MaxInt64: int := 0x7FFF_FFFF_FFFF_FFFF

  /** Go's `time.Duration`: a signed 64-bit count of nanoseconds. */
  type Duration = d: int | MinInt64 <= d <= MaxInt64

  const Second: Duration := 1_000_000_000

  /** An instant, in nanoseconds since Go's zero time (January 1, year 1,
      00:00:00 UTC). An unset `metav1.Time` holds the zero time. */
  type Time = int

  const ZeroTime: Time := 0

  /** January 1, 1970, 00:00:00 UTC, measured from the zero time. */
  const UnixEpoch: Time := 62_135_596_800 * Second

  /** `t.Before(u)`: strictly earlier. */
  predicate Before(t: Time, u: Time) {
    t < u
  }

  /** Unary minus on a 64-bit integer, which wraps for the most negative value. */
  function Neg64(d: Duration): (r: Duration)
    ensures d != MinInt64 ==> r + d == 0
    ensures d == MinInt64 ==> r == d
  {
    if d == MinInt64 then d else -d
  }

  /** `now.Add(-duration)`: the instant `duration` before `now`. */
  function Cutoff(now: Time, duration: Duration): (cutoff: Time)
    ensures duration != MinInt64 ==> cutoff + duration == now
  {
    now + Neg64(duration)
  }
}
