/** Readings of the monotonic clock. */
module Clock {
  /** Nanoseconds. */
  type Time = int

  const SECOND: Time := 1_000_000_000
}
