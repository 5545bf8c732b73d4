/** Go's `time.Duration`: a count of nanoseconds. */
module Durations {

  const Nanosecond: int := 1
  const Second: int := 1_000_000_000 * Nanosecond
  const Minute: int := 60 * Second
}
