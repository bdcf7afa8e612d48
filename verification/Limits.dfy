/** What the two rate limiters share. */
module Limits {

  const NANOS_PER_MILLI := 1_000_000
  const NANOS_PER_SECOND := 1_000_000_000

  datatype LimiterError = InvalidPolicy | Unreachable

  // A millisecond wait rounded up to whole seconds; nothing for a wait that is over.
  function RetryAfterSeconds(millis: int): int {
    if millis <= 0 then 0 else (millis + 999) / 1000
  }
}
