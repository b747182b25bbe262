/** `DateTime` and `TimeSpan` tick units (100 ns), shared by both middlewares. */
module Ticks {
  const TicksPerSecond: nat := 10_000_000
  const TicksPerMinute: nat := 60 * TicksPerSecond
}
