/** Clock readings, the duration between two of them, and Go's integer division of durations. */
module Durations {
  import opened Int64

  /** A clock reading in nanoseconds; Go's zero time is the reading 0. */
  type Time = int

  const ZERO_TIME: Time := 0

  /** now.Sub(then): saturates at the ends of the duration range. */
  function Sub(now: Time, then_: Time): (d: int64)
    ensures MIN64 <= now - then_ <= MAX64 ==> d == now - then_
  {
    if now - then_ > MAX64 then MAX64 else if now - then_ < MIN64 then MIN64 else now - then_
  }

  /** Go's integer division truncates toward zero. */
  function TruncatedDiv(a: int, b: int): int
    requires b > 0
  {
    if a < 0 then -((-a) / b) else a / b
  }
}
