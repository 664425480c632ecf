/** Instants and durations as the program stores them: a count of nanoseconds, an
    instant being counted from the Unix epoch. Integers are unbounded here; the one
    place where the program's 64-bit arithmetic can wrap uses Wrap64. */
module Clock {

  const MILLISECOND: int := 1_000_000
  const SECOND: int := 1000 * MILLISECOND
  const MINUTE: int := 60 * SECOND
  const HOUR: int := 3600 * SECOND
  const DAY: int := 24 * HOUR

  const MIN_INT64: int := -0x8000_0000_0000_0000
  const MAX_INT64: int := 0x7FFF_FFFF_FFFF_FFFF

  /** The zero value of a time, the first instant of year 1, which the program reads as "not set". */
  const ZERO_TIME: int := -62_135_596_800 * SECOND

  predicate IsZero(t: int) {
    t == ZERO_TIME
  }

  /** Milliseconds since the epoch, rounded down. */
  function UnixMilli(t: int): int {
    t / MILLISECOND
  }

  function FromUnixMilli(ms: int): int {
    ms * MILLISECOND
  }

  /** The value a 64-bit signed register holds after computing x. */
  function Wrap64(x: int): int {
    (x - MIN_INT64) % 0x1_0000_0000_0000_0000 + MIN_INT64
  }

  function Min(a: int, b: int): int {
    if a <= b then a else b
  }
}

/** Optional values and results. */
module Wrappers {

  datatype Option<+T> = None | Some(value: T) {
    function GetOr(default: T): T {
      if Some? then value else default
    }
  }

  datatype Result<+T, +E> = Success(value: T) | Failure(error: E)
}
