/** Signed 64-bit integers, as the program's `int` and `time.Duration` are. */
module Integers {
  const TWO_63: int := 0x8000_0000_0000_0000
  const TWO_64: int := 0x1_0000_0000_0000_0000

  type Int64 = x: int | -TWO_63 <= x < TWO_63

  /** The value of a signed 64-bit register holding `x`. */
  function Wrap64(x: int): int {
    var m := x % TWO_64;
    if m < TWO_63 then m else m - TWO_64
  }

  function Min(a: int, b: int): int {
    if a <= b then a else b
  }

  /** Durations are nanosecond counts. */
  const SECOND: int := 1_000_000_000
}
