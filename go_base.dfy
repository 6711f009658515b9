/** Go's built-in value types as the heartbeat command uses them: bytes,
    64-bit signed integers with two's-complement wrap-around, and the
    (value, error) pair that Go functions return. */
module GoBase {

  /** Go's `byte` (an alias of `uint8`). */
  newtype byte = b: int | 0 <= b < 0x100

  const Int64Min: int := -0x8000_0000_0000_0000
  const Int64Max: int := 0x7FFF_FFFF_FFFF_FFFF

  /** Go's `int` and `int64` on a 64-bit platform; `time.Duration` is an `int64` of nanoseconds. */
  newtype int64 = x: int | -0x8000_0000_0000_0000 <= x < 0x8000_0000_0000_0000

  /** The two's-complement result Go gives when an integer computation leaves the `int64` range. */
  function Wrap64(x: int): (r: int64)
    ensures Int64Min <= x <= Int64Max ==> r as int == x
    ensures (r as int - x) % 0x1_0000_0000_0000_0000 == 0
  {
    var m := x % 0x1_0000_0000_0000_0000;
    if m <= Int64Max then m as int64 else (m - 0x1_0000_0000_0000_0000) as int64
  }

  /** The (value, error) return of a Go function: exactly one of the two is meaningful. */
  datatype Result<+T, +E> = Ok(value: T) | Err(error: E)

  datatype Option<+T> = None | Some(value: T)
}
