/** Java value-level building blocks the registry entry relies on: references
    that may be null, and 32-bit `int` arithmetic. */
module JavaBase {

  /** A Java reference that may be null: `None` is `null`. */
  datatype Option<+T> = None | Some(value: T)

  /** Java's `int`. */
  type int32 = x: int | -0x8000_0000 <= x < 0x8000_0000

  const TwoTo32: int := 0x1_0000_0000

  /** The `int` that Java arithmetic produces for the mathematical value `x`:
      two's-complement wrap-around modulo 2^32. */
  function Wrap32(x: int): (r: int32)
    ensures (x - r) % TwoTo32 == 0
    ensures -0x8000_0000 <= x < 0x8000_0000 ==> r == x
  {
    var m := (x + 0x8000_0000) % TwoTo32;
    assert x + 0x8000_0000 == (x + 0x8000_0000) / TwoTo32 * TwoTo32 + m;
    m - 0x8000_0000
  }
}
