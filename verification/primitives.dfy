/** Fixed-width integer types of the source and the casts between them. */
module Primitives {

  /** An unsigned 8-bit value: a plane byte of a decoded frame, or a baseline entry. */
  type byte = x: int | 0 <= x < 0x100

  /** An unsigned 16-bit value: the per-triplet accumulator. */
  type uint16 = x: int | 0 <= x < 0x1_0000

  /** A signed 64-bit value: a decoder timestamp. */
  type int64 = x: int | -0x8000_0000_0000_0000 <= x < 0x8000_0000_0000_0000

  /** Number of values of `usize` on a 64-bit target. */
  const USIZE_MODULUS: int := 0x1_0000_0000_0000_0000

  /** The absolute difference of two bytes (`u8::abs_diff`). */
  function AbsDiff(a: byte, b: byte): (d: byte)
    ensures a + d == b || b + d == a
  {
    if a >= b then a - b else b - a
  }

  /** The `as usize` cast of a signed 64-bit value: a two's-complement
      reinterpretation, so negative values wrap to the top of the range. */
  function AsUsize(t: int64): (u: nat)
    ensures u < USIZE_MODULUS
    ensures (u - t) % USIZE_MODULUS == 0
    ensures t >= 0 ==> u == t
  {
    if t >= 0 then t else t + USIZE_MODULUS
  }
}
