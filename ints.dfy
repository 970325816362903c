/** The fixed-width integer types of the Rust source, as ranges of mathematical integers. */
module Ints {

  type Byte = bv8

  const U32_LIMIT: int := 0x1_0000_0000
  const I32_MIN: int := -0x8000_0000
  const I32_LIMIT: int := 0x8000_0000

  type U32 = x: int | 0 <= x < U32_LIMIT
  type I32 = x: int | I32_MIN <= x < I32_LIMIT
  type U64 = x: int | 0 <= x < 0x1_0000_0000_0000_0000

  function Min(a: int, b: int): int { if a <= b then a else b }
  function Max(a: int, b: int): int { if a <= b then b else a }

  /** Rust's `v as u32` on an `i32`: the two's-complement bit pattern read unsigned. */
  function I32AsU32(v: I32): (r: U32)
    ensures v >= 0 ==> r == v
    ensures v < 0 ==> r == v + U32_LIMIT && r >= I32_LIMIT
  {
    if v >= 0 then v else v + U32_LIMIT
  }
}
