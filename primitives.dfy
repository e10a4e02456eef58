/** The machine integer types of the original program, as subsets of the mathematical integers. */
module Primitives {

  const U8_LIMIT: int := 0x100
  const U32_LIMIT: int := 0x1_0000_0000
  const USIZE_LIMIT: int := 0x1_0000_0000_0000_0000
  const ISIZE_MIN: int := -0x8000_0000_0000_0000
  const ISIZE_MAX: int := 0x7FFF_FFFF_FFFF_FFFF

  type U8 = x: int | 0 <= x < U8_LIMIT
  type U32 = x: int | 0 <= x < U32_LIMIT
  type USize = x: int | 0 <= x < USIZE_LIMIT
  type ISize = x: int | ISIZE_MIN <= x <= ISIZE_MAX

  /** Rust's `x as isize` on a `usize`: two's-complement reinterpretation of the 64 bits. */
  function AsIsize(x: USize): (r: ISize)
    ensures x <= ISIZE_MAX ==> r == x
    ensures x > ISIZE_MAX ==> r < 0 && r + USIZE_LIMIT == x
  {
    if x <= ISIZE_MAX then x else x - USIZE_LIMIT
  }

  /** Rust's `u32::saturating_sub`. */
  function SaturatingSub(a: U32, b: U32): (r: U32)
    ensures r <= a
    ensures r == 0 <==> b >= a
    ensures r > 0 ==> a - r == b
  {
    if b >= a then 0 else a - b
  }
}
