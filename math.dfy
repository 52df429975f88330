/**
 * Larger-of and smaller-of helpers over the fixed-width integers.
 *
 * Every function is one conditional expression: `Max*` keeps `a` when it
 * compares greater than `b` and otherwise returns `b`; `Min*` keeps `a` when it
 * compares less than `b`. Signed widths compare as signed values and unsigned
 * widths as unsigned ones, which the subset types below make explicit.
 */
module MathOps {

  type i8 = x: int | -0x80 <= x < 0x80
  type u8 = x: int | 0 <= x < 0x100
  type i16 = x: int | -0x8000 <= x < 0x8000
  type u16 = x: int | 0 <= x < 0x1_0000
  type i32 = x: int | -0x8000_0000 <= x < 0x8000_0000
  type u32 = x: int | 0 <= x < 0x1_0000_0000
  type i64 = x: int | -0x8000_0000_0000_0000 <= x < 0x8000_0000_0000_0000
  type u64 = x: int | 0 <= x < 0x1_0000_0000_0000_0000

  function MaxS8(a: i8, b: i8): (r: i8)
    ensures r == a || r == b
    ensures a <= r && b <= r
  {
    if a > b then a else b
  }

  function MaxU8(a: u8, b: u8): (r: u8)
    ensures r == a || r == b
    ensures a <= r && b <= r
  {
    if a > b then a else b
  }

  function MaxS16(a: i16, b: i16): (r: i16)
    ensures r == a || r == b
    ensures a <= r && b <= r
  {
    if a > b then a else b
  }

  function MaxU16(a: u16, b: u16): (r: u16)
    ensures r == a || r == b
    ensures a <= r && b <= r
  {
    if a > b then a else b
  }

  function MaxS32(a: i32, b: i32): (r: i32)
    ensures r == a || r == b
    ensures a <= r && b <= r
  {
    if a > b then a else b
  }

  function MaxU32(a: u32, b: u32): (r: u32)
    ensures r == a || r == b
    ensures a <= r && b <= r
  {
    if a > b then a else b
  }

  function MaxS64(a: i64, b: i64): (r: i64)
    ensures r == a || r == b
    ensures a <= r && b <= r
  {
    if a > b then a else b
  }

  function MaxU64(a: u64, b: u64): (r: u64)
    ensures r == a || r == b
    ensures a <= r && b <= r
  {
    if a > b then a else b
  }

  function MinS8(a: i8, b: i8): (r: i8)
    ensures r == a || r == b
    ensures r <= a && r <= b
  {
    if a < b then a else b
  }

  function MinU8(a: u8, b: u8): (r: u8)
    ensures r == a || r == b
    ensures r <= a && r <= b
  {
    if a < b then a else b
  }

  function MinS16(a: i16, b: i16): (r: i16)
    ensures r == a || r == b
    ensures r <= a && r <= b
  {
    if a < b then a else b
  }

  function MinU16(a: u16, b: u16): (r: u16)
    ensures r == a || r == b
    ensures r <= a && r <= b
  {
    if a < b then a else b
  }

  function MinS32(a: i32, b: i32): (r: i32)
    ensures r == a || r == b
    ensures r <= a && r <= b
  {
    if a < b then a else b
  }

  function MinU32(a: u32, b: u32): (r: u32)
    ensures r == a || r == b
    ensures r <= a && r <= b
  {
    if a < b then a else b
  }

  function MinS64(a: i64, b: i64): (r: i64)
    ensures r == a || r == b
    ensures r <= a && r <= b
  {
    if a < b then a else b
  }

  function MinU64(a: u64, b: u64): (r: u64)
    ensures r == a || r == b
    ensures r <= a && r <= b
  {
    if a < b then a else b
  }

  /**
   * Reading two 8-bit patterns as unsigned instead of signed keeps their
   * order when both have the same sign and reverses it when the signs
   * differ: the unsigned larger is then the signed smaller, and the other way
   * round.
   */
  lemma SignednessDecides(a: i8, b: i8)
    ensures (a < 0) == (b < 0) ==> MaxU8(a % 0x100, b % 0x100) == MaxS8(a, b) % 0x100
    ensures (a < 0) == (b < 0) ==> MinU8(a % 0x100, b % 0x100) == MinS8(a, b) % 0x100
    ensures (a < 0) != (b < 0) ==> MaxU8(a % 0x100, b % 0x100) == MinS8(a, b) % 0x100
    ensures (a < 0) != (b < 0) ==> MinU8(a % 0x100, b % 0x100) == MaxS8(a, b) % 0x100
  {
    assert a % 0x100 == if a < 0 then a + 0x100 else a;
    assert b % 0x100 == if b < 0 then b + 0x100 else b;
  }
}
