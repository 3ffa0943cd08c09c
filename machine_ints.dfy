/** The two machine integer types of the source: Rust's `u64` and Go's `int64`.
    Arithmetic on them is done on `int` and brought back explicitly with the
    two's-complement wrap-around of a 64-bit register. */
module MachineInts {

  const TwoTo64: int := 0x1_0000_0000_0000_0000
  const I64Min: int := -0x8000_0000_0000_0000
  const I64Max: int := 0x7FFF_FFFF_FFFF_FFFF

  type u64 = x: int | 0 <= x < 0x1_0000_0000_0000_0000
  type i64 = x: int | -0x8000_0000_0000_0000 <= x <= 0x7FFF_FFFF_FFFF_FFFF

  /** `a - b` on `u64` without overflow checks: the difference modulo 2^64. */
  function WrappingSubU64(a: u64, b: u64): (r: u64)
    ensures (r - (a - b)) % TwoTo64 == 0
    ensures r == a - b || r == a - b + TwoTo64
  {
    if a >= b then a - b else a - b + TwoTo64
  }

  /** `a + b` on `u64` without overflow checks: the sum modulo 2^64. */
  function WrappingAddU64(a: u64, b: u64): (r: u64)
    ensures (r - (a + b)) % TwoTo64 == 0
    ensures r == a + b || r == a + b - TwoTo64
  {
    if a + b < TwoTo64 then a + b else a + b - TwoTo64
  }

  /** Go's `a - b` on int64: the difference brought back into range modulo 2^64. */
  function WrappingSubI64(a: i64, b: i64): (r: i64)
    ensures (r - (a - b)) % TwoTo64 == 0
  {
    if a - b < I64Min then a - b + TwoTo64
    else if a - b > I64Max then a - b - TwoTo64
    else a - b
  }

  /** Go's `a + b` on int64: the sum brought back into range modulo 2^64. */
  function WrappingAddI64(a: i64, b: i64): (r: i64)
    ensures (r - (a + b)) % TwoTo64 == 0
  {
    if a + b < I64Min then a + b + TwoTo64
    else if a + b > I64Max then a + b - TwoTo64
    else a + b
  }
}
