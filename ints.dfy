/** The fixed-width unsigned integers of the source, as subsets of `nat`,
    and the explicit truncations that Rust's `as` casts perform. */
module Ints {

  import opened Wrappers

  const U8_LIMIT: nat := 0x100
  const U16_LIMIT: nat := 0x1_0000
  const U64_LIMIT: nat := 0x1_0000_0000_0000_0000
  const U128_LIMIT: nat := 0x1_0000_0000_0000_0000_0000_0000_0000_0000

  type U8 = n: nat | n < U8_LIMIT
  type U16 = n: nat | n < U16_LIMIT
  type U64 = n: nat | n < U64_LIMIT
  type U128 = n: nat | n < U128_LIMIT

  /** A TOML integer (a signed 64-bit value). */
  type I64 = i: int | -0x8000_0000_0000_0000 <= i < 0x8000_0000_0000_0000

  /** `x as u8` for a non-negative length: keeps the low 8 bits. */
  function AsU8(x: nat): (r: U8)
    ensures x < U8_LIMIT ==> r == x
  {
    x % U8_LIMIT
  }

  /** `i as u16` for a signed integer: two's complement truncation, which is the
      Euclidean remainder modulo 2^16. */
  function AsU16(i: int): (r: U16)
    ensures 0 <= i < U16_LIMIT ==> r == i
    ensures (r - i) % U16_LIMIT == 0
  {
    i % U16_LIMIT
  }

  /** `i as u64` for a signed 64-bit integer: negative values wrap to 2^64 + i. */
  function AsU64(i: I64): (r: U64)
    ensures i >= 0 ==> r == i
    ensures i < 0 ==> r == U64_LIMIT + i
  {
    i % U64_LIMIT
  }

  /** `a + b` on u64 in a release build: wraps modulo 2^64. */
  function WrappingAddU64(a: U64, b: U64): (r: U64)
    ensures a + b < U64_LIMIT ==> r == a + b
    ensures a + b >= U64_LIMIT ==> r == a + b - U64_LIMIT
  {
    (a + b) % U64_LIMIT
  }

  /** `a.checked_add(b)` on u64. */
  function CheckedAddU64(a: U64, b: U64): (r: Option<U64>)
    ensures r.Some? <==> a + b < U64_LIMIT
    ensures r.Some? ==> r.value == a + b
  {
    if a + b < U64_LIMIT then Some(a + b) else None
  }
}
