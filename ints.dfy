/** Fixed-width integer types of the C++ source (u32, u64, u128, s64) as
    subset types of the unbounded `int`, with the signed-to-unsigned cast and
    the wrapping unsigned increment the source uses. */
module Ints {

  const U32_MODULUS: int := 0x1_0000_0000
  const U64_MODULUS: int := 0x1_0000_0000_0000_0000
  const U128_MODULUS: int := 0x1_0000_0000_0000_0000_0000_0000_0000_0000
  const S64_MIN: int := -0x8000_0000_0000_0000
  const S64_MAX: int := 0x7FFF_FFFF_FFFF_FFFF

  type u32 = x: int | 0 <= x < 0x1_0000_0000
  type u64 = x: int | 0 <= x < 0x1_0000_0000_0000_0000
  type u128 = x: int | 0 <= x < 0x1_0000_0000_0000_0000_0000_0000_0000_0000
  type s64 = x: int | -0x8000_0000_0000_0000 <= x < 0x8000_0000_0000_0000

  /** `static_cast<u64>` of a signed value: two's-complement reinterpretation,
      that is, reduction modulo 2^64. */
  function ToU64(x: s64): (r: u64)
    ensures x >= 0 ==> r == x
    ensures x < 0 ==> r == x + U64_MODULUS && r > S64_MAX
  {
    x % U64_MODULUS
  }

  /** Unsigned 64-bit post-increment: the next value of a u64 counter. */
  function IncU64(x: u64): (r: u64)
    ensures x < U64_MODULUS - 1 ==> r == x + 1
    ensures x == U64_MODULUS - 1 ==> r == 0
  {
    (x + 1) % U64_MODULUS
  }
}
