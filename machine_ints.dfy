/**
 * The fixed-width integers of the binding: `u64` client and message ids,
 * `i32` status codes returned by the native library and `u32` enum codes.
 */
module MachineInts {
  const U64_LIMIT: int := 0x1_0000_0000_0000_0000
  const U64_MAX: int := U64_LIMIT - 1
  const I64_LIMIT: int := 0x8000_0000_0000_0000

  type U64 = x: int | 0 <= x < U64_LIMIT
  type U32 = x: int | 0 <= x < 0x1_0000_0000
  type I32 = x: int | -0x8000_0000 <= x < 0x8000_0000
  type I64 = x: int | -I64_LIMIT <= x < I64_LIMIT

  /**
   * Rust's `v as u64` for an `i32`: sign extension to 64 bits, which is the
   * same as reducing the value modulo 2^64.
   */
  function I32AsU64(v: I32): (r: U64)
    ensures r % U64_LIMIT == v % U64_LIMIT
    ensures 0 <= v ==> r == v
    ensures v < 0 ==> U64_LIMIT - 0x8000_0000 <= r
  {
    if v >= 0 then v else v + U64_LIMIT
  }

  /** Rust's `x as i64` for a `u64`: the same 64 bits read as two's complement. */
  function U64AsI64(x: U64): (r: I64)
    ensures r % U64_LIMIT == x % U64_LIMIT
  {
    if x < I64_LIMIT then x else x - U64_LIMIT
  }

  /** Sign extension loses nothing: reading the 64 bits back as signed gives the status. */
  lemma SignExtensionInvertible(v: I32)
    ensures U64AsI64(I32AsU64(v)) == v
  {
  }
}
