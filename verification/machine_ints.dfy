/** The fixed-width unsigned integers of the source, as subset types of `int`. */
module MachineInts {

  const U8_LIMIT: int := 0x100
  const U16_LIMIT: int := 0x1_0000
  const U32_LIMIT: int := 0x1_0000_0000

  type u8 = x: int | 0 <= x < U8_LIMIT
  type u16 = x: int | 0 <= x < U16_LIMIT
  type u32 = x: int | 0 <= x < U32_LIMIT

  /** Rust's `n as u32` for a non-negative `usize`: keeps the low 32 bits. */
  function TruncateU32(n: nat): (r: u32)
    ensures n < U32_LIMIT ==> r == n
    ensures (n - r) % U32_LIMIT == 0
  {
    n % U32_LIMIT
  }
}
