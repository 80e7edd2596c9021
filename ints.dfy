/** Fixed-width integers and byte strings as Rust has them. */
module Ints {
  const U64_LIMIT: int := 0x1_0000_0000_0000_0000

  /** Rust `u8`. */
  newtype uint8 = x: int | 0 <= x < 0x100

  /** Rust `u64`. */
  newtype u64 = x: int | 0 <= x < U64_LIMIT

  /** Keys and values as the ordered store holds them. */
  type Bytes = seq<uint8>
}
