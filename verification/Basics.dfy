/** Shared value types: optional values, results, and the 64-bit machine integer. */
module Basics {

  datatype Option<+T> = None | Some(value: T)

  datatype Result<+T, +E> = Ok(value: T) | Err(error: E)

  const TWO_64: nat := 0x1_0000_0000_0000_0000
  const U64_MAX: nat := 0xFFFF_FFFF_FFFF_FFFF

  /** `std::uint64_t`, `std::size_t` and `std::uintptr_t` on the supported targets. */
  type u64 = x: nat | x < 0x1_0000_0000_0000_0000
}
