/**
 * Rust's fixed-width integers and its `Result` type, as used by the
 * validators of this crate. Widths are those of a 64-bit target.
 */
module Primitives {

  /** `usize` on a 64-bit target. */
  type usize = x: int | 0 <= x < 0x1_0000_0000_0000_0000

  /** `u32`. */
  type u32 = x: int | 0 <= x < 0x1_0000_0000

  /** `u64`. */
  type u64 = x: int | 0 <= x < 0x1_0000_0000_0000_0000

  /** `std::result::Result`: either the validated value or a typed error. */
  datatype Result<T, E> = Ok(value: T) | Err(error: E)
}
