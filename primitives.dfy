/** Small value types shared by the other modules. */
module Primitives {

  /** The conventional Some/None datatype; a failed parse rule is `None`. */
  datatype Option<+T> = None | Some(value: T)

  /** Rust's `u8`. */
  newtype byte = x: int | 0 <= x < 0x100

  /** Rust's `u32`. */
  newtype u32 = x: int | 0 <= x < 0x1_0000_0000

  /** Rust's `i32`. */
  newtype i32 = x: int | -0x8000_0000 <= x < 0x8000_0000

  /** Rust's `usize` on a 64-bit target. */
  newtype usize = x: int | 0 <= x < 0x1_0000_0000_0000_0000
}
