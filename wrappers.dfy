/** Small value types shared by the models: an optional value and the fixed-width
    unsigned integers of the source (u8 player slot ids, u16 milliseconds). */
module Wrappers {

  datatype Option<+T> = None | Some(value: T)

  /** Rust's `u8`. */
  type u8 = x: int | 0 <= x < 0x100

  /** Rust's `u16`. */
  type u16 = x: int | 0 <= x < 0x1_0000

  function Max(a: int, b: int): int { if a < b then b else a }

  function Min(a: int, b: int): int { if a < b then a else b }
}
