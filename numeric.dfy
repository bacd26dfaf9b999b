/** The fixed-width integer types of the Rust code, as subset types of `int`. */
module Numeric {

  const I32_MIN: int := -0x8000_0000
  const I32_MAX: int := 0x7FFF_FFFF
  const I64_MIN: int := -0x8000_0000_0000_0000
  const I64_MAX: int := 0x7FFF_FFFF_FFFF_FFFF

  predicate InI32(x: int) { I32_MIN <= x <= I32_MAX }
  predicate InI64(x: int) { I64_MIN <= x <= I64_MAX }

  /** Rust `i32`. */
  type Int32 = x: int | InI32(x)
  /** Rust `i64`. */
  type Int64 = x: int | InI64(x)
  /** Rust `u8`, used for raw header bytes. */
  type Byte = x: int | 0 <= x < 256
}
