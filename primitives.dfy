/** Machine-level value domains answered by the Thrift protocol reader. */
module Primitives {

  /** An unsigned octet, as found in a Thrift `binary`/`string` payload. */
  newtype byte = x: int | 0 <= x < 0x100

  /** Thrift `byte` (signed 8-bit). */
  newtype i8 = x: int | -0x80 <= x < 0x80

  /** Thrift `i16`. */
  newtype i16 = x: int | -0x8000 <= x < 0x8000

  /** Thrift `i32`. */
  newtype i32 = x: int | -0x8000_0000 <= x < 0x8000_0000

  /** Thrift `i64`. */
  newtype i64 = x: int | -0x8000_0000_0000_0000 <= x < 0x8000_0000_0000_0000

  /** A Thrift `double`, kept as its 64-bit IEEE 754 pattern and passed through unchanged. */
  newtype Float64Bits = x: int | 0 <= x < 0x1_0000_0000_0000_0000

  datatype Option<+T> = None | Some(value: T)
}
