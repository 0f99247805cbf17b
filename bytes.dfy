/** Raw bytes as the filter sees them: paths are byte strings, never decoded. */
module Bytes {

  /** One byte of input or output (a C `char` read through `fgetc`). */
  newtype byte = b: int | 0 <= b < 256

  /** A path or token: the bytes of a C string, without its terminator. */
  type Path = seq<byte>

  const NUL: byte := 0x00
  const SLASH: byte := 0x2F
  const DOT: byte := 0x2E
  const UNDERSCORE: byte := 0x5F

  datatype Option<T> = None | Some(value: T)
}
