/** Values that may be missing, and the byte type shared by the encoders. */
module Wrappers {

  datatype Option<T> = None | Some(value: T)

  /** An 8-bit byte, Go's `byte`. */
  type byte = x: int | 0 <= x < 256
}
