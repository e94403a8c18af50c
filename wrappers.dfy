/** Option for the error paths of the kernel functions, and the byte type. */
module Wrappers {
  datatype Option<T> = None | Some(value: T)

  /** An `unsigned char`/`uint8_t`. */
  type byte = b: int | 0 <= b < 256
}
