/** The stock optional value, used for Go's (value, ok) pairs and nil-able errors, and its bytes. */
module Wrappers {
  datatype Option<+T> = None | Some(value: T)

  newtype Byte = b: int | 0 <= b < 256
}
