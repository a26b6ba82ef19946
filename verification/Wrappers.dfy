/** The types that the modules of this project share. */
module Wrappers {
  datatype Option<+T> = None | Some(value: T)

  type Byte = b: int | 0 <= b < 0x100

  // A unit of UTF-16, of which a string is made.
  type Unit = u: int | 0 <= u < 0x1_0000
}
