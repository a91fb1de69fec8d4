/** Types that several modules share. */
module Wrappers {
  /** The result of an operation that may have nothing to return (a NULL pointer in the source). */
  datatype Option<+T> = None | Some(value: T)

  type Byte = b: int | 0 <= b < 256
}
