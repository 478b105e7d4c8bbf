/** Types that several components share. */
module Basics {

  /** A value or nothing, for results that the program returns as a null pointer. */
  datatype Option<+T> = None | Some(value: T)

  type byte = b: int | 0 <= b < 256
}
