/** Types that several modules share. */
module Wrappers {
  type Byte = b: int | 0 <= b < 256

  datatype Option<+T> = None | Some(value: T)
}
