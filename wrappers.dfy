/** The optional value used wherever the source throws or returns nothing. */
module Wrappers {
  datatype Option<+T> = None | Some(value: T)
}
