/** A value that may be absent: the code's null pointers. */
module Wrappers {
  datatype Option<T> = None | Some(value: T)
}
