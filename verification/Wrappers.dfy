/** A value that may be absent: a failed translation, a NULL pointer, a file that cannot be opened. */
module Wrappers {
  datatype Option<T> = None | Some(value: T)
}
