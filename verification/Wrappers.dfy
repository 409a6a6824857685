/** A value that may be absent: a null pointer, a failed call, an optional argument. */
module Wrappers {
  datatype Option<+T> = None | Some(value: T)
}
