/** A value that may be missing: the NULL that the source returns. */
module Wrappers {
  datatype Option<T> = None | Some(value: T)
}
