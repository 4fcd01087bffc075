/** Result types for operations that may report failure instead of a value. */
module Wrappers {
  datatype Option<T> = None | Some(value: T)
}
