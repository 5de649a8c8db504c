/** A value that may be absent: a parse that fails or a lookup with no entry. */
module Wrappers {
  datatype Option<T> = None | Some(value: T)
}
