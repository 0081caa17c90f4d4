/** The optional value used for table entries that may be absent. */
module Wrappers {
  datatype Option<T> = None | Some(value: T)
}
