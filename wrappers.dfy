// A value that may be missing, shared by both game engines.

module Wrappers {
  datatype Option<T> = None | Some(value: T)
}
