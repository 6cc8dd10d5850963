/** A value that may be absent, such as a Go pointer that may be nil. */
module Wrappers {
  datatype Option<+T> = None | Some(value: T)
}
