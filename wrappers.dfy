/** The optional value used for Python's `None` and for operations that fail. */
module Wrappers {
  datatype Option<+T> = None | Some(value: T)
}
