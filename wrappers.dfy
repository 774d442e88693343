/** The optional values the core passes around: Python's `None` or a value. */
module Wrappers {
  datatype Option<+T> = None | Some(value: T)
}
