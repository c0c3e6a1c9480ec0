/** An optional value, for Python's `None` and for an operation that has
    no result. */
module Wrappers {
  datatype Option<+T> = None | Some(value: T)
}
