/** Python's `None` (and pandas' NaN where the source tests for it) as an Option. */
module Wrappers {
  datatype Option<+T> = None | Some(value: T)
}
