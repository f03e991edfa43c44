/** A value that may be absent: pandas' missing marker (NaN) in a column. */
module Wrappers {
  datatype Option<+T> = None | Some(value: T)
}
