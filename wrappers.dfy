/** The usual optional-value datatype, standing in for a possibly-null answer. */
module Wrappers {
  datatype Option<+T> = None | Some(value: T)
}
