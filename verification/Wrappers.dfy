// A value or nothing: the model of the repository's null results.
module Wrappers {
  datatype Option<+T> = None | Some(value: T)
}
