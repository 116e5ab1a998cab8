/** Small failure-compatible wrapper used across the model. */
module Wrappers {

  /** A value that may be absent: a null pointer, an invalid model index, an unset optional. */
  datatype Option<+T> = None | Some(value: T)
}
