/** Option and Result, the failure-carrying values used throughout the model. */
module Wrappers {

  /** Ruby's nil-or-value, where nil means "absent". */
  datatype Option<+T> = None | Some(value: T)

  /** A value, or the exception Ruby would raise instead of producing one. */
  datatype Result<+T, +E> = Ok(value: T) | Err(error: E)
}
