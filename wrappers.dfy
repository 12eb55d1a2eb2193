/** Option and Result, the failure-carrying values the rest of the model returns. */
module Wrappers {

  /** A value that may be absent: a nullable table cell, an optional outcome. */
  datatype Option<+T> = None | Some(value: T)

  /** The value of a step that either succeeds or raises an error the script does not catch. */
  datatype Result<+T, +E> = Success(value: T) | Failure(error: E)
}
