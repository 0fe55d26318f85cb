/** Option and Result, the failure-carrying types used across the model. */
module Wrappers {

  datatype Option<+T> = None | Some(value: T)

  /** Success or the error the source raises (an exception or a False return). */
  datatype Result<+R, +E> = Success(value: R) | Failure(error: E)
}
