/** Option and Result types used across the model. */
module Wrappers {

  /** An optional value. */
  datatype Option<+T> = None | Some(value: T)

  /** Either a computed value or the error that the script would raise. */
  datatype Result<+T, +E> = Success(value: T) | Failure(error: E)
}
