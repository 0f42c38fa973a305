/** Option and Result values used for the absent values and error paths of the model. */
module Wrappers {

  datatype Option<+T> = None | Some(value: T)

  datatype Result<+R, +E> = Success(value: R) | Failure(error: E)

  /** An operation that yields no value but can fail. */
  datatype Outcome<+E> = Pass | Fail(error: E)
}
