/** Failure-carrying wrappers used for the launcher's optional inputs and fatal errors. */
module Wrappers {

  datatype Option<+T> = None | Some(value: T)

  datatype Result<+R, +E> = Success(value: R) | Failure(error: E)

  /** A result that carries no value: either the operation went through or it stopped with `error`. */
  datatype Outcome<+E> = Pass | Fail(error: E)
}
