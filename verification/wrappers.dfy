/** Failure-carrying result types shared by the rest of the model. */
module Wrappers {

  datatype Option<+T> = None | Some(value: T)

  /** Either a value or the fault that stopped the computation (the Python exception). */
  datatype Result<+R, +E> = Success(value: R) | Failure(error: E)
}
