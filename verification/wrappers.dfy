/** Failure-carrying results: the model's stand-in for the exceptions the heap raises. */
module Wrappers {

  /** Either the value an operation produced or the error it reports instead. */
  datatype Result<+R, +E> = Success(value: R) | Failure(error: E)
}
