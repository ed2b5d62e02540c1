/** Failure-compatible result types shared by the modules of the model. */
module Wrappers {

  datatype Option<+T> = None | Some(value: T)

  /** The outcome of an operation that the original aborts with a panic on failure. */
  datatype Result<+R, +E> = Success(value: R) | Failure(error: E)
}
