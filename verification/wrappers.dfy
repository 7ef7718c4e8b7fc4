/** Optional values and success/failure results used throughout the model. */
module Wrappers {

  datatype Option<+T> = None | Some(value: T)

  /** The outcome of an operation that the program would abandon with an exception. */
  datatype Result<+R, +E> = Success(value: R) | Failure(error: E)
}
