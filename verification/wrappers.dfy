/** Optional values and success/failure results shared by the other modules. */
module Wrappers {

  /** A value that may be missing; stands for a nullable field of the bridge. */
  datatype Option<+T> = None | Some(value: T)

  /** The outcome of an operation that can throw. */
  datatype Result<+T, +E> = Success(value: T) | Failure(error: E)
}
