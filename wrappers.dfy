/** Optional values and results shared by every module of the model. */
module Wrappers {
  /** A JSON field that may be absent or null (`None`) or hold a value. */
  datatype Option<T> = None | Some(value: T)

  /** The outcome of an operation that may throw. */
  datatype Result<T, E> = Success(value: T) | Failure(error: E)
}
