/** Optional values and results shared by the modules of this model. */
module Wrappers {
  /** A value that may be absent (`undefined` or `null` in the source). */
  datatype Option<T> = None | Some(value: T)

  /** The outcome of an operation that may fail with an error of type `E`. */
  datatype Result<T, E> = Success(value: T) | Failure(error: E)
}
