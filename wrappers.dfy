/** Optional values and results with an error, used where the source returns null or throws. */
module Wrappers {

  /** A value that may be absent (a null reference in the source). */
  datatype Option<+T> = None | Some(value: T)

  /** The outcome of an operation that may fail (an exception in the source). */
  datatype Result<+R, +E> = Success(value: R) | Failure(error: E)
}
