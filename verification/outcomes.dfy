/** Optional values (Java's `null`) and results that may carry an error (Java's thrown exceptions). */
module Outcomes {

  /** A value that may be absent, standing for a Java reference that may be `null`. */
  datatype Option<+T> = None | Some(value: T)

  /** The outcome of an operation that either returns a value or throws. */
  datatype Result<+T, +E> = Success(value: T) | Failure(error: E)
}
