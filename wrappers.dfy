/** Optional values and results, used for Python's None and for raised errors. */
module Wrappers {

  /** A value or its absence (Python's None). */
  datatype Option<+T> = None | Some(value: T)

  /** The outcome of an operation that either succeeds or raises. */
  datatype Result<+R, +E> = Success(value: R) | Failure(error: E)
}
