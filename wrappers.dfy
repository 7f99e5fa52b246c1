/** Optional values and results with an error, used by the whole model. */
module Wrappers {

  /** A value that may be absent: Python's `None` versus an object reference. */
  datatype Option<+T> = None | Some(value: T)

  /** The outcome of an operation that may fail. */
  datatype Result<+R, +E> = Success(value: R) | Failure(error: E)
}
