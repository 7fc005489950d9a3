/** Optional values and results with an error, as the merger's operations return them. */
module Wrappers {

  /** A value that may be absent: Python's `None` on the other side. */
  datatype Option<+T> = None | Some(value: T)

  /** The outcome of an operation that can abort. */
  datatype Result<+R, +E> = Success(value: R) | Failure(error: E)
}
