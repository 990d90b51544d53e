/** Optional values and results with an error, as used by the column operations. */
module Wrappers {

  /** A value that may be absent: a missing cell of a table, or a statistic of an empty column. */
  datatype Option<+T> = None | Some(value: T)

  /** The outcome of a computation that can raise an error. */
  datatype Result<+T, +E> = Success(value: T) | Failure(error: E)
}
