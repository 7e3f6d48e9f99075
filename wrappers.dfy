/** Optional values and results shared by the whole model. */
module Wrappers {

  /** A value that may be absent: JavaScript's `null`/`undefined` or a missing database row. */
  datatype Option<+T> = None | Some(value: T)

  /** The outcome of an operation that either yields a value or throws an `Error` with a message. */
  datatype Result<+T> = Success(value: T) | Failure(error: string)
}
