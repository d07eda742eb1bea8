/** Optional values and results, for arguments JavaScript lets a caller leave out and for
    operations that throw. */
module Wrappers {
  datatype Option<T> = None | Some(value: T)

  /** The outcome of an operation that either returns a value or throws an `Error` with a
      message. */
  datatype Result<T> = Success(value: T) | Failure(error: string)
}
