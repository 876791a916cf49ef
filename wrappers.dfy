/** Optional values and results for the operations that can fail. */
module Wrappers {
  /** A value, or nothing when the operation would have undefined behaviour. */
  datatype Option<T> = None | Some(value: T)

  /** The value of an operation that can throw, or the message it throws. */
  datatype Result<T> = Success(value: T) | Failure(error: string)
}
