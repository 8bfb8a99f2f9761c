/** Failure-carrying result types used by every module of the model in place of
    Java/Kotlin exceptions and nullable returns. */
module Wrappers {

  /** A value that may be absent (a nullable reference). */
  datatype Option<+T> = None | Some(value: T)

  /** Either a value or the error that the source would have thrown instead. */
  datatype Result<+T, +E> = Ok(value: T) | Err(error: E)
}
