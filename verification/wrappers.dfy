/** Failure-compatible wrappers: the nullable values and thrown exceptions of the
    application become `Option` and `Result` values. */
module Wrappers {

  /** A Kotlin nullable value: `None` is `null`. */
  datatype Option<+T> = None | Some(value: T)

  /** A value, or the exception that the Kotlin code throws instead. */
  datatype Result<+R, +E> = Success(value: R) | Failure(error: E)
}
