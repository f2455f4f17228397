/** Failure-carrying wrappers shared by every module of the model. */
module Common {

  /** A value that may be absent (a Kotlin nullable). */
  datatype Option<+T> = None | Some(value: T)

  /** The outcome of a repository call: a value, or a human-readable failure
      (Kotlin's `Result<T>` holding an exception message). */
  datatype Result<+T> = Success(value: T) | Failure(error: string)

  /** The outcome of a repository call that returns `Unit`. */
  datatype Outcome = Pass | Fail(error: string)
}
