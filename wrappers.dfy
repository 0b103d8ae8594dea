/** Failure-compatible wrappers standing for Java's null results and exceptions. */
module Wrappers {

  /** A value or nothing: `None` stands for a Java `null` result. */
  datatype Option<+T> = None | Some(value: T)

  /** A value or the exception that aborted the computation. */
  datatype Result<+T, +E> = Success(value: T) | Failure(error: E)
}
