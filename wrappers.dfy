/** Failure-compatible wrappers used in place of Java's null results and thrown exceptions. */
module Wrappers {

  /** A value that may be absent (a Java reference that may be null). */
  datatype Option<+T> = None | Some(value: T)

  /** A computed value, or the error that the Java code throws instead of returning. */
  datatype Result<+T, +E> = Success(value: T) | Failure(error: E)

  /** The outcome of a Java `void` method: it returns normally or it throws. */
  datatype Outcome<+E> = Pass | Fail(error: E)
}
