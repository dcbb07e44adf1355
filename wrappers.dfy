/** Null references and exceptions of the Java code, as values. */
module Wrappers {

  /** A nullable reference: `None` stands for Java's `null`. */
  datatype Option<+T> = None | Some(value: T)

  /** The outcome of a Java call that either returns a value or throws. */
  datatype Result<+T, +E> = Success(value: T) | Failure(error: E)

  /** The outcome of a `void` Java call that either returns or throws. */
  datatype Outcome<+E> = Pass | Fail(error: E)
}
