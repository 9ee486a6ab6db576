/** Option and result types standing in for Java's null references and exceptions. */
module Wrappers {

  datatype Option<+T> = None | Some(value: T)

  /** The outcome of a Java method that returns a value or throws. */
  datatype Result<+R, +E> = Success(value: R) | Failure(error: E)

  /** The outcome of a Java `void` method that returns normally or throws. */
  datatype Outcome<+E> = Pass | Fail(error: E)
}
