/** Values that stand for Java's null references and thrown exceptions. */
module Wrappers {

  /** A possibly-null reference: `None` is Java's `null`. */
  datatype Option<+T> = None | Some(value: T)

  /** The outcome of a Java call that returns a value or throws. */
  datatype Result<+T, +E> = Success(value: T) | Failure(error: E)

  /** The outcome of a Java `void` call: it returns normally or throws. */
  datatype Outcome<+E> = Pass | Fail(error: E)

  /** The exceptions the modelled code throws or propagates. */
  datatype Exception = IllegalArgumentException | IOException
}
