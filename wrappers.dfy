/** Java's nullable references and its exceptions, as values. */
module Wrappers {

  /** A Java reference that may be null. */
  datatype Option<+T> = None | Some(value: T)

  /** A call that returns a value or throws. */
  datatype Result<+T, +E> = Success(value: T) | Failure(error: E)

  /** A `void` call that returns normally or throws. */
  datatype Outcome<+E> = Pass | Fail(error: E)
}
