/** Option and Result values standing in for Java's null and for thrown exceptions. */
module Wrappers {

  datatype Option<+T> = None | Some(value: T)

  datatype Result<+T, +E> = Success(value: T) | Failure(error: E)

  /** The outcome of a void Java method: it returns normally or throws. */
  datatype Outcome<+E> = Pass | Fail(error: E)
}
