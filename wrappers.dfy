/** Small failure-carrying datatypes shared by the registry and the controllers. */
module Wrappers {

  /** A value that may be absent; `None` also stands for a Java `null` argument. */
  datatype Option<+T> = None | Some(value: T)

  /** The outcome of an operation that either yields a value or fails with an error. */
  datatype Result<+T, +E> = Success(value: T) | Failure(error: E)

  /** The outcome of an operation that yields nothing on success (a Java `void` that may throw). */
  datatype Outcome<+E> = Pass | Fail(error: E)
}
