/** Failure-carrying values used in place of Java's nullable references,
    `Optional` and thrown exceptions. */
module Wrappers {

  /** An optional value: `Optional<T>` or a nullable field. */
  datatype Option<+T> = None | Some(value: T)

  /** A value or the error that prevented computing it. */
  datatype Result<+R, +E> = Success(value: R) | Failure(error: E)

  /** The outcome of a `void` operation that may throw. */
  datatype Outcome<+E> = Pass | Fail(error: E)
}
