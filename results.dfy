/** Value-level stand-ins for Java's null, exceptions and void returns. */
module Results {

  /** A value that may be absent (`java.util.Optional`, or a nullable reference). */
  datatype Option<+T> = None | Some(value: T)

  /** A computation that either yields a value or fails with an error. */
  datatype Result<+T, +E> = Success(value: T) | Failure(error: E)

  /** The outcome of a `void` Java method: it returns normally or throws. */
  datatype Outcome<+E> = Pass | Fail(error: E)
}
