/** Option, Result and Outcome: the null results and thrown errors of the source as values. */
module Wrappers {

  /** A row that may be absent (`rows[0] ?? null`, an optional request field). */
  datatype Option<+T> = None | Some(value: T)

  /** A value returned normally, or an error thrown. */
  datatype Result<+T, +E> = Success(value: T) | Failure(error: E)

  /** An operation that returns nothing when it succeeds, or throws. */
  datatype Outcome<+E> = Pass | Fail(error: E)
}
