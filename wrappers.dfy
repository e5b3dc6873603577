/** Result shapes used by the repository model. */
module Wrappers {

  /** A value or its absence (C#'s `null` from `FirstOrDefault`). */
  datatype Option<+T> = None | Some(value: T)

  /** A value or an error (an operation that returns a value or throws). */
  datatype Result<+R, +E> = Success(value: R) | Failure(error: E)

  /** Success without a value, or an error (an operation returning a bare `Task` or throwing). */
  datatype Outcome<+E> = Pass | Fail(error: E)
}
