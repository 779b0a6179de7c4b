/** Option and Result values: the `None` a Python lookup returns and the
    exceptions the source raises become data. */
module Wrappers {

  datatype Option<+T> = None | Some(value: T)

  datatype Result<+T, +E> = Success(value: T) | Failure(error: E)

  /** A result that carries no value: `Pass`, or the error that was raised. */
  datatype Outcome<+E> = Pass | Fail(error: E)
}
