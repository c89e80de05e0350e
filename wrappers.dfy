/** Failure-carrying wrappers: `Option` for a lookup that returns `bool` and fills an
    out-parameter, `Outcome` for an operation that returns `bool` and fills an error text,
    `Result` for an operation that throws. */
module Wrappers {

  /** An optional value: the model's "not found". */
  datatype Option<+T> = None | Some(value: T)

  /** A value or an error. */
  datatype Result<+R, +E> = Success(value: R) | Failure(error: E)

  /** Success without a value, or an error. */
  datatype Outcome<+E> = Pass | Fail(error: E)
}
