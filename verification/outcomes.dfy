/** Failure-carrying wrappers shared by every module of the model. */
module Outcomes {

  /** A value that may be absent: JavaScript's `null`, `NaN` or a failed lookup. */
  datatype Option<+T> = None | Some(value: T)

  /** The outcome of an operation that either produces a value or reports an error kind. */
  datatype Result<+T, +E> = Ok(value: T) | Err(error: E)
}
