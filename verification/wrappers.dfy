/** Failure-carrying values shared by every module of the model. */
module Wrappers {

  /** A JavaScript value that may be `null` or `undefined` (None) or present (Some). */
  datatype Option<+T> = None | Some(value: T)

  /** A computation that either produces a value or throws. */
  datatype Result<+R, +E> = Success(value: R) | Failure(error: E)

  /** A check that either passes or throws, with no value of its own. */
  datatype Outcome<+E> = Pass | Fail(error: E)
}
