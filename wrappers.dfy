/** Failure-carrying wrappers used throughout the model in place of JavaScript's
    `undefined`/`null` and thrown exceptions. */
module Wrappers {

  /** An optional value: `undefined` or `null` in the source become `None`. */
  datatype Option<+T> = None | Some(value: T)

  /** The outcome of an operation that either returns a value or throws. */
  datatype Result<+R, +E> = Success(value: R) | Failure(error: E)

  /** The outcome of an operation that returns nothing or throws. */
  datatype Outcome<+E> = Pass | Fail(error: E)
}
