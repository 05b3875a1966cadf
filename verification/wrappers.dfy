/** Failure-carrying datatypes used throughout the model: PHP's `null`
    results and thrown exceptions become explicit `None` / `Failure` values. */
module Wrappers {

  datatype Option<+T> = None | Some(value: T)

  datatype Result<+T, +E> = Success(value: T) | Failure(error: E)

  /** A check that either passes or fails with an error value. */
  datatype Outcome<+E> = Pass | Fail(error: E)
}
