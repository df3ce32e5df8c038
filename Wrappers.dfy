/** The Option, Result and Outcome datatypes used across the model. */
module Wrappers {

  /** An optional value: `None` stands for Python's `None`. */
  datatype Option<+T> = None | Some(value: T)

  /** A computation that either yields a value or raises an error. */
  datatype Result<+R, +E> = Success(value: R) | Failure(error: E)

  /** A computation that either completes or raises an error, yielding nothing. */
  datatype Outcome<+E> = Pass | Fail(error: E)
}
