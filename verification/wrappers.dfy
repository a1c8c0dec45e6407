/** Option, Result and Outcome: how the model reports a value that may be
    absent and an operation that may raise instead of returning. */
module Wrappers {

  datatype Option<+T> = None | Some(value: T)

  /** The outcome of a lookup: a value, or the exception it raises. */
  datatype Result<+T, +E> = Ok(value: T) | Err(error: E)

  /** The outcome of an operation that returns nothing: it completes, or it
      raises. */
  datatype Outcome<+E> = Pass | Fail(error: E)
}
