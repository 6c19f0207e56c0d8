/** Option and Result, the failure values the model uses for the source's
    `None` results and raised exceptions. */
module Wrappers {

  datatype Option<+T> = None | Some(value: T)

  datatype Result<+T, +E> = Success(value: T) | Failure(error: E)

  /** The value a Python procedure returns when it returns nothing. */
  datatype Unit = Unit
}
