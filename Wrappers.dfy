/** Option, Result and Outcome: the model's stand-ins for Python's `None`
    and for exceptions that propagate to the caller. */
module Wrappers {

  datatype Option<+T> = None | Some(value: T)

  datatype Result<+R, +E> = Success(value: R) | Failure(error: E)

  /** The result of a call that returns nothing on success. */
  datatype Outcome<+E> = Pass | Fail(error: E)
}
