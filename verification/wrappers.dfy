/** Option and Result shared by the booking and contact models. */
module Wrappers {

  /** A value that may be absent: a form field that was not submitted, a row that was not found. */
  datatype Option<+T> = None | Some(value: T)

  /** The outcome of a server action: a value, or one of the action's error kinds. */
  datatype Result<+R, +E> = Success(value: R) | Failure(error: E)
}
