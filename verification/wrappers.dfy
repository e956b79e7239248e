/** Option and Result: absence of a value, and a value or the error raised instead. */
module Wrappers {

  /** Some value, or None where Ruby would have nil. */
  datatype Option<+T> = None | Some(value: T)

  /** The value a call returned, or the error it raised. */
  datatype Result<+R, +E> = Success(value: R) | Failure(error: E)
}
