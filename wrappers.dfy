/** The Option and Result datatypes shared by the other modules. */
module Wrappers {

  /** Python's `None` or a value. */
  datatype Option<+T> = None | Some(value: T)

  /** A value, or the exception that Python would have raised instead. */
  datatype Result<+R, +E> = Success(value: R) | Failure(error: E)
}
