/** Failure-carrying values for the places where the modelled Python code
    returns `None` or raises an exception. */
module Wrappers {

  /** A value that may be absent (Python's `None`). */
  datatype Option<+T> = None | Some(value: T)

  /** Either a computed value or the exception that the Python code raises instead. */
  datatype Result<+R, +E> = Success(value: R) | Failure(error: E)
}
