/** The two result types shared by the other modules. */
module Wrappers {

  datatype Option<+T> = None | Some(value: T)

  /** A returned value, or the error that a C++ caller sees as an exception or an error code. */
  datatype Result<+T, +E> = Success(value: T) | Failure(error: E)
}
