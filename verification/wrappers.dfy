/** Option and Result, the two shapes Go expresses with a nil pointer and an
    (value, error) pair. */
module Wrappers {

  /** A value that may be absent: Go's nil `*Reservation`. */
  datatype Option<+T> = None | Some(value: T)

  /** Either a value or the error that replaced it. */
  datatype Result<+T, +E> = Success(value: T) | Failure(error: E)
}
