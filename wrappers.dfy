/** Option, Result and Outcome: the shapes of Go's `(value, error)` returns. */
module Wrappers {

  datatype Option<+T> = None | Some(value: T)

  /** A value or the error that replaced it, as in Go's `(T, error)`. */
  datatype Result<+T, +E> = Ok(value: T) | Err(error: E)

  /** Success or an error, as in a Go function that returns only `error`. */
  datatype Outcome<+E> = Pass | Fail(error: E)

  function GetOr<T>(o: Option<T>, default: T): T
  {
    match o
    case Some(v) => v
    case None => default
  }
}
