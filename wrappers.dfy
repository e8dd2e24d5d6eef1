/** Option and Result, the two failure-carrying shapes the model uses for the
    Go `(value, error)` pairs and for lookups that may find nothing. */
module Wrappers {

  datatype Option<+T> = None | Some(value: T) {
    /** The value, or `default` when there is none. */
    function GetOr(default: T): T {
      match this
      case Some(v) => v
      case None => default
    }
  }

  /** A Go `(value, error)` pair: an error string, or a value and no error. */
  datatype Result<+T, +E> = Success(value: T) | Failure(error: E) {
    /** What a Go caller holds after `v, _ := f()`: the value, or the zero value on error. */
    function GetOr(default: T): T {
      match this
      case Success(v) => v
      case Failure(_) => default
    }
  }
}
