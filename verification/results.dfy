/** Failure-carrying wrappers shared by every module of the model. */
module Results {

  /** A value that may be absent (a Python `None`, or a lookup that misses). */
  datatype Option<+T> = None | Some(value: T) {
    function GetOr(default: T): T {
      match this
      case Some(v) => v
      case None => default
    }
  }

  /** The outcome of an operation that either returns a value or raises. */
  datatype Result<+T, +E> = Success(value: T) | Failure(error: E)
}
