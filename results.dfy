/** Option and Result values standing in for Python's None and raised exceptions. */
module Results {

  datatype Option<+T> = None | Some(value: T) {
    function GetOr(default: T): T {
      match this
      case Some(v) => v
      case None => default
    }
  }

  /** A Result is failure-compatible, so `:-` propagates a raised exception. */
  datatype Result<+T, +E> = Success(value: T) | Failure(error: E) {
    predicate IsFailure() {
      Failure?
    }

    function PropagateFailure<U>(): Result<U, E>
      requires Failure?
    {
      Failure(error)
    }

    function Extract(): T
      requires Success?
    {
      value
    }

    function GetOr(default: T): T {
      match this
      case Success(v) => v
      case Failure(_) => default
    }
  }
}
