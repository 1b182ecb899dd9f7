/** Option and Result: the success-or-failure values that stand for the
    source's `None`, its error returns and its raised exceptions. */
module Results {

  datatype Option<+T> = None | Some(value: T) {
    /** The value, or `default` when there is none (pandas' `fillna`). */
    function GetOr(default: T): T {
      match this
      case Some(v) => v
      case None => default
    }
  }

  datatype Result<+R, +E> = Success(value: R) | Failure(error: E)
}
