/** Optional values and results with an error, as the scripts use them: a
    missing CSV field (pandas' NaN) is `None`, an aborted run is `Failure`. */
module Wrappers {

  datatype Option<+T> = None | Some(value: T) {
    function GetOr(default: T): T {
      match this
      case Some(v) => v
      case None => default
    }
  }

  datatype Result<+R, +E> = Success(value: R) | Failure(error: E)
}
