/** Optional values, standing for the nullable cells of a table and for
    results that may be missing. */
module Wrappers {

  datatype Option<+T> = None | Some(value: T) {

    /** The wrapped value, or `default` when there is none. */
    function GetOr(default: T): T {
      match this
      case Some(v) => v
      case None => default
    }
  }

  /** A value or the reason there is none. */
  datatype Result<+R, +E> = Success(value: R) | Failure(error: E)
}
