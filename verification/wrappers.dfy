/** Failure-compatible helper datatypes shared by the fetcher and the reconciler. */
module Wrappers {

  /** A value that may be absent: a missing JSON key, a missing HTTP header. */
  datatype Option<+T> = None | Some(value: T) {

    /** The wrapped value, or `default` when absent (Python's `dict.get(key, default)`). */
    function GetOr(default: T): T {
      match this
      case Some(v) => v
      case None => default
    }
  }

  /** The outcome of a computation that may raise. */
  datatype Result<+R, +E> = Success(value: R) | Failure(error: E)
}
