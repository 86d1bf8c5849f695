/** Optional values and results shared by the validation layer and the router. */
module Wrappers {

  /** A value that may be absent (Python's `Optional[...]`, where `None` means absent or `null`). */
  datatype Option<+T> = None | Some(value: T) {

    /** The value held, or `default` when absent. */
    function GetOr(default: T): T {
      match this
      case Some(v) => v
      case None => default
    }
  }

  /** Either a validated value or the reasons it was refused. */
  datatype Result<+T, +E> = Success(value: T) | Failure(error: E)
}
