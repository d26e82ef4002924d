/** Failure-compatible result types: Java's Optional and a value-or-exception result. */
module Wrappers {

  /** java.util.Optional: either empty or holding a value. */
  datatype Option<+T> = None | Some(value: T) {

    /** Optional.orElse: the held value, or the fallback when empty. */
    function GetOr(default: T): T
    {
      match this
      case Some(v) => v
      case None => default
    }
  }

  /** A call that either returns a value or throws an exception described by the error value. */
  datatype Result<+R, +E> = Ok(value: R) | Err(error: E)
}
