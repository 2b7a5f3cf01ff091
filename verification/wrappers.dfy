/** Optional values and fallible results, shared by every module of the model. */
module Wrappers {

  /** A JavaScript value that may be `undefined` or `null` (None) or present. */
  datatype Option<+T> = None | Some(value: T) {

    /** The value, or `default` when absent. */
    function GetOr(default: T): T {
      match this
      case Some(v) => v
      case None => default
    }
  }

  /** The outcome of a statement run against the store. */
  datatype Result<+R, +E> = Ok(value: R) | Err(error: E)
}
