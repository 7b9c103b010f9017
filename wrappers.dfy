/** Option and Result, used for the source's nullable values and its early-return error paths. */
module Wrappers {

  /** A value that may be absent: C#'s `null` where the source can actually see one. */
  datatype Option<+T> = None | Some(value: T) {
    function GetOr(default: T): T {
      match this
      case Some(v) => v
      case None => default
    }
  }

  /** The outcome of a validation sequence: the accepted value or the first failed check. */
  datatype Result<+T, +E> = Ok(value: T) | Err(error: E)
}
