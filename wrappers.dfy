/** Option and Result: absence markers and error returns of the pipeline. */
module Wrappers {

  /** A value that may be absent (Python's `None`). */
  datatype Option<T> = None | Some(value: T) {
    function GetOr(default: T): T {
      match this
      case Some(v) => v
      case None => default
    }
  }

  /** The outcome of a step that may raise instead of returning. */
  datatype Result<T, E> = Ok(value: T) | Err(error: E)
}
