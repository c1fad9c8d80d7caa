/** Option and Result types used throughout the model: `Option` for the
    `None`-or-row results of SQL `.first()`, `Result` for operations that can
    raise or answer with an HTTP error. */
module Wrappers {

  datatype Option<+T> = None | Some(value: T) {

    /** The wrapped value, or `default` when there is none. */
    function GetOr(default: T): T
    {
      match this
      case Some(v) => v
      case None => default
    }
  }

  datatype Result<+T, +E> = Success(value: T) | Failure(error: E)
}
