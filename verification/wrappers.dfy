/** Two plain datatypes used by the rest of the model: `Option`, for values
    JavaScript leaves `undefined` or `null`, and `Result`, for operations that
    either produce a value or report why they could not. */
module Wrappers {

  datatype Option<+T> = None | Some(value: T) {

    /** The wrapped value, or `default` when there is none. */
    function GetOr(default: T): T {
      match this
      case Some(v) => v
      case None => default
    }
  }

  datatype Result<+R, +E> = Success(value: R) | Failure(error: E)
}
