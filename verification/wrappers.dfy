/** Optional values and results with an error, used for the source's
    `null`/`undefined` values and for its error responses. */
module Wrappers {

  datatype Option<+T> = None | Some(value: T) {
    function GetOr(default: T): T {
      match this
      case Some(v) => v
      case None => default
    }
  }

  datatype Result<+T, +E> = Ok(value: T) | Err(error: E)

  /** The HTTP-level outcome of a rejected request: a validation failure (400),
      a missing record (404) or an internal failure (500). */
  datatype Failure = BadRequest(message: string) | NotFound(message: string) | ServerError(message: string)
}
