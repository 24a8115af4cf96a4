/** Option and Result types shared by the whole model.  A route's HTTP error
    (an `HTTPException` in the backend) is an `Err` carrying its status code. */
module Wrappers {

  datatype Option<+T> = None | Some(value: T) {
    /** The value, or `default` when absent. */
    function GetOr(default: T): T {
      match this
      case Some(v) => v
      case None => default
    }
  }

  /** The outcome of a backend route: a value, or the HTTP status it fails with. */
  datatype Result<+T> = Ok(value: T) | Err(status: int)

  /** HTTP status codes raised by the routes. */
  const BadRequest: int := 400
  const NotFound: int := 404
  const Conflict: int := 409
  const PayloadTooLarge: int := 413
  const Unprocessable: int := 422
  const ServerError: int := 500
}
