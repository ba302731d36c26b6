/** Result shapes shared by the whole model: an optional value, and the outcome
    of an operation, which either succeeds or raises an HTTP error. */
module Outcomes {

  datatype Option<+T> = None | Some(value: T)

  /** An HTTP error raised by a handler: the status code and the detail message. */
  datatype HttpException = HttpException(code: int, detail: string)

  /** What an operation returns: its value, or the HTTP error it raised. */
  datatype Result<+T> = Ok(value: T) | Err(error: HttpException)

  const BadRequest: int := 400
  const Forbidden: int := 403
  const NotFound: int := 404
  const Conflict: int := 409
  const ServerError: int := 500

  /** The error a client sees when an exception escapes the handlers. */
  const InternalError: HttpException := HttpException(ServerError, "Internal Server Error")
}
