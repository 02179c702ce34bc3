/** Shared result types of the request handlers. */
module Common {

  /** An optional value: a JSON member that may be absent or null. */
  datatype Option<T> = None | Some(value: T)

  /** The error a handler raises as `InvalidUsage(message, status)`. */
  datatype HttpError = HttpError(message: string, status: int)

  /** The outcome of a handler: a value, or the error it raised. */
  datatype Result<T> = Ok(value: T) | Err(error: HttpError)

  /** Status used by every validation failure in the core. */
  const BadRequest := 400
}
