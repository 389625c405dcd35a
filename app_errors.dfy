/** The error value every service operation fails with, and the wrappers the operations return.
    An application error carries the HTTP status code and the stable machine-readable code; the
    human-readable message and the field-level details are not modelled. */
module AppErrors {

  datatype AppError = AppError(statusCode: nat, code: string)

  /** The outcome of a service operation: the returned row (or its id), or the error it throws. */
  datatype Result<T> = Ok(value: T) | Err(error: AppError)

  datatype Option<T> = None | Some(value: T)
}
