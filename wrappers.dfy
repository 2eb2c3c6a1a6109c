/** Optional values and failure-carrying results, used across the model. */
module Wrappers {

  /** A value that may be absent (JavaScript `null` / `undefined`). */
  datatype Option<+T> = None | Some(value: T)

  /** The outcome of an operation: a payload, or the error it reports. */
  datatype Result<+T, +E> = Ok(value: T) | Err(error: E)
}

/** The error responses the controllers send, with their HTTP status codes. */
module Http {

  datatype ApiError =
    | BadRequest     // 400: the request itself is malformed
    | NotFound       // 404: the referenced row does not exist
    | Conflict       // 409: a uniqueness rule would be broken
    | ServerError    // 500: the ORM or the database threw; caught by the controller

  function Status(e: ApiError): (code: int)
    ensures 400 <= code < 600
    ensures code == 500 <==> e == ServerError
  {
    match e
    case BadRequest => 400
    case NotFound => 404
    case Conflict => 409
    case ServerError => 500
  }
}
