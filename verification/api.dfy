/** Result and error types shared by every handler: a handler either
    answers with a value or throws an `ApiError` carrying an HTTP status
    code and a message. */
module Api {

  datatype Option<+T> = None | Some(value: T)

  /** The error every controller throws: a status code and a message. */
  datatype ApiError = ApiError(code: int, message: string)

  datatype Result<+T> = Ok(value: T) | Err(error: ApiError) {
    /** True when this is an error with the given status code. */
    predicate FailsWith(code: int) {
      Err? && error.code == code
    }
  }
}
