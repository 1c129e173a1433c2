/** The replies a route handler sends: a status with a JSON body, or an error `{message, errors}`. */
module Http {

  datatype Response<T> =
    | Reply(status: int, body: T)
    | Fail(status: int, message: string, errors: seq<string>)

  /** An error reply without a field-level error list. */
  function Error<T>(status: int, message: string): Response<T> {
    Fail(status, message, [])
  }

  /** The reply to a request the validation chain rejected. */
  function Invalid<T>(errors: seq<string>): Response<T> {
    Fail(400, "Validation failed", errors)
  }

  /** The reply when the store throws (a query the store refuses). */
  function ServerError<T>(): Response<T> {
    Fail(500, "Server error", [])
  }
}
