/** Outcomes shared by every request handler of the model. */
module Results {

  /** A value that may be absent (JavaScript `undefined` or `null`). */
  datatype Option<+T> = None | Some(value: T)

  /** The present value, or `fallback` when there is none. */
  function ValueOr<T>(x: Option<T>, fallback: T): T {
    if x.Some? then x.value else fallback
  }

  /** Either a value or an error. */
  datatype Result<+T, +E> = Ok(value: T) | Fail(error: E)

  /** How a backend handler ends without a successful reply:
      `ErrorResponse` is `next(new ErrorResponse(message, status))`;
      `Unhandled` is an exception (a null dereference, a store error)
      caught and forwarded unchanged by `next(error)`. */
  datatype Failure = ErrorResponse(status: nat, message: string) | Unhandled

  /** The state after a handler ran, together with its reply. */
  datatype Step<+S, +T> = Step(state: S, reply: Result<T, Failure>)

  const BadRequest: nat := 400
  const NotAuthorized: nat := 401
  const Forbidden: nat := 403
  const NotFound: nat := 404
}
