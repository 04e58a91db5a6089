/** Shared vocabulary of the portal's HTTP layer: an optional value, the
    failure kinds a request handler answers with, the HTTP status code each
    one is sent with, and the result of a handler. */
module Common {

  datatype Option<T> = None | Some(value: T)

  /** Every way a request can fail. The comment names the status code the
      route handlers send; `Code` below is the one place that maps them. */
  datatype Failure =
    | ValidationFailed(fields: seq<string>)  // 400, names every rejected field
    | BadRequest                             // 400, update with no fields
    | DeadlinePassed                         // 400
    | AlreadyApplied                         // 400
    | Unauthenticated                        // 401, no token or no such user
    | InvalidToken                           // 403, token fails verification
    | Forbidden                              // 403, authenticated but not admin
    | NotFound                               // 404
    | TooManyRequests                        // 429, sliding-window limiter
    | Unexpected                             // 500, storage refused the query

  function Code(f: Failure): (c: nat)
    ensures 400 <= c <= 500
    ensures c == 400 <==> f.ValidationFailed? || f.BadRequest? || f.DeadlinePassed? || f.AlreadyApplied?
    ensures c == 401 <==> f.Unauthenticated?
    ensures c == 403 <==> f.InvalidToken? || f.Forbidden?
  {
    match f
    case ValidationFailed(_) => 400
    case BadRequest => 400
    case DeadlinePassed => 400
    case AlreadyApplied => 400
    case Unauthenticated => 401
    case InvalidToken => 403
    case Forbidden => 403
    case NotFound => 404
    case TooManyRequests => 429
    case Unexpected => 500
  }

  datatype Result<T> = Ok(value: T) | Err(failure: Failure)
}
