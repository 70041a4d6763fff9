/**
 * The four failure conditions the handlers abort with, and the JSON body the
 * matching error handler answers with.
 */
module Errors {
  import opened Wrappers

  datatype Status = BadRequest | NotFound | Unprocessable | InternalServerError

  /** What a handler produces: a success value, or an `abort` with a status. */
  datatype Outcome<T> = Ok(value: T) | Fail(status: Status)

  /** The JSON body `{success, error, message}` of an error response. */
  datatype ErrorBody = ErrorBody(success: bool, error: int, message: string)

  /** An HTTP error reply: the status code and the body sent with it. */
  datatype ErrorReply = ErrorReply(code: int, body: ErrorBody)

  /** The HTTP status code of each condition. */
  function Code(s: Status): (code: int)
    ensures 400 <= code <= 500
    ensures code < 500 <==> s != InternalServerError
  {
    match s
    case BadRequest => 400
    case NotFound => 404
    case Unprocessable => 422
    case InternalServerError => 500
  }

  /** Flask's dispatch of an aborted code to the handler registered for it. */
  function HandlerFor(code: int): (r: Option<Status>)
    ensures r.Some? ==> Code(r.value) == code
  {
    if code == 400 then Some(BadRequest)
    else if code == 404 then Some(NotFound)
    else if code == 422 then Some(Unprocessable)
    else if code == 500 then Some(InternalServerError)
    else None
  }

  /** The fixed message of each handler. */
  function Message(s: Status): (m: string)
    ensures m != ""
  {
    match s
    case BadRequest => "Bad Request"
    case NotFound => "Not Found"
    case Unprocessable => "Unprocessable"
    case InternalServerError => "Internal Server Error"
  }

  /** The reply of the error handler for `s`: a failure body whose `error` field is
      the status code the reply is sent with, and which Flask routes back to `s`. */
  function ErrorResponse(s: Status): (r: ErrorReply)
    ensures !r.body.success
    ensures r.body.error == r.code
    ensures HandlerFor(r.code) == Some(s)
    ensures s == BadRequest ==> r.body.message == "Bad Request"
    ensures s == NotFound ==> r.body.message == "Not Found"
    ensures s == Unprocessable ==> r.body.message == "Unprocessable"
    ensures s == InternalServerError ==> r.body.message == "Internal Server Error"
  {
    ErrorReply(Code(s), ErrorBody(false, Code(s), Message(s)))
  }

  /** Each of the four handlers answers with its own code and its own message, so
      a client can tell the conditions apart from the body alone. */
  lemma ErrorBodiesDistinct(s: Status, t: Status)
    requires s != t
    ensures ErrorResponse(s).body.error != ErrorResponse(t).body.error
    ensures ErrorResponse(s).body.message != ErrorResponse(t).body.message
  {
  }
}
