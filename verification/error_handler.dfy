/**
 * The error-mapping middleware, the catch-all 405 handler used on every
 * route for unsupported methods, and the catch-all 404 for unknown paths.
 */
module ErrorHandler {
  import opened Prelude
  import opened AppErrors

  /** The JSON error response: HTTP code and `{ status, message }`. */
  datatype Envelope = Envelope(statusCode: int, status: string, message: string)

  /** SQLSTATE codes answered as a client error: invalid text
      representation and not-null violation. */
  predicate IsClientDbCode(code: Option<string>) {
    code == Some("22P02") || code == Some("23502")
  }

  /** `errorHandler(err)`: an `AppError` answers for itself; the two client
      SQLSTATEs become a 400; anything else becomes a 500. */
  function HandleError(t: Thrown): (r: Envelope)
    ensures t.App? ==> r.statusCode == t.err.statusCode && r.message == t.err.message
    ensures t.Raw? ==>
      r == if IsClientDbCode(t.code) then Envelope(400, "fail", "Bad request")
           else Envelope(500, "error", "Something went wrong")
  {
    match t
    case App(e) => Envelope(e.statusCode, e.Status(), e.message)
    case Raw(_, code) =>
      if IsClientDbCode(code) then Envelope(400, "fail", "Bad request")
      else Envelope(500, "error", "Something went wrong")
  }

  /** The status word of every response agrees with its HTTP code. */
  lemma EnvelopeStatusCoherent(t: Thrown)
    ensures HandleError(t).status == StatusWord(HandleError(t).statusCode)
  {
    ClientAndServerCodes(400);
    ClientAndServerCodes(500);
  }

  /** The type check on `AppError` comes before the SQLSTATE check: an
      application error is never rewritten, whatever its code. */
  lemma AppErrorTakesPrecedence(e: AppError)
    ensures HandleError(App(e)) == Envelope(e.statusCode, StatusWord(e.statusCode), e.message)
  {
  }

  /** A foreign error's own text never reaches the client: two foreign
      errors with the same code get the same response. */
  lemma RawTextNeverLeaks(name1: string, name2: string, code: Option<string>)
    ensures HandleError(Raw(name1, code)) == HandleError(Raw(name2, code))
  {
  }

  /** `forbiddenMethod`: whatever the request, forward the default
      `methodNotAllowed` error; there is no success path. */
  function ForbiddenMethod<Request>(req: Request): (t: Thrown)
    ensures t.App? && t.err.isOperational
    ensures HandleError(t) == Envelope(405, "fail", "Method not allowed")
  {
    App(Raise(MethodNotAllowed, None))
  }

  /** The outcome of `forbiddenMethod` does not depend on the request. */
  lemma ForbiddenMethodIgnoresRequest<Request>(a: Request, b: Request)
    ensures ForbiddenMethod(a) == ForbiddenMethod(b)
  {
  }

  /** The catch-all route: 404 naming the requested path. */
  function RouteNotFound(originalUrl: string): (t: Thrown)
    ensures HandleError(t) == Envelope(404, "fail", "Can't find " + originalUrl + " on this server")
  {
    ClientAndServerCodes(404);
    Fail(NotFound, "Can't find " + originalUrl + " on this server")
  }

  // ---------------------------------------------------------------------
  // The `forbidden` factory

  /** As written, the ownership checks call `AppError.forbidden`, which the
      class does not define: the call itself throws a `TypeError`, so the
      client gets a 500 whatever the message was. */
  function ForbiddenAsWritten(message: string): (t: Thrown)
    ensures HandleError(t) == Envelope(500, "error", "Something went wrong")
  {
    UndefinedFactoryCall
  }

  /** The as-written call never answers 403 and loses the message. */
  lemma ForbiddenAsWrittenLosesMessage(message: string)
    ensures HandleError(ForbiddenAsWritten(message)).statusCode != 403
    ensures message != "Something went wrong" ==> HandleError(ForbiddenAsWritten(message)).message != message
  {
  }

  /** With the factory defined, an ownership failure is a 403 `fail` that
      carries its message. */
  lemma ForbiddenAnswers403(message: string)
    ensures HandleError(Fail(Forbidden, message))
         == Envelope(403, "fail", if message == "" then "Forbidden" else message)
  {
    ClientAndServerCodes(403);
  }
}
