/** The bearer-token check of backend/middleware/auth.js: from the
    `Authorization` header to either `next()` with `req.auth` set or
    `next(error)`. The token check itself (`jwt.verify`) is a parameter. */
module AuthMiddleware {
  import opened Wrappers
  import opened Json
  import opened Strings
  import opened HttpErrors
  import ErrorMiddleware

  /** What `jwt.verify(token, secret)` does: return the decoded payload, or
      throw an error with a name and a message. */
  datatype VerifyOutcome = Decoded(claims: map<string, JsValue>) | VerifyFailed(name: string, message: string)

  /** `req.auth`. */
  datatype AuthInfo = AuthInfo(userId: JsValue)

  /** Whether the middleware calls `next()` with the request authenticated,
      or `next(error)`. */
  datatype Verdict = Proceed(auth: AuthInfo) | Reject(error: ErrorValue)

  const Unauthorized := 401
  const MissingTokenMessage := "Token d'authentification manquant"
  const InvalidTokenMessage := "Token invalide"

  /** `header.split(" ")[1]`: `None` stands for `undefined`. */
  function TokenField(header: string): (token: Option<string>)
    ensures token.Some? <==> ' ' in header
    ensures token.Some? ==> ' ' !in token.value
  {
    SplitHasSecondPiece(header, ' ');
    var parts := Split(header, ' ');
    if |parts| > 1 then Some(parts[1]) else None
  }

  /** The middleware's decision for the header value `header` (`None` when
      the header is absent), with `process.env.TOKEN_SECRET` passed as
      `secret` (`None` when the variable is unset; what `jwt.verify` then does
      is up to `verify`). Each error is made with the trace `stack`. */
  function Decide(header: Option<string>, secret: Option<string>, verify: (string, Option<string>) -> VerifyOutcome, stack: string): (v: Verdict)
    ensures v.Reject? ==> v.error.statusCode == Some(Unauthorized)
    ensures header.None? || header == Some("") ==>
      v == Reject(NewHttpError(Unauthorized, MissingTokenMessage, None, stack))
    ensures v.Proceed? <==>
      && header.Some? && header.value != ""
      && TokenField(header.value).Some? && TokenField(header.value).value != ""
      && verify(TokenField(header.value).value, secret).Decoded?
    ensures v.Proceed? ==> v.auth.userId == Get(verify(TokenField(header.value).value, secret).claims, "userId")
  {
    if header.None? || header.value == "" then
      Reject(NewHttpError(Unauthorized, MissingTokenMessage, None, stack))
    else
      var token := TokenField(header.value);
      if token.None? || token.value == "" then
        Reject(NewHttpError(Unauthorized, InvalidTokenMessage, None, stack))
      else
        match verify(token.value, secret)
        case Decoded(claims) => Proceed(AuthInfo(Get(claims, "userId")))
        case VerifyFailed(name, message) => Reject(NewHttpError(Unauthorized, message, Some(name), stack))
  }

  /** The token is the second space-separated word; the first word (the
      scheme) is never looked at. */
  lemma {:induction false} TokenAfterAnyScheme(scheme: string, token: string, rest: string)
    requires ' ' !in scheme && ' ' !in token
    ensures TokenField(scheme + " " + token) == Some(token)
    ensures TokenField(scheme + " " + token + " " + rest) == Some(token)
  {
    assert scheme + " " + token == scheme + [' '] + token;
    SplitAtSeparator(scheme, token, ' ');
    Strings.FirstPiece(token, ' ');
    Strings.SplitAfterPlainPrefix(token, "", ' ');
    assert token + "" == token;
    assert scheme + " " + token + " " + rest == scheme + [' '] + (token + [' '] + rest);
    SplitAtSeparator(scheme, token + [' '] + rest, ' ');
    SplitAtSeparator(token, rest, ' ');
  }

  /** `"Bearer "` and a doubled space both leave field 1 empty: the request is
      refused as an invalid token and `verify` is not consulted. */
  lemma {:induction false} EmptyTokenRefused(scheme: string, rest: string, secret: Option<string>,
                                             verify: (string, Option<string>) -> VerifyOutcome, stack: string)
    requires ' ' !in scheme
    ensures Decide(Some(scheme + " "), secret, verify, stack) ==
      Reject(NewHttpError(Unauthorized, InvalidTokenMessage, None, stack))
    ensures Decide(Some(scheme + "  " + rest), secret, verify, stack) ==
      Reject(NewHttpError(Unauthorized, InvalidTokenMessage, None, stack))
  {
    assert scheme + " " == scheme + [' '] + "";
    SplitAtSeparator(scheme, "", ' ');
    assert scheme + "  " + rest == scheme + [' '] + ([' '] + rest);
    SplitAtSeparator(scheme, [' '] + rest, ' ');
    SplitAtSeparator("", rest, ' ');
    assert "" + [' '] + rest == [' '] + rest;
  }

  /** A header without a space has no field 1: refused as an invalid token. */
  lemma NoSpaceRefused(header: string, secret: Option<string>, verify: (string, Option<string>) -> VerifyOutcome, stack: string)
    requires header != "" && ' ' !in header
    ensures Decide(Some(header), secret, verify, stack) ==
      Reject(NewHttpError(Unauthorized, InvalidTokenMessage, None, stack))
  {
  }

  /** Until a non-empty token has been found, `verify` is not called: the
      verdict is the same whatever `verify` does. */
  lemma VerifyOnlyWithToken(header: Option<string>, secret: Option<string>, stack: string,
                            verify1: (string, Option<string>) -> VerifyOutcome,
                            verify2: (string, Option<string>) -> VerifyOutcome)
    requires header.None? || header.value == "" || TokenField(header.value).None? || TokenField(header.value).value == ""
    ensures Decide(header, secret, verify1, stack) == Decide(header, secret, verify2, stack)
  {
  }

  /** A rejected token is reported with the library error's message, and
      its name when that is non-empty. */
  lemma VerifyFailureReported(header: string, secret: Option<string>, verify: (string, Option<string>) -> VerifyOutcome, stack: string)
    requires header != "" && TokenField(header).Some? && TokenField(header).value != ""
    requires verify(TokenField(header).value, secret).VerifyFailed?
    ensures var failure := verify(TokenField(header).value, secret);
      Decide(Some(header), secret, verify, stack) ==
        Reject(NewHttpError(Unauthorized, failure.message, Some(failure.name), stack))
  {
  }

  /** Were backend/middleware/error.middleware.js mounted, every refusal
      would reach the client as a 401, and outside development a missing
      header would read `{error: "Token d'authentification manquant"}`. */
  lemma RefusalReply(header: Option<string>, secret: Option<string>, verify: (string, Option<string>) -> VerifyOutcome,
                     stack: string, nodeEnv: Option<string>)
    requires Decide(header, secret, verify, stack).Reject?
    ensures ErrorMiddleware.HandleError(Decide(header, secret, verify, stack).error, nodeEnv).status == Unauthorized
    ensures nodeEnv != Some(ErrorMiddleware.Development) && (header.None? || header == Some("")) ==>
      ErrorMiddleware.HandleError(Decide(header, secret, verify, stack).error, nodeEnv).body ==
        JObj(map["error" := JStr(MissingTokenMessage)])
  {
  }

  /** The request as the middleware sees it: the header is read, `req.auth`
      is written. */
  class Request {
    const authorization: Option<string>
    var auth: Option<AuthInfo>

    constructor (authorization: Option<string>)
      ensures this.authorization == authorization && auth == None
    {
      this.authorization := authorization;
      auth := None;
    }
  }

  /** The middleware: it calls `next` exactly once, returned here as its
      argument (`None` for `next()`), and sets `req.auth` only on success. */
  method Authenticate(req: Request, secret: Option<string>, verify: (string, Option<string>) -> VerifyOutcome, stack: string)
    returns (nextError: Option<ErrorValue>)
    modifies req
    ensures var v := Decide(req.authorization, secret, verify, stack);
      && (v.Proceed? ==> nextError == None && req.auth == Some(v.auth))
      && (v.Reject? ==> nextError == Some(v.error) && req.auth == old(req.auth))
  {
    var verdict := Decide(req.authorization, secret, verify, stack);
    match verdict
    case Proceed(auth) =>
      req.auth := Some(auth);
      nextError := None;
    case Reject(error) =>
      nextError := Some(error);
  }
}
