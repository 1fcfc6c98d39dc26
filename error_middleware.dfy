/** The Express error handler of backend/middleware/error.middleware.js:
    the status of the reply and the shape of its body. */
module ErrorMiddleware {
  import opened Wrappers
  import opened Json
  import opened HttpErrors

  /** The one `NODE_ENV` value that selects the diagnostic body. */
  const Development := "development"

  const DefaultStatus := 500
  const FallbackMessage := "Une erreur interne est survenue."

  /** `err.statusCode || 500`: an absent or zero status code is falsy. */
  function StatusFor(err: ErrorValue): (code: int)
    ensures err.statusCode.Some? && err.statusCode.value != 0 ==> code == err.statusCode.value
    ensures err.statusCode.None? || err.statusCode == Some(0) ==> code == DefaultStatus
    ensures code != 0
  {
    if err.statusCode.Some? && err.statusCode.value != 0 then err.statusCode.value else DefaultStatus
  }

  /** The diagnostic body: `{error: {name, message, stack}}`. */
  function DevelopmentBody(err: ErrorValue): JsValue
  {
    JObj(map["error" := JObj(map[
      "name" := JStr(err.name),
      "message" := JStr(err.message),
      "stack" := JStr(err.stack)])])
  }

  /** The production body: `{error: message}`, with a fixed text when the
      message is empty. */
  function ProductionBody(err: ErrorValue): JsValue
  {
    JObj(map["error" := JStr(if err.message != "" then err.message else FallbackMessage)])
  }

  /** The reply the handler sends for `err`; `nodeEnv` is `process.env.NODE_ENV`. */
  function HandleError(err: ErrorValue, nodeEnv: Option<string>): (r: Reply)
    ensures r.status == StatusFor(err)
    ensures HasKeyDeep(r.body, "stack") <==> nodeEnv == Some(Development)
    ensures HasKeyDeep(r.body, "name") <==> nodeEnv == Some(Development)
    ensures r.body.JObj? && r.body.fields.Keys == {"error"}
  {
    var body := if nodeEnv == Some(Development) then DevelopmentBody(err) else ProductionBody(err);
    assert nodeEnv == Some(Development) ==> "stack" in body.fields["error"].fields;
    assert nodeEnv == Some(Development) ==> "name" in body.fields["error"].fields;
    Reply(StatusFor(err), body)
  }

  /** In development the body exposes the error's name, message and stack. */
  lemma DevelopmentExposesDiagnostics(err: ErrorValue)
    ensures var e := HandleError(err, Some(Development)).body.fields["error"];
      e.JObj? && e.fields.Keys == {"name", "message", "stack"}
      && e.fields["name"] == JStr(err.name)
      && e.fields["message"] == JStr(err.message)
      && e.fields["stack"] == JStr(err.stack)
  {
  }

  /** Outside development the body carries only the message, or the fixed
      text when the message is empty. */
  lemma ProductionShowsMessageOnly(err: ErrorValue, nodeEnv: Option<string>)
    requires nodeEnv != Some(Development)
    ensures HandleError(err, nodeEnv).body.fields["error"] ==
      JStr(if err.message != "" then err.message else FallbackMessage)
  {
  }
}
