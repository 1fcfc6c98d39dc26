/** The error values that reach the error handler, and the `HttpError`
    class of backend/utils/HttpError.js that builds them. */
module HttpErrors {
  import opened Wrappers

  /** An `Error` as the error handler reads it. `statusCode` is absent on
      errors that are not `HttpError`s; `stack` is the trace the runtime
      captured when the error was made. */
  datatype ErrorValue = ErrorValue(statusCode: Option<int>, name: string, message: string, stack: string)

  /** `this.constructor.name` inside `HttpError`. */
  const ClassName := "HttpError"

  /** `name || fallback`: a missing, `null` or empty name is falsy. */
  function NameOr(name: Option<string>, fallback: string): string
  {
    if name.Some? && name.value != "" then name.value else fallback
  }

  /** `new HttpError(statusCode, message, name)`; `stack` is what
      `Error.captureStackTrace` records, passed in. */
  function NewHttpError(statusCode: int, message: string, name: Option<string>, stack: string): (e: ErrorValue)
    ensures e.statusCode == Some(statusCode)
    ensures e.message == message
    ensures e.stack == stack
    ensures name.Some? && name.value != "" ==> e.name == name.value
    ensures name.None? || name == Some("") ==> e.name == ClassName
  {
    ErrorValue(Some(statusCode), NameOr(name, ClassName), message, stack)
  }
}
