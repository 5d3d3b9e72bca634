/** The error handler's classification of errors into HTTP responses, and the shapes of the
    errors the persistence layer raises. The handler's own source is not part of this model; what
    is modelled is exactly what its test asserts. */
module Errors {
  import opened Wrappers

  /** An error as it reaches the handler: the application's own `AppError`, which carries its HTTP
      status, or any other thrown error with its `name`, `message` and, for database errors, a
      numeric `code`. */
  datatype ErrorValue =
    | AppError(message: string, statusCode: int)
    | Thrown(name: string, message: string, code: Option<int>)

  /** The JSON body of every error response: `{status: 'error', message}`. */
  datatype ErrorBody = ErrorBody(status: string, message: string)

  /** An HTTP status with its error body. */
  datatype ErrorResponse = ErrorResponse(statusCode: int, body: ErrorBody)

  /** The message that replaces the text of an unexpected error. */
  const GenericMessage: string := "Something went wrong"

  /** MongoDB's error code for a unique-index violation. */
  const DuplicateKeyCode: int := 11000

  /** A failed validation, a failed cast or a duplicate key: the client sent something unacceptable. */
  predicate IsRequestError(e: ErrorValue)
  {
    e.Thrown? && (e.name == "ValidationError" || e.name == "CastError" || e.code == Some(DuplicateKeyCode))
  }

  /** A token that does not verify or has expired. */
  predicate IsTokenError(e: ErrorValue)
  {
    e.Thrown? && (e.name == "JsonWebTokenError" || e.name == "TokenExpiredError")
  }

  /** The error handler: an `AppError` keeps its status and message, a request error is a 400 and a
      token error a 401 with the original message; anything else is a 500 whose message is hidden. */
  function Handle(e: ErrorValue): (r: ErrorResponse)
    ensures r.body.status == "error"
    ensures e.AppError? ==> r.statusCode == e.statusCode && r.body.message == e.message
    ensures IsRequestError(e) ==> r.statusCode == 400 && r.body.message == e.message
    ensures !IsRequestError(e) && IsTokenError(e) ==> r.statusCode == 401 && r.body.message == e.message
    ensures e.Thrown? && !IsRequestError(e) && !IsTokenError(e) ==>
      r.statusCode == 500 && r.body.message == GenericMessage
  {
    if e.AppError? then ErrorResponse(e.statusCode, ErrorBody("error", e.message))
    else if IsRequestError(e) then ErrorResponse(400, ErrorBody("error", e.message))
    else if IsTokenError(e) then ErrorResponse(401, ErrorBody("error", e.message))
    else ErrorResponse(500, ErrorBody("error", GenericMessage))
  }

  /** A response either repeats the error's own message or, for a hidden 500, the fixed one; apart
      from an `AppError`'s own status, only 400, 401 and 500 are ever produced. */
  lemma HandleOutcomes(e: ErrorValue)
    ensures Handle(e).body.message == e.message || Handle(e).body.message == GenericMessage
    ensures e.Thrown? ==> Handle(e).statusCode in {400, 401, 500}
    ensures e.Thrown? ==> (Handle(e).statusCode == 500 <==> !IsRequestError(e) && !IsTokenError(e))
  {
  }

  /** One failed check of a schema validation: the field's path and its message. */
  datatype FieldError = FieldError(path: string, message: string)

  /** What one check of a schema contributes to the failures: nothing when it passes, its error otherwise. */
  function Check(passes: bool, e: FieldError): (r: seq<FieldError>)
    ensures passes ==> r == []
    ensures !passes ==> |r| == 1 && r[0] == e
  {
    if passes then [] else [e]
  }

  /** `path: message, path: message, ...`. */
  function ListFailures(failures: seq<FieldError>): string
  {
    if failures == [] then ""
    else
      failures[0].path + ": " + failures[0].message
      + (if |failures| > 1 then ", " + ListFailures(failures[1..]) else "")
  }

  /** The `ValidationError` a model's `save` raises when some field fails its checks. */
  function ValidationError(model: string, failures: seq<FieldError>): (e: ErrorValue)
    ensures IsRequestError(e) && !IsTokenError(e)
  {
    Thrown("ValidationError", model + " validation failed: " + ListFailures(failures), None)
  }

  /** The error the database raises when an insert or update violates the unique index `index`. */
  function DuplicateKeyError(index: string): (e: ErrorValue)
    ensures IsRequestError(e) && !IsTokenError(e)
  {
    Thrown("MongoServerError", "E11000 duplicate key error index: " + index, Some(DuplicateKeyCode))
  }

  /** The error classification in the handler's tests: each kind's status and message. */
  lemma HandlerExamples()
    ensures Handle(AppError("Test error", 400)) == ErrorResponse(400, ErrorBody("error", "Test error"))
    ensures Handle(Thrown("ValidationError", "Validation failed", None)).statusCode == 400
    ensures Handle(Thrown("CastError", "Invalid ID", None)).body.message == "Invalid ID"
    ensures Handle(Thrown("MongoError", "Duplicate field value", Some(11000))) ==
      ErrorResponse(400, ErrorBody("error", "Duplicate field value"))
    ensures Handle(Thrown("JsonWebTokenError", "Invalid token", None)).statusCode == 401
    ensures Handle(Thrown("TokenExpiredError", "Token expired", None)).body.message == "Token expired"
    ensures Handle(Thrown("Error", "Unknown error", None)) == ErrorResponse(500, ErrorBody("error", GenericMessage))
  {
  }
}
