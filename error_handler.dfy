/** The global error handler and the not-found handler of the Express app. */
module ErrorHandler {
  import opened Http
  import opened Js

  /** A thrown error: a plain `Error` (or a database error) with its name and message, or an
      `AppError` carrying its own status code. */
  datatype JsError =
    | PlainError(name: string, message: string)
    | AppError(name: string, message: string, statusCode: int)

  const UniqueViolation: string := "violates unique constraint"
  const ForeignKeyViolation: string := "violates foreign key constraint"

  /** `new AppError(message, statusCode)`. */
  function NewAppError(message: string, statusCode: int): (e: JsError)
    ensures e.AppError? && e.name == "AppError"
    ensures e.message == message && e.statusCode == statusCode
  {
    AppError("AppError", message, statusCode)
  }

  /** `errorHandler`: an AppError answers with its own code and message; otherwise the message
      is tested for the unique-violation text, then the foreign-key text, else 500. */
  function Handle(err: JsError): (resp: Response<()>)
    ensures err.AppError? ==> resp == Response(err.statusCode, ErrorBody(err.message))
    ensures err.PlainError? && Includes(err.message, UniqueViolation) ==>
      resp == Response(409, ErrorBody("Resource already exists"))
    ensures err.PlainError? && !Includes(err.message, UniqueViolation) && Includes(err.message, ForeignKeyViolation) ==>
      resp == Response(400, ErrorBody("Invalid reference to related resource"))
    ensures err.PlainError? && !Includes(err.message, UniqueViolation) && !Includes(err.message, ForeignKeyViolation) ==>
      resp == Response(500, ErrorBody("Internal server error"))
  {
    if err.AppError? then Response(err.statusCode, ErrorBody(err.message))
    else if Includes(err.message, UniqueViolation) then Response(409, ErrorBody("Resource already exists"))
    else if Includes(err.message, ForeignKeyViolation) then Response(400, ErrorBody("Invalid reference to related resource"))
    else Response(500, ErrorBody("Internal server error"))
  }

  /** An AppError built by the constructor comes back out with the code and message it was built
      with, whatever its message says. */
  lemma AppErrorRoundTrip(message: string, statusCode: int)
    ensures Handle(NewAppError(message, statusCode)) == Response(statusCode, ErrorBody(message))
  {
  }

  /** For a plain error the handler's answer depends only on where the two constraint texts occur
      in the message: 409 iff the unique text occurs at some index, 400 iff only the foreign-key
      text does, and 500 iff neither occurs. */
  lemma PlainErrorStatus(name: string, message: string)
    ensures Handle(PlainError(name, message)).status == 409 <==> exists i :: OccursAt(message, UniqueViolation, i)
    ensures Handle(PlainError(name, message)).status == 400 <==>
      (forall i :: !OccursAt(message, UniqueViolation, i)) && exists i :: OccursAt(message, ForeignKeyViolation, i)
    ensures Handle(PlainError(name, message)).status == 500 <==>
      (forall i :: !OccursAt(message, UniqueViolation, i)) && (forall i :: !OccursAt(message, ForeignKeyViolation, i))
  {
    IncludesIffOccurs(message, UniqueViolation);
    IncludesIffOccurs(message, ForeignKeyViolation);
  }

  /** `notFoundHandler`: every unmatched route answers 404. */
  function NotFound(): (resp: Response<()>)
    ensures resp.status == 404 && resp.body.ErrorBody?
  {
    Response(404, ErrorBody("Route not found"))
  }
}
