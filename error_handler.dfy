/** The HTTP error middleware: which status and body each error becomes. */
module ErrorHandler {
  import opened DomainErrors

  /** What reaches the handler: a domain error, or any other error with its message. */
  datatype AppError = Domain(error: DomainError) | Unclassified(message: string)

  /** The status code and the JSON body `{ error, message }` of the response. */
  datatype ErrorResponse = ErrorResponse(status: nat, error: string, message: string)

  const InternalServerError := "Internal Server Error"
  const UnexpectedError := "An unexpected error occurred"

  /** The response for `err`; `development` says whether the environment is the development one. */
  function HandleError(err: AppError, development: bool): (r: ErrorResponse)
    ensures err.Domain? ==> r.error == Name(err.error) && r.message == Message(err.error)
    ensures r.status == 404 <==> err.Domain? && err.error.EntityNotFound?
    ensures r.status == 409 <==> err.Domain? && (err.error.DuplicateEntity? || err.error.MembershipAlreadyExists?)
    ensures r.status == 400 <==> err.Domain? && (err.error.GymCapacityExceeded? || err.error.RequiredField?)
    ensures r.status == 500 <==> err.Unclassified?
    ensures err.Unclassified? ==> r.error == InternalServerError
    ensures err.Unclassified? ==> r.message == (if development then err.message else UnexpectedError)
  {
    match err
    case Domain(e) =>
      var status :=
        if e.EntityNotFound? then 404
        else if e.DuplicateEntity? then 409
        else if e.GymCapacityExceeded? then 400
        else if e.MembershipAlreadyExists? then 409
        else 400;
      ErrorResponse(status, Name(e), Message(e))
    case Unclassified(message) =>
      ErrorResponse(500, InternalServerError, if development then message else UnexpectedError)
  }

  /** Domain errors are the caller's fault (a 4xx status), every other error the server's (5xx). */
  lemma StatusClassifiesOrigin(err: AppError, development: bool)
    ensures 400 <= HandleError(err, development).status < 500 <==> err.Domain?
    ensures 500 <= HandleError(err, development).status < 600 <==> err.Unclassified?
  {
  }

  /** Outside development the response to an unclassified error does not depend on its message,
      so no internal detail reaches the caller. */
  lemma ProductionHidesDetail(m1: string, m2: string)
    ensures HandleError(Unclassified(m1), false) == HandleError(Unclassified(m2), false)
  {
  }
}
