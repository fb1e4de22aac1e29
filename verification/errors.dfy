/** The exceptions the services throw and `GlobalExceptionHandler`, which
    turns each of them into the (status, message, details) triple of an
    `ApiError` body. */
module Errors {

  const BAD_REQUEST := 400
  const UNAUTHORIZED := 401
  const FORBIDDEN := 403
  const NOT_FOUND := 404
  const CONFLICT := 409

  /** One field error of a failed `@Valid` binding. */
  datatype FieldError = FieldError(field: string, defaultMessage: string)

  /** The exception kinds that leave the modelled code, each with its message. */
  datatype Failure =
    | CommonFailure(message: string)          // CommonException
    | ConstraintViolation(message: string)    // ConstraintViolationException
    | BadCredentials(message: string)         // BadCredentialsException
    | UserAlreadyExists(message: string)      // UserAlreadyExistsException
    | ResourceAlreadyExist(message: string)   // ResourceAlreadyExistException
    | JwtTokenExpired(message: string)        // JwtTokenExpiredException
    | ArgumentNotValid(fieldErrors: seq<FieldError>)  // MethodArgumentNotValidException
    | ResourceNotFound(message: string)       // ResourceNotFoundException
    | UsernameNotFound(message: string)       // UsernameNotFoundException
    | JwtFault(message: string)               // a JwtException the filter does not catch
    | RuntimeFault(message: string)           // NullPointerException, StringIndexOutOfBoundsException

  /** The error body, without its timestamp. */
  datatype ApiError = ApiError(status: int, message: string, details: seq<string>)

  /** The details of a validation failure: "field : message" for each
      field error, in binding order. */
  function FieldMessages(errors: seq<FieldError>): (r: seq<string>)
    ensures |r| == |errors|
    ensures forall i :: 0 <= i < |errors| ==> r[i] == errors[i].field + " : " + errors[i].defaultMessage
    decreases |errors|
  {
    if |errors| == 0 then []
    else [errors[0].field + " : " + errors[0].defaultMessage] + FieldMessages(errors[1..])
  }

  /** The handler chosen for each failure kind; failures without a dedicated
      handler fall through to `handleAll`. */
  function Handle(f: Failure): (r: ApiError)
    ensures 400 <= r.status < 500
    ensures !f.ArgumentNotValid? ==> r.details == [f.message]
    ensures f.ArgumentNotValid? ==> r.details == FieldMessages(f.fieldErrors)
    ensures r.status == CONFLICT <==> f.BadCredentials? || f.ResourceAlreadyExist?
    ensures r.status == NOT_FOUND <==> f.CommonFailure?
    ensures r.status == UNAUTHORIZED <==> f.JwtTokenExpired?
    ensures r.status == BAD_REQUEST <==> !(f.BadCredentials? || f.ResourceAlreadyExist? || f.CommonFailure? || f.JwtTokenExpired?)
  {
    match f
    case CommonFailure(m) => ApiError(NOT_FOUND, "exception", [m])
    case ConstraintViolation(m) => ApiError(BAD_REQUEST, "Constraint violation", [m])
    case BadCredentials(m) => ApiError(CONFLICT, "Bad Credentials", [m])
    case UserAlreadyExists(m) => ApiError(BAD_REQUEST, "Already Exist", [m])
    case ResourceAlreadyExist(m) => ApiError(CONFLICT, "Resource Already Exists", [m])
    case JwtTokenExpired(m) => ApiError(UNAUTHORIZED, "JWT token exception", [m])
    case ArgumentNotValid(errors) => ApiError(BAD_REQUEST, "validation", FieldMessages(errors))
    case _ => ApiError(BAD_REQUEST, "Error", [f.message])
  }

  /** The message column of the handler table: a dedicated handler names its
      exception kind, every other failure reads "Error". */
  lemma HandleMessages(f: Failure)
    ensures f.CommonFailure? ==> Handle(f).message == "exception"
    ensures f.BadCredentials? ==> Handle(f).message == "Bad Credentials"
    ensures f.UserAlreadyExists? ==> Handle(f).message == "Already Exist"
    ensures f.ResourceAlreadyExist? ==> Handle(f).message == "Resource Already Exists"
    ensures f.JwtTokenExpired? ==> Handle(f).message == "JWT token exception"
    ensures f.ConstraintViolation? ==> Handle(f).message == "Constraint violation"
    ensures f.ArgumentNotValid? ==> Handle(f).message == "validation"
    ensures f.ResourceNotFound? || f.UsernameNotFound? || f.JwtFault? || f.RuntimeFault?
            ==> Handle(f) == ApiError(BAD_REQUEST, "Error", [f.message])
  {
  }
}
