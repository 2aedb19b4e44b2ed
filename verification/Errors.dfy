/** Errors of the client and the result type that carries them. */
module Errors {
  import opened Response

  datatype Error =
    | Transient(response: Response)
    | Permanent(response: Response)
    | ResponseParsing(text: string)
    | ChallengeParsing
    | Utf8Parsing
    | Client(text: string)
    | Io(text: string)
    | Parsing
    | InvalidAddress(text: string)

  datatype Result<+T> = Success(value: T) | Failure(error: Error)
  {
    predicate IsFailure() {
      Failure?
    }

    function PropagateFailure<U>(): Result<U>
      requires Failure?
    {
      Failure(error)
    }

    function Extract(): T
      requires Success?
    {
      value
    }
  }

  type SmtpResult = Result<Response>

  function FromResponse(r: Response): Error {
    match r.code.severity
    case TransientNegativeCompletion => Transient(r)
    case PermanentNegativeCompletion => Permanent(r)
    case _ => Client("Unknown error code")
  }

  /** A reply read from the wire as the caller gets it. */
  function Verdict(r: Response): SmtpResult {
    if r.IsPositive() then Success(r) else Failure(FromResponse(r))
  }
}
