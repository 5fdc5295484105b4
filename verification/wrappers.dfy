/** Option and the HTTP-style response every service operation returns. */
module Wrappers {

  /** A value that may be absent: Java's `null`, JavaScript's `null`/`undefined`. */
  datatype Option<+T> = None | Some(value: T) {
    function GetOr(default: T): T {
      match this
      case Some(v) => v
      case None => default
    }
  }

  /** HTTP status codes the backend answers with. */
  const OkStatus: int := 200
  const BadRequest: int := 400
  const Forbidden: int := 403
  const NotFound: int := 404
  const Conflict: int := 409
  const ServerError: int := 500

  /** Why a request was refused; each reason carries the response body text the backend sends. */
  datatype Reason =
    | NoFileUploaded
    | TaskNotFound
    | UserEliminated
    | RoundNotInTask
    | RoundDeadlinePassed
    | RoundNotActive
    | UploadFailed
    | NoRounds
    | NoActiveRound
    | DeadlineNotReached
    | NoNextRound
    | InvalidReview
    | MissingEntity
    | ConstraintViolation
  {
    function Body(): string {
      match this
      case NoFileUploaded => "No file uploaded."
      case TaskNotFound => "Task not found."
      case UserEliminated => "Ezt a felhasználót a Task kiírója kizárta/elutasította a versenyből."
      case RoundNotInTask => "Round not found in this Task."
      case RoundDeadlinePassed => "A kiválasztott forduló beküldési határideje lejárt."
      case RoundNotActive => "Csak az aktív fordulóba lehet beküldeni."
      case UploadFailed => "Upload failed: "
      case NoRounds => "No rounds for this task."
      case NoActiveRound => "No active round to advance from."
      case DeadlineNotReached => "Current active round hasn't reached its deadline yet."
      case NoNextRound => "No next round to activate."
      case InvalidReview => ""
      case MissingEntity => ""
      case ConstraintViolation => ""
    }
  }

  /** A `ResponseEntity`: a 200 carrying a value, or an error status with its reason.
      An error never carries a new state, so a refused request saves nothing. */
  datatype Response<+T> = Ok(value: T) | Err(status: int, reason: Reason) {
    predicate IsError(code: int) {
      Err? && status == code
    }
  }
}
