/**
 * The bot's error middleware: whatever a route throws is turned into a JSON
 * reply, classified first by the error's name and then by words in its
 * message; and the three error classes routes throw.
 */
module Errors {
  import opened Common
  import opened Strings

  /** An `Error` object: its `name` and `message`. */
  datatype ErrorValue = ErrorValue(name: string, message: string)

  /** How the rest of the chain ended: normally, by throwing an `Error`, or by throwing any other value. */
  datatype Outcome = Returned | Threw(error: ErrorValue) | ThrewNonError

  /** The JSON body `{ error, message }` with its HTTP status. */
  datatype Response = Response(status: nat, error: string, message: string)

  const ValidationName := "ValidationError"

  /** `new ValidationError(message)`. */
  function ValidationError(message: string): (e: ErrorValue)
    ensures e.name == ValidationName && e.message == message
  {
    ErrorValue(ValidationName, message)
  }

  /** `new UnauthorizedError(message?)`; an omitted message is `Unauthorized`. */
  function UnauthorizedError(message: Option<string>): (e: ErrorValue)
    ensures e.name == "UnauthorizedError"
    ensures e.message == (if message.Some? then message.value else "Unauthorized")
  {
    ErrorValue("UnauthorizedError", message.GetOr("Unauthorized"))
  }

  /** `new NotFoundError(message?)`; an omitted message is `Not Found`. */
  function NotFoundError(message: Option<string>): (e: ErrorValue)
    ensures e.name == "NotFoundError"
    ensures e.message == (if message.Some? then message.value else "Not Found")
  {
    ErrorValue("NotFoundError", message.GetOr("Not Found"))
  }

  const Generic := Response(500, "Internal Server Error", "An unexpected error occurred")

  /** `errorHandler`: `None` when `next()` returned and the route's own reply stands. */
  function HandleError(outcome: Outcome): (r: Option<Response>)
    ensures r.None? <==> outcome.Returned?
    ensures r.Some? ==> r.value.status in {400, 401, 404, 500}
  {
    match outcome
    case Returned => None
    case ThrewNonError => Some(Generic)
    case Threw(e) =>
      if e.name == ValidationName then Some(Response(400, "Validation Error", e.message))
      else if Contains(e.message, "Unauthorized") then Some(Response(401, "Unauthorized", "Invalid or missing authentication"))
      else if Contains(e.message, "Not Found") then Some(Response(404, "Not Found", e.message))
      else Some(Generic)
  }

  /** The status an error gets, read off the rules in the order the handler applies them. */
  lemma StatusRules(e: ErrorValue)
    ensures var r := HandleError(Threw(e)).value;
      && (r.status == 400 <==> e.name == ValidationName)
      && (r.status == 401 <==> e.name != ValidationName && Contains(e.message, "Unauthorized"))
      && (r.status == 404 <==> e.name != ValidationName && !Contains(e.message, "Unauthorized") && Contains(e.message, "Not Found"))
      && (r.status == 500 <==> e.name != ValidationName && !Contains(e.message, "Unauthorized") && !Contains(e.message, "Not Found"))
      && (r.status == 400 || r.status == 404 ==> r.message == e.message)
  {
  }

  /** A thrown value that is not an `Error` always gets the generic 500. */
  lemma NonErrorIsGeneric()
    ensures HandleError(ThrewNonError) == Some(Response(500, "Internal Server Error", "An unexpected error occurred"))
  {
  }

  /** A validation error keeps its 400 whatever its message says. */
  lemma ValidationWins(message: string)
    ensures HandleError(Threw(ValidationError(message))) == Some(Response(400, "Validation Error", message))
  {
  }

  /** The default messages of the two other classes give 401 and 404. */
  lemma DefaultMessagesClassify()
    ensures HandleError(Threw(UnauthorizedError(None))).value.status == 401
    ensures HandleError(Threw(NotFoundError(None))).value.status == 404
  {
    OccursAtPrefix("Unauthorized", "Unauthorized");
    OccursAtPrefix("Not Found", "Not Found");
    assert !Contains("Not Found", "Unauthorized") by {
      NoCharNoContains("Not Found", "Unauthorized", 'U');
    }
  }

  /**
   * The classes are told apart by message, not by name: an
   * `UnauthorizedError` or `NotFoundError` whose message contains neither
   * keyword ends as a 500.
   */
  lemma CustomMessageIsGeneric(message: string)
    requires !Contains(message, "Unauthorized") && !Contains(message, "Not Found")
    ensures HandleError(Threw(UnauthorizedError(Some(message)))) == Some(Generic)
    ensures HandleError(Threw(NotFoundError(Some(message)))) == Some(Generic)
  {
  }
}
