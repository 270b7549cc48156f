// The error classes of the API and the error middleware that turns a thrown error
// into a response (server/middleware/errorHandler.js).

module Errors {
  import opened Wrappers
  import Http
  import Strings

  /** A value of an error's `errors` object: a plain string (this API) or an object with a `message`. */
  datatype ErrorValue = Text(s: string) | WithMessage(message: Option<string>)

  /**
   * A thrown error as the error middleware sees it: its name, message, statusCode and code
   * properties, and the values of its `errors` object in order (none when it has no such object).
   */
  datatype Thrown = Thrown(name: string, message: string, statusCode: Option<int>, code: Option<int>, errors: seq<ErrorValue>)

  /** `new AuthError(message)`: 401, 'Authentication required' when no message is given. */
  function AuthError(message: Option<string>): (e: Thrown)
    ensures e.name == "AuthError" && e.statusCode == Some(Http.UNAUTHORIZED) && e.code.None? && e.errors == []
    ensures message.Some? ==> e.message == message.value
    ensures message.None? ==> e.message == "Authentication required"
  {
    Thrown("AuthError", message.GetOr("Authentication required"), Some(Http.UNAUTHORIZED), None, [])
  }

  /** `new NotFoundError(message)`: 404, 'Resource not found' when no message is given. */
  function NotFoundError(message: Option<string>): (e: Thrown)
    ensures e.name == "NotFoundError" && e.statusCode == Some(Http.NOT_FOUND) && e.code.None? && e.errors == []
    ensures message.Some? ==> e.message == message.value
    ensures message.None? ==> e.message == "Resource not found"
  {
    Thrown("NotFoundError", message.GetOr("Resource not found"), Some(Http.NOT_FOUND), None, [])
  }

  /** `new ForbiddenError(message)`: 403, 'Forbidden' when no message is given. */
  function ForbiddenError(message: Option<string>): (e: Thrown)
    ensures e.name == "ForbiddenError" && e.statusCode == Some(Http.FORBIDDEN) && e.code.None? && e.errors == []
    ensures message.Some? ==> e.message == message.value
    ensures message.None? ==> e.message == "Forbidden"
  {
    Thrown("ForbiddenError", message.GetOr("Forbidden"), Some(Http.FORBIDDEN), None, [])
  }

  /** A plain `new Error(message)`: no status code of its own. */
  function PlainError(message: string): (e: Thrown)
    ensures e.name == "Error" && e.message == message && e.statusCode.None? && e.code.None?
  {
    Thrown("Error", message, None, None, [])
  }

  /** A `ValidationError` whose `errors` object holds `count` string values, as `validateRequest` builds it. */
  function ValidationThrown(message: string, count: nat): (e: Thrown)
    ensures e.name == "ValidationError" && e.statusCode == Some(Http.UNPROCESSABLE) && |e.errors| == count
    ensures forall i :: 0 <= i < count ==> e.errors[i].Text?
  {
    Thrown("ValidationError", message, Some(Http.UNPROCESSABLE), None, seq(count, i => Text("")))
  }

  /**
   * `ValidationError`: 422, 'Validation failed' when no message is given, and a field-to-message
   * map that `addValidationError` fills in.
   */
  class ValidationError {
    const message: string
    var errors: map<string, string>

    constructor (message: Option<string>)
      ensures message.Some? ==> this.message == message.value
      ensures message.None? ==> this.message == "Validation failed"
      ensures errors == map[]
    {
      this.message := message.GetOr("Validation failed");
      errors := map[];
    }

    /** `addValidationError`: sets the field's message, replacing an earlier one for the same field. */
    method AddValidationError(field: string, msg: string)
      modifies this
      ensures errors == old(errors)[field := msg]
    {
      errors := errors[field := msg];
    }

    /**
     * The error as the middleware sees it: one string value per field. The middleware
     * reads only `val.message` of each value, which a string lacks whatever it says, so
     * the field messages are not carried and each value is an empty `Text`.
     */
    function AsThrown(): (e: Thrown)
      reads this
      ensures e.name == "ValidationError" && e.message == message && e.statusCode == Some(Http.UNPROCESSABLE)
      ensures |e.errors| == |errors| && forall i :: 0 <= i < |e.errors| ==> e.errors[i].Text?
    {
      Thrown("ValidationError", message, Some(Http.UNPROCESSABLE), None,
        seq(|errors|, i => Text("")))
    }
  }

  /** `val.message` as written: a string value has no `message` property. */
  function MessageAsWritten(v: ErrorValue): (r: Option<string>)
    ensures v.Text? ==> r.None?
    ensures v.WithMessage? ==> r == v.message
  {
    match v
    case Text(_) => None
    case WithMessage(m) => m
  }

  /** The message a field value evidently stands for: the string itself, or the object's `message`. */
  function MessageIntended(v: ErrorValue): (r: Option<string>)
    ensures v.Text? ==> r == Some(v.s)
    ensures v.WithMessage? ==> r == v.message
  {
    match v
    case Text(s) => Some(s)
    case WithMessage(m) => m
  }

  /** `String(array)`: the items joined with ',', undefined items as the empty string. */
  function ArrayText(items: seq<Option<string>>): (r: string)
    ensures (forall i :: 0 <= i < |items| ==> items[i].None?) ==>
      |r| == (if |items| == 0 then 0 else |items| - 1) && forall c :: c in r ==> c == ','
  {
    if items == [] then ""
    else if |items| == 1 then items[0].GetOr("")
    else items[0].GetOr("") + "," + ArrayText(items[1..])
  }

  /** The `.message` of each value of the `errors` object, read by the given rule. */
  function FieldMessages(err: Thrown, messageOf: ErrorValue -> Option<string>): (r: seq<Option<string>>)
    ensures |r| == |err.errors| && forall i :: 0 <= i < |r| ==> r[i] == messageOf(err.errors[i])
  {
    seq(|err.errors|, i requires 0 <= i < |err.errors| => messageOf(err.errors[i]))
  }

  /** The response of the error middleware: status and the `error` text. */
  datatype Response = Response(status: int, error: string)

  /**
   * `errorHandler`, with the rule for reading a field value as a parameter: a CastError becomes
   * a 404 'Resource not found', code 11000 a 422 'Duplicate field value entered', and a
   * ValidationError a 422 whose message is the field messages as an array; then the status is the
   * error's status code or 500, and the text its message or 'Server Error'.
   */
  function Handle(err: Thrown, messageOf: ErrorValue -> Option<string>): (r: Response)
    ensures r.error != ""
    ensures err.name == "ValidationError" ==> r.status == Http.UNPROCESSABLE
    ensures err.name != "ValidationError" && err.code == Some(11000) ==>
      r == Response(Http.UNPROCESSABLE, "Duplicate field value entered")
    ensures err.name != "ValidationError" && err.code != Some(11000) && err.name == "CastError" ==>
      r == Response(Http.NOT_FOUND, "Resource not found")
    ensures err.name !in {"ValidationError", "CastError"} && err.code != Some(11000) ==>
      r.status == (if err.statusCode.Some? && err.statusCode.value != 0 then err.statusCode.value else Http.SERVER_ERROR) &&
      r.error == (if err.message == "" then "Server Error" else err.message)
  {
    var (status, message) :=
      if err.name == "ValidationError" then (Some(Http.UNPROCESSABLE), ArrayText(FieldMessages(err, messageOf)))
      else if err.code == Some(11000) then (Some(Http.UNPROCESSABLE), "Duplicate field value entered")
      else if err.name == "CastError" then (Some(Http.NOT_FOUND), "Resource not found")
      else (err.statusCode, err.message);
    Response(if status.Some? && status.value != 0 then status.value else Http.SERVER_ERROR,
             if message == "" then "Server Error" else message)
  }

  /** `errorHandler` as written. */
  function ErrorHandler(err: Thrown): (r: Response)
    ensures r == Handle(err, MessageAsWritten)
  {
    Handle(err, MessageAsWritten)
  }

  /** The thrown API errors keep their own status and message. */
  lemma ApiErrorsKeepStatus(message: Option<string>)
    ensures ErrorHandler(AuthError(message)).status == Http.UNAUTHORIZED
    ensures ErrorHandler(NotFoundError(message)).status == Http.NOT_FOUND
    ensures ErrorHandler(ForbiddenError(message)).status == Http.FORBIDDEN
    ensures message.Some? && message.value != "" ==>
      ErrorHandler(AuthError(message)).error == message.value &&
      ErrorHandler(ForbiddenError(message)).error == message.value
    ensures ErrorHandler(NotFoundError(None)).error == "Resource not found"
    ensures ErrorHandler(PlainError("Unauthorized")) == Response(Http.SERVER_ERROR, "Unauthorized")
  {
  }

  /**
   * As written, a validation failure loses its field messages: with one field the answer reads
   * 'Server Error', with more only the commas between the undefined messages remain.
   */
  lemma ValidationMessagesLost(message: string, count: nat)
    ensures ErrorHandler(ValidationThrown(message, count)).status == Http.UNPROCESSABLE
    ensures count <= 1 ==> ErrorHandler(ValidationThrown(message, count)).error == "Server Error"
    ensures count >= 2 ==>
      var t := ErrorHandler(ValidationThrown(message, count)).error;
      |t| == count - 1 && forall c :: c in t ==> c == ','
  {
    var items := FieldMessages(ValidationThrown(message, count), MessageAsWritten);
    assert forall i :: 0 <= i < |items| ==> items[i].None?;
  }

  /** `errorHandler` reading each string value as the field's message. */
  function ErrorHandlerFixed(err: Thrown): (r: Response)
    ensures r == Handle(err, MessageIntended)
  {
    Handle(err, MessageIntended)
  }

  /** Read as intended, every field message of a validation failure reaches the answer. */
  lemma FixedKeepsFieldMessages(message: string, fields: seq<string>, k: nat)
    requires k < |fields| && fields[k] != ""
    ensures var err := Thrown("ValidationError", message, Some(Http.UNPROCESSABLE), None, seq(|fields|, i requires 0 <= i < |fields| => Text(fields[i])));
      ErrorHandlerFixed(err).status == Http.UNPROCESSABLE && Strings.Includes(ErrorHandlerFixed(err).error, fields[k])
  {
    var err := Thrown("ValidationError", message, Some(Http.UNPROCESSABLE), None, seq(|fields|, i requires 0 <= i < |fields| => Text(fields[i])));
    var items := FieldMessages(err, MessageIntended);
    assert items == seq(|fields|, i requires 0 <= i < |fields| => Some(fields[i]));
    ArrayTextOfTexts(fields);
    var joined := Strings.Join(fields, ",");
    Strings.JoinIncludesParts(fields, ",", k);
    var at :| 0 <= at <= |joined| - |fields[k]| && Strings.OccursAt(joined, fields[k], at);
    assert joined != "";
  }

  /** Of present strings, the array text is their ','-join. */
  lemma {:induction false} ArrayTextOfTexts(parts: seq<string>)
    ensures ArrayText(seq(|parts|, i requires 0 <= i < |parts| => Some(parts[i]))) == Strings.Join(parts, ",")
    decreases |parts|
  {
    if |parts| >= 2 {
      var items := seq(|parts|, i requires 0 <= i < |parts| => Some(parts[i]));
      ArrayTextOfTexts(parts[1..]);
      assert items[1..] == seq(|parts[1..]|, i requires 0 <= i < |parts[1..]| => Some(parts[1..][i]));
    }
  }

  /** `notFound`: a NotFoundError naming the requested URL. */
  function NotFound(originalUrl: string): (e: Thrown)
    ensures e == NotFoundError(Some("Not Found \U{2013} " + originalUrl))
    ensures ErrorHandler(e) == Response(Http.NOT_FOUND, "Not Found \U{2013} " + originalUrl)
  {
    NotFoundError(Some("Not Found \U{2013} " + originalUrl))
  }

  /** The body `handleRateLimitError` sends with its status. */
  datatype RateLimitBody = RateLimitBody(status: int, kind: string, message: string)

  /** `handleRateLimitError`: 429 Too Many Requests (section 4 of RFC 6585) of type 'RateLimitError'. */
  function HandleRateLimitError(): (r: RateLimitBody)
    ensures r.status == Http.TOO_MANY_REQUESTS && r.status == 429 && r.kind == "RateLimitError"
  {
    RateLimitBody(Http.TOO_MANY_REQUESTS, "RateLimitError", "Too many requests, please try again later.")
  }
}
