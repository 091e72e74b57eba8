/** The error taxonomy (`ApiError` and its factories) and the central error
    handler that turns anything thrown during a request into a status code and
    the `{errors: ...}` envelope. */
module Errors {
  import opened Common

  /** Field name to list of messages: `{username: ['has already been taken']}`. */
  type FieldLists = map<string, seq<string>>

  /** The `errors` argument of an `ApiError`. Controllers pass either nothing
      (the default `{}`) or an object whose `errors` member holds field lists. */
  datatype Payload = NoFieldErrors | WithFieldErrors(errors: FieldLists)

  datatype ApiError = ApiError(statusCode: nat, message: string, payload: Payload)

  /** One entry of a Sequelize validation or unique-constraint error. */
  datatype PathMessage = PathMessage(path: string, message: string)

  /** Anything a controller or middleware can throw: an `ApiError`, or an
      error raised by a library, known by its `name` and, for Sequelize errors,
      by its `errors` array (absent when the error carries no such array). */
  datatype Thrown =
    | Api(error: ApiError)
    | Library(name: string, items: Option<seq<PathMessage>>)

  /** The body `{errors: X}` of an error reply. */
  datatype ErrorBody =
    | FieldListBody(fields: FieldLists)
    | FieldMessageBody(messages: map<string, string>)
    | MessageBody(message: string)

  datatype ErrorReply = ErrorReply(status: nat, body: ErrorBody)

  // ---- Factories ----------------------------------------------------------

  function BadRequest(message: string, payload: Payload := NoFieldErrors): (e: ApiError)
    ensures e.statusCode == 400 && e.message == message && e.payload == payload
  {
    ApiError(400, message, payload)
  }

  function Unauthorized(message: string := "Unauthorized", payload: Payload := NoFieldErrors): (e: ApiError)
    ensures e.statusCode == 401 && e.message == message && e.payload == payload
  {
    ApiError(401, message, payload)
  }

  function Forbidden(message: string := "Forbidden", payload: Payload := NoFieldErrors): (e: ApiError)
    ensures e.statusCode == 403 && e.message == message && e.payload == payload
  {
    ApiError(403, message, payload)
  }

  function NotFound(message: string := "Not found", payload: Payload := NoFieldErrors): (e: ApiError)
    ensures e.statusCode == 404 && e.message == message && e.payload == payload
  {
    ApiError(404, message, payload)
  }

  /** The only factory without a message argument: always 422 'Validation error'. */
  function ValidationError(payload: Payload := NoFieldErrors): (e: ApiError)
    ensures e.statusCode == 422 && e.message == "Validation error" && e.payload == payload
  {
    ApiError(422, "Validation error", payload)
  }

  function Internal(message: string := "Internal server error", payload: Payload := NoFieldErrors): (e: ApiError)
    ensures e.statusCode == 500 && e.message == message && e.payload == payload
  {
    ApiError(500, message, payload)
  }

  /** The 422 error a controller raises for one field: `{errors: {field: [message]}}`. */
  function FieldError(field: string, message: string): (e: ApiError)
    ensures e.statusCode == 422
    ensures e.payload.WithFieldErrors? && e.payload.errors.Keys == {field}
    ensures e.payload.errors[field] == [message]
  {
    ValidationError(WithFieldErrors(map[field := [message]]))
  }

  // ---- The handler --------------------------------------------------------

  /** The `ApiError` branch: the status is the error's own, and the body is
      the payload's field lists when it has them, the message otherwise. */
  function ApiErrorReply(e: ApiError): (r: ErrorReply)
    ensures r.status == e.statusCode
    ensures e.payload.WithFieldErrors? ==> r.body == FieldListBody(e.payload.errors)
    ensures e.payload.NoFieldErrors? ==> r.body == MessageBody(e.message)
  {
    match e.payload
    case WithFieldErrors(fields) => ErrorReply(e.statusCode, FieldListBody(fields))
    case NoFieldErrors => ErrorReply(e.statusCode, MessageBody(e.message))
  }

  /** What the handler replies for each factory used with its defaults:
      the factory's status and its default message as `{errors: {message}}`,
      and for a validation error with field lists, those lists. */
  lemma FactoryReplies(message: string, fields: FieldLists)
    ensures ApiErrorReply(BadRequest(message)) == ErrorReply(400, MessageBody(message))
    ensures ApiErrorReply(Unauthorized()) == ErrorReply(401, MessageBody("Unauthorized"))
    ensures ApiErrorReply(Forbidden()) == ErrorReply(403, MessageBody("Forbidden"))
    ensures ApiErrorReply(NotFound()) == ErrorReply(404, MessageBody("Not found"))
    ensures ApiErrorReply(ValidationError()) == ErrorReply(422, MessageBody("Validation error"))
    ensures ApiErrorReply(Internal()) == ErrorReply(500, MessageBody("Internal server error"))
    ensures ApiErrorReply(ValidationError(WithFieldErrors(fields))) == ErrorReply(422, FieldListBody(fields))
  {
  }

  /** A one-field error thrown by a controller reaches the client as 422
      with exactly that field and that one message. */
  lemma FieldErrorReply(field: string, message: string)
    ensures ApiErrorReply(FieldError(field, message)) == ErrorReply(422, FieldListBody(map[field := [message]]))
  {
  }

  predicate IsSequelizeValidationName(name: string) {
    name == "SequelizeValidationError" || name == "SequelizeUniqueConstraintError"
  }

  /** Reference definition of the Sequelize branch's dictionary: every entry
      writes its message under its path, so a later entry overwrites an
      earlier one with the same path. */
  function LastWins(items: seq<PathMessage>): map<string, string>
  {
    if items == [] then map[]
    else LastWins(items[..|items| - 1])[items[|items| - 1].path := items[|items| - 1].message]
  }

  /** A path is a key of `LastWins` exactly when some entry has it. */
  lemma {:induction false} LastWinsKeys(items: seq<PathMessage>, p: string)
    ensures p in LastWins(items) <==> exists i :: 0 <= i < |items| && items[i].path == p
  {
    if items != [] {
      var init := items[..|items| - 1];
      LastWinsKeys(init, p);
      if p in LastWins(init) {
        var i :| 0 <= i < |init| && init[i].path == p;
        assert items[i].path == p;
      }
      if exists i :: 0 <= i < |items| && items[i].path == p {
        var i :| 0 <= i < |items| && items[i].path == p;
        if i < |init| { assert init[i].path == p; }
      }
    }
  }

  /** Each path maps to the message of the last entry that has it. */
  lemma {:induction false} LastWinsValue(items: seq<PathMessage>, i: nat)
    requires i < |items|
    requires forall j :: i < j < |items| ==> items[j].path != items[i].path
    ensures items[i].path in LastWins(items)
    ensures LastWins(items)[items[i].path] == items[i].message
  {
    if i < |items| - 1 {
      var init := items[..|items| - 1];
      assert init[i] == items[i];
      LastWinsValue(init, i);
    }
  }

  /** The `forEach` loop that fills `validationErrors` (one string per path). */
  method CollectPathMessages(items: seq<PathMessage>) returns (m: map<string, string>)
    ensures m == LastWins(items)
  {
    m := map[];
    var k := 0;
    while k < |items|
      invariant 0 <= k <= |items|
      invariant m == LastWins(items[..k])
    {
      assert items[..k + 1][..k] == items[..k];
      m := m[items[k].path := items[k].message];
      k := k + 1;
    }
    assert items[..|items|] == items;
  }

  /** The central handler: an `ApiError` replies with its own status; a
      Sequelize validation or unique-constraint error replies 422 with one
      message per path; anything else replies 500 'Internal server error'. */
  method ErrorHandler(err: Thrown) returns (r: ErrorReply)
    ensures err.Api? ==> r == ApiErrorReply(err.error)
    ensures err.Library? && IsSequelizeValidationName(err.name) ==>
              r.status == 422 &&
              r.body == FieldMessageBody(if err.items.Some? then LastWins(err.items.value) else map[])
    ensures err.Library? && !IsSequelizeValidationName(err.name) ==>
              r == ErrorReply(500, MessageBody("Internal server error"))
  {
    match err
    case Api(e) =>
      r := ApiErrorReply(e);
    case Library(name, items) =>
      if IsSequelizeValidationName(name) {
        var messages: map<string, string> := map[];
        if items.Some? {
          messages := CollectPathMessages(items.value);
        }
        r := ErrorReply(422, FieldMessageBody(messages));
      } else {
        r := ErrorReply(500, MessageBody("Internal server error"));
      }
  }
}
