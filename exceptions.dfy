/** The error taxonomy of the notes service: seven exception kinds, each with a
    class-level default message and HTTP status code, and a constructor that
    lets a caller override either default with a truthy argument. */
module Exceptions {

  /** The seven concrete exception classes. */
  datatype Kind =
    | AlreadyShared
    | CannotShareNoteToYourself
    | DocumentNotExists
    | ForbiddenAccess
    | IncorrectUsernameOrPassword
    | UnauthorizedAccess
    | UserAlreadyExists

  const BadRequest: int := 400
  const Unauthorized: int := 401
  const Forbidden: int := 403

  /** The text of a message is kept opaque: either the class default or a
      caller-supplied, non-empty string. */
  datatype Message = ClassDefault | Given(text: string)

  /** A raised exception: its class, its message and its status code. */
  datatype HttpException = HttpException(kind: Kind, message: Message, statusCode: int)

  /** The outcome of an operation that either yields a value or raises. */
  datatype Result<T> = Ok(value: T) | Err(error: HttpException)

  /** The outcome of a check that either passes or raises. */
  datatype Outcome = Pass | Fail(error: HttpException)

  /** The status code each exception class declares. */
  function DefaultStatus(k: Kind): (s: int)
    ensures s == Forbidden <==> k == ForbiddenAccess
    ensures s == Unauthorized <==> k == IncorrectUsernameOrPassword || k == UnauthorizedAccess
    ensures s == BadRequest <==> k in {AlreadyShared, CannotShareNoteToYourself, DocumentNotExists, UserAlreadyExists}
  {
    match k
    case AlreadyShared => BadRequest
    case CannotShareNoteToYourself => BadRequest
    case DocumentNotExists => BadRequest
    case ForbiddenAccess => Forbidden
    case IncorrectUsernameOrPassword => Unauthorized
    case UnauthorizedAccess => Unauthorized
    case UserAlreadyExists => BadRequest
  }

  /** Python truthiness of an optional string and of an optional status. */
  predicate TruthyText(s: Option<string>) { s.Some? && s.value != "" }
  predicate TruthyStatus(s: Option<int>) { s.Some? && s.value != 0 }

  datatype Option<T> = None | Some(value: T)

  /** `BaseHTTPException.__init__`: an argument replaces the class default
      only when it is supplied and truthy. */
  function Raise(k: Kind, message: Option<string>, statusCode: Option<int>): (e: HttpException)
    ensures e.kind == k
    ensures TruthyText(message) ==> e.message == Given(message.value)
    ensures !TruthyText(message) ==> e.message == ClassDefault
    ensures TruthyStatus(statusCode) ==> e.statusCode == statusCode.value
    ensures !TruthyStatus(statusCode) ==> e.statusCode == DefaultStatus(k)
    ensures e.message.Given? ==> e.message.text != ""
  {
    HttpException(k,
      if TruthyText(message) then Given(message.value) else ClassDefault,
      if TruthyStatus(statusCode) then statusCode.value else DefaultStatus(k))
  }

  /** The exception raised with no arguments, as most call sites do. */
  function Default(k: Kind): (e: HttpException)
    ensures e.kind == k && e.message == ClassDefault && e.statusCode == DefaultStatus(k)
  {
    Raise(k, None, None)
  }

  /** The message with which sharing reports a missing recipient. */
  const RecipientMissingMessage: string := "The user you are trying to share the note with doesn't exist."

  /** The recipient-specific DocumentNotExists overrides the message and keeps
      the class status. */
  function RecipientMissing(): (e: HttpException)
    ensures e.kind == DocumentNotExists
    ensures e.statusCode == BadRequest
    ensures e.message == Given(RecipientMissingMessage) && e.message != ClassDefault
  {
    Raise(DocumentNotExists, Some(RecipientMissingMessage), None)
  }

  /** Overriding only the message never changes the status code. */
  lemma MessageOverrideKeepsStatus(k: Kind, message: Option<string>)
    ensures Raise(k, message, None).statusCode == DefaultStatus(k)
    ensures Raise(k, message, None).statusCode == Raise(k, None, None).statusCode
  {
  }

  /** An empty message or a zero status behaves exactly like omitting it. */
  lemma FalsyArgumentsKeepDefaults(k: Kind)
    ensures Raise(k, Some(""), Some(0)) == Default(k)
    ensures Raise(k, Some(""), None) == Raise(k, None, None)
  {
  }
}
