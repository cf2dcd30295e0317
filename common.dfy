/** Shared vocabulary of the task manager: identifiers, instants, the status
    enumeration, the error taxonomy of the domain exception (message, code,
    HTTP status) and the repository calls that can fail. */
module Common {

  datatype Option<+T> = None | Some(value: T)

  /** A task identifier (a Guid in the system). 0 stands for Guid.Empty. */
  type Id = nat
  const EmptyId: Id := 0

  /** A point in time, UTC ticks. */
  type Instant = int

  datatype TaskStatus = Pending | InProgress | Completed

  /** The integer each status is declared with (Pending = 0, InProgress = 1, Completed = 2). */
  function StatusValue(s: TaskStatus): int
  {
    match s
    case Pending => 0
    case InProgress => 1
    case Completed => 2
  }

  /** The integers that name a declared status. */
  predicate StatusInRange(n: int)
  {
    0 <= n <= 2
  }

  /** The cast `(TaskStatus)n` the services apply to a request's status. */
  function StatusOf(n: int): (s: TaskStatus)
    requires StatusInRange(n)
    ensures StatusValue(s) == n
  {
    if n == 0 then Pending else if n == 1 then InProgress else Completed
  }

  lemma StatusRoundTrip(s: TaskStatus)
    ensures StatusInRange(StatusValue(s)) && StatusOf(StatusValue(s)) == s
  {
  }

  /** The HTTP statuses a domain exception carries in this system. */
  datatype HttpStatus = BadRequest | Unauthorized | NotFound | Conflict | InternalServerError
  {
    function Code(): int
    {
      match this
      case BadRequest => 400
      case Unauthorized => 401
      case NotFound => 404
      case Conflict => 409
      case InternalServerError => 500
    }
  }

  /** Machine-readable error codes. All but DatabaseSaveErrorCode are
      constants of ErrorCodes; DatabaseSaveErrorCode is the code the update
      service names but the constants file does not define, kept opaque. */
  datatype ErrorCode =
    | InternalServerErrorCode   // "INTERNAL_SERVER_ERROR"
    | NotFoundCode              // "NOT_FOUND"
    | UnauthorizedCode          // "UNAUTHORIZED"
    | ValidationErrorCode       // "VALIDATION_ERROR"
    | TitleAlreadyExistsCode    // "TASK_TITLE_ALREADY_EXISTS"
    | TaskNotFoundCode          // "TASK_NOT_FOUND"
    | DatabaseSaveErrorCode     // ErrorCodes.Database.SaveError

  /** Human-readable messages, as tags for the message constants. The
      validator's four come from the domain's ErrorMessages.Task, the rest
      from the application's Messages.Error. NotFoundMessage and
      TaskNotFoundMessage are two constants with the same text. */
  datatype Message =
    | EmptyTitle
    | TitleTooLong
    | EmptyDescription
    | PastDueDate
    | TitleAlreadyExists
    | NotFoundMessage
    | TaskNotFoundMessage
    | SaveError
    | DeleteError
    | QueryError

  /** The domain exception: message, code and HTTP status. */
  datatype ServiceError = ServiceError(status: HttpStatus, code: ErrorCode, message: Message)

  /** What a service operation returns instead of throwing. */
  datatype ServiceResult<+T> = Ok(value: T) | Err(error: ServiceError)

  /** The repository operations a service may call. */
  datatype RepoCall =
    | GetByIdCall
    | GetAllCall
    | TotalCountCall
    | ExistsByTitleCall
    | AddCall
    | UpdateCall
    | DeleteCall

  /** The repository calls that throw an underlying (non-domain) failure
      during one request. The repository rethrows them unchanged. */
  type Faults = set<RepoCall>
}

/** .NET's `char.IsWhiteSpace` and `string.IsNullOrWhiteSpace`, on which both
    FluentValidation's NotEmpty and the [Required] annotation rest. */
module Text {

  /** Unicode categories Zs, Zl and Zp, plus U+0009..U+000D and U+0085. */
  predicate IsWhiteSpace(c: char)
  {
    || c == ' '
    || ('\t' <= c <= '\r')
    || c == '\U{0085}'
    || c == '\U{00A0}'
    || c == '\U{1680}'
    || ('\U{2000}' <= c <= '\U{200A}')
    || c == '\U{2028}'
    || c == '\U{2029}'
    || c == '\U{202F}'
    || c == '\U{205F}'
    || c == '\U{3000}'
  }

  /** True of the empty string and of every string made only of white space. */
  predicate IsNullOrWhiteSpace(s: string)
  {
    forall i | 0 <= i < |s| :: IsWhiteSpace(s[i])
  }

  lemma BlankExamples()
    ensures IsNullOrWhiteSpace("")
    ensures IsNullOrWhiteSpace(" \t\n")
    ensures !IsNullOrWhiteSpace(" a ")
  {
    assert (" a ")[1] == 'a';
  }
}
