/** The error middleware: an exception that escapes the request pipeline is
    turned into a problem document (a classification by exception kind over
    fixed defaults, with a detail text built line by line) and the response
    takes the document's status. JSON serialisation and logging are not
    modelled. */
module ErrorHandling {
  import opened Common
  import opened Problems

  /** The exception kinds the middleware tells apart. */
  datatype ExceptionKind =
    | DomainException(code: ErrorCode, status: HttpStatus)   // CustomException
    | InvalidOperation                                        // InvalidOperationException
    | KeyNotFound                                             // KeyNotFoundException
    | UnauthorizedAccess                                      // UnauthorizedAccessException
    | OtherException                                          // anything else

  datatype InnerException = InnerException(message: string, stackTrace: string)

  /** An exception as the middleware sees it. A null stack trace is the
      empty string: appending either adds only a line break. */
  datatype ExceptionInfo = ExceptionInfo(
    kind: ExceptionKind,
    message: string,
    stackTrace: string,
    inner: Option<InnerException>)

  /** The `type` of every document the middleware writes: section 6.6.1 of
      RFC 7231, whatever the status. */
  const ServerErrorType := "https://tools.ietf.org/html/rfc7231#section-6.6.1"
  const ProblemJson := "application/problem+json"

  const DefaultTitle := "Erro interno do servidor"
  const ValidationTitle := "Erro de valida\U{00E7}\U{00E3}o"
  const NotFoundTitle := "Recurso n\U{00E3}o encontrado"
  const UnauthorizedTitle := "N\U{00E3}o autorizado"

  /** The text of the detail member. `newline` is Environment.NewLine, the
      terminator AppendLine writes. The stack trace, and the inner
      exception when there is one, follow only in development. */
  function ErrorDetail(ex: ExceptionInfo, isDevelopment: bool, newline: string): string
  {
    var head := ex.message + newline;
    if !isDevelopment then head
    else
      var withStack := head + newline + "Stack Trace:" + newline + ex.stackTrace + newline;
      match ex.inner
      case None => withStack
      case Some(inner) =>
        withStack + newline + "Inner Exception:" + newline + inner.message + newline + inner.stackTrace + newline
  }

  /** The document written for an exception on a request to `path`: the
      defaults (500, the generic title), overridden by the exception's kind. */
  function Problem(ex: ExceptionInfo, path: string, isDevelopment: bool, newline: string): ProblemDocument
  {
    var defaults := ProblemDocument(ServerErrorType, DefaultTitle, InternalServerError.Code(),
                                    ErrorDetail(ex, isDevelopment, newline), Some(path), map[]);
    match ex.kind
    case DomainException(code, status) =>
      defaults.(status := status.Code(), title := ex.message, extensions := map[ErrorCodeKey := code])
    case InvalidOperation =>
      defaults.(status := BadRequest.Code(), title := ValidationTitle, extensions := map[ErrorCodeKey := ValidationErrorCode])
    case KeyNotFound =>
      defaults.(status := NotFound.Code(), title := NotFoundTitle, extensions := map[ErrorCodeKey := NotFoundCode])
    case UnauthorizedAccess =>
      defaults.(status := Unauthorized.Code(), title := UnauthorizedTitle, extensions := map[ErrorCodeKey := UnauthorizedCode])
    case OtherException =>
      defaults.(extensions := map[ErrorCodeKey := InternalServerErrorCode])
  }

  /** The service layer's errors, raised as the domain exception. */
  function AsException(e: ServiceError, messageText: string, stackTrace: string): ExceptionInfo
  {
    ExceptionInfo(DomainException(e.code, e.status), messageText, stackTrace, None)
  }

  // ---- Properties of the decision table ------------------------------------

  /** A domain exception surfaces unchanged: its own status, its message as
      the title, its code as errorCode. */
  lemma DomainExceptionSurfacesUnchanged(ex: ExceptionInfo, path: string, isDevelopment: bool, newline: string)
    requires ex.kind.DomainException?
    ensures var d := Problem(ex, path, isDevelopment, newline);
      d.status == ex.kind.status.Code() && d.title == ex.message && d.extensions == map[ErrorCodeKey := ex.kind.code]
  {
  }

  /** The three built-in kinds and the fallback, each with its status, title
      and errorCode. */
  lemma BuiltInKinds(ex: ExceptionInfo, path: string, isDevelopment: bool, newline: string)
    ensures var d := Problem(ex, path, isDevelopment, newline);
      && (ex.kind.InvalidOperation? ==> d.status == 400 && d.title == ValidationTitle && d.extensions[ErrorCodeKey] == ValidationErrorCode)
      && (ex.kind.KeyNotFound? ==> d.status == 404 && d.title == NotFoundTitle && d.extensions[ErrorCodeKey] == NotFoundCode)
      && (ex.kind.UnauthorizedAccess? ==> d.status == 401 && d.title == UnauthorizedTitle && d.extensions[ErrorCodeKey] == UnauthorizedCode)
      && (ex.kind.OtherException? ==> d.status == 500 && d.title == DefaultTitle && d.extensions[ErrorCodeKey] == InternalServerErrorCode)
  {
  }

  /** Whatever the kind: type is the RFC 7231 server-error URI, instance is
      the request path, detail is the built text, and errorCode is the one
      extension. */
  lemma FixedMembers(ex: ExceptionInfo, path: string, isDevelopment: bool, newline: string)
    ensures var d := Problem(ex, path, isDevelopment, newline);
      && d.typeUri == ServerErrorType && d.instance == Some(path)
      && d.detail == ErrorDetail(ex, isDevelopment, newline)
      && d.extensions.Keys == {ErrorCodeKey}
  {
  }

  /** The generic title appears for the fallback only, or for a domain
      exception whose message is that title. */
  lemma DefaultTitleOnlyForFallback(ex: ExceptionInfo, path: string, isDevelopment: bool, newline: string)
    ensures Problem(ex, path, isDevelopment, newline).title == DefaultTitle <==>
      ex.kind.OtherException? || (ex.kind.DomainException? && ex.message == DefaultTitle)
  {
    assert ValidationTitle[5] != DefaultTitle[5];
    assert NotFoundTitle[0] != DefaultTitle[0];
    assert UnauthorizedTitle[0] != DefaultTitle[0];
  }

  /** A service error reaches the client with its status and its code. */
  lemma ServiceErrorReachesClient(e: ServiceError, messageText: string, stackTrace: string,
                                  path: string, isDevelopment: bool, newline: string)
    ensures var d := Problem(AsException(e, messageText, stackTrace), path, isDevelopment, newline);
      d.status == e.status.Code() && d.extensions[ErrorCodeKey] == e.code && d.title == messageText
  {
  }

  // ---- Properties of the detail text ---------------------------------------

  /** The detail always starts with the message line. */
  lemma DetailStartsWithMessage(ex: ExceptionInfo, isDevelopment: bool, newline: string)
    ensures ex.message + newline <= ErrorDetail(ex, isDevelopment, newline)
  {
    var head := ex.message + newline;
    var d := ErrorDetail(ex, isDevelopment, newline);
    if isDevelopment {
      var withStack := head + newline + "Stack Trace:" + newline + ex.stackTrace + newline;
      assert head <= withStack by {
        assert withStack == head + (newline + "Stack Trace:" + newline + ex.stackTrace + newline);
      }
      assert withStack <= d by {
        if ex.inner.Some? {
          var inner := ex.inner.value;
          assert d == withStack + (newline + "Inner Exception:" + newline + inner.message + newline + inner.stackTrace + newline);
        }
      }
    }
  }

  /** Outside development the detail is exactly the message line. */
  lemma ProductionDetailIsMessageLine(ex: ExceptionInfo, newline: string)
    ensures ErrorDetail(ex, false, newline) == ex.message + newline
  {
  }

  /** Development only adds text: the production detail is a prefix of the
      development one, a proper one whenever lines end in something. */
  lemma DevelopmentExtendsProduction(ex: ExceptionInfo, newline: string)
    ensures ErrorDetail(ex, false, newline) <= ErrorDetail(ex, true, newline)
    ensures newline != [] ==> |ErrorDetail(ex, false, newline)| < |ErrorDetail(ex, true, newline)|
  {
    DetailStartsWithMessage(ex, true, newline);
  }

  /** The inner-exception block is appended after the stack-trace block and
      only when there is an inner exception. */
  lemma InnerExceptionAppended(ex: ExceptionInfo, newline: string)
    ensures ErrorDetail(ex.(inner := None), true, newline) <= ErrorDetail(ex, true, newline)
    ensures ex.inner.Some? ==> |ErrorDetail(ex.(inner := None), true, newline)| < |ErrorDetail(ex, true, newline)|
  {
    var plain := ErrorDetail(ex.(inner := None), true, newline);
    if ex.inner.Some? {
      var inner := ex.inner.value;
      assert ErrorDetail(ex, true, newline) ==
        plain + (newline + "Inner Exception:" + newline + inner.message + newline + inner.stackTrace + newline);
    }
  }

  // ---- The middleware's imperative handler ---------------------------------

  /** The parts of the HTTP response the handler sets. */
  class HttpResponse {
    var statusCode: int
    var contentType: string

    constructor ()
      ensures statusCode == 200 && contentType == ""
    {
      statusCode := 200;
      contentType := "";
    }
  }

  /** The StringBuilder sequence of HandleExceptionAsync. */
  method BuildDetail(ex: ExceptionInfo, isDevelopment: bool, newline: string) returns (detail: string)
    ensures detail == ErrorDetail(ex, isDevelopment, newline)
  {
    detail := "";
    detail := detail + ex.message + newline;
    if isDevelopment {
      detail := detail + newline;
      detail := detail + "Stack Trace:" + newline;
      detail := detail + ex.stackTrace + newline;
      if ex.inner.Some? {
        detail := detail + newline;
        detail := detail + "Inner Exception:" + newline;
        detail := detail + ex.inner.value.message + newline;
        detail := detail + ex.inner.value.stackTrace + newline;
      }
    }
  }

  /** HandleExceptionAsync: sets the content type, builds the document from
      the defaults, overrides its members by exception kind, and copies the
      document's status to the response. */
  method HandleException(response: HttpResponse, ex: ExceptionInfo, path: string, isDevelopment: bool, newline: string)
    returns (problem: ProblemDetails)
    modifies response
    ensures fresh(problem)
    ensures problem.Snapshot() == Problem(ex, path, isDevelopment, newline)
    ensures response.statusCode == problem.status && response.contentType == ProblemJson
  {
    response.contentType := ProblemJson;
    var detail := BuildDetail(ex, isDevelopment, newline);
    problem := new ProblemDetails();
    problem.typeUri := ServerErrorType;
    problem.title := DefaultTitle;
    problem.status := InternalServerError.Code();
    problem.detail := detail;
    problem.instance := Some(path);
    match ex.kind {
      case DomainException(code, status) =>
        problem.status := status.Code();
        problem.title := ex.message;
        problem.extensions := problem.extensions[ErrorCodeKey := code];
      case InvalidOperation =>
        problem.status := BadRequest.Code();
        problem.title := ValidationTitle;
        problem.extensions := problem.extensions[ErrorCodeKey := ValidationErrorCode];
      case KeyNotFound =>
        problem.status := NotFound.Code();
        problem.title := NotFoundTitle;
        problem.extensions := problem.extensions[ErrorCodeKey := NotFoundCode];
      case UnauthorizedAccess =>
        problem.status := Unauthorized.Code();
        problem.title := UnauthorizedTitle;
        problem.extensions := problem.extensions[ErrorCodeKey := UnauthorizedCode];
      case OtherException =>
        problem.extensions := problem.extensions[ErrorCodeKey := InternalServerErrorCode];
    }
    response.statusCode := problem.status;
  }
}
