/** The problem document of RFC 7807 (Problem Details for HTTP APIs),
    section 3.1 members type, title, status, detail and instance, plus the
    extension members, as the API's own ProblemDetails class. */
module Problems {
  import opened Common

  /** The RFC 7807 default for `type`. */
  const AboutBlank := "about:blank"
  /** The one extension member the API writes. */
  const ErrorCodeKey := "errorCode"

  /** The members of a problem document as a value. */
  datatype ProblemDocument = ProblemDocument(
    typeUri: string,
    title: string,
    status: int,
    detail: string,
    instance: Option<string>,
    extensions: map<string, ErrorCode>)

  /** The document a default-constructed object holds. */
  const Blank := ProblemDocument(AboutBlank, "", 0, "", None, map[])

  /** What ProblemDetails.Create builds from its arguments. */
  function Created(title: string, detail: string, status: int, errorCode: Option<ErrorCode>,
                   instance: Option<string>, typeUri: Option<string>): (d: ProblemDocument)
    ensures d.title == title && d.detail == detail && d.status == status && d.instance == instance
    ensures d.typeUri == (if typeUri.Some? then typeUri.value else AboutBlank)
    ensures ErrorCodeKey in d.extensions <==> errorCode.Some?
    ensures errorCode.Some? ==> d.extensions[ErrorCodeKey] == errorCode.value
    ensures d.extensions.Keys <= {ErrorCodeKey}
  {
    var base := Blank.(title := title, detail := detail, status := status, instance := instance,
                       typeUri := if typeUri.Some? then typeUri.value else AboutBlank);
    if errorCode.Some? then base.(extensions := base.extensions[ErrorCodeKey := errorCode.value]) else base
  }

  /** With every optional argument left out, Create gives the default
      document with the three given members filled in. */
  lemma CreatedWithDefaults(title: string, detail: string, status: int)
    ensures Created(title, detail, status, None, None, None) == Blank.(title := title, detail := detail, status := status)
  {
  }

  class ProblemDetails {
    var typeUri: string
    var title: string
    var status: int
    var detail: string
    var instance: Option<string>
    var extensions: map<string, ErrorCode>

    function Snapshot(): ProblemDocument
      reads this
    {
      ProblemDocument(typeUri, title, status, detail, instance, extensions)
    }

    /** The property initialisers: type about:blank, empty title and detail,
        status 0, no instance, no extensions. */
    constructor ()
      ensures Snapshot() == Blank
    {
      typeUri := AboutBlank;
      title := "";
      status := 0;
      detail := "";
      instance := None;
      extensions := map[];
    }

    /** ProblemDetails.Create: the object initialiser, then the errorCode
        extension only when a code is given. */
    static method Create(title: string, detail: string, status: int, errorCode: Option<ErrorCode> := None,
                         instance: Option<string> := None, typeUri: Option<string> := None)
      returns (p: ProblemDetails)
      ensures fresh(p)
      ensures p.Snapshot() == Created(title, detail, status, errorCode, instance, typeUri)
    {
      p := new ProblemDetails();
      p.title := title;
      p.detail := detail;
      p.status := status;
      p.instance := instance;
      p.typeUri := if typeUri.Some? then typeUri.value else AboutBlank;
      if errorCode.Some? {
        p.extensions := p.extensions[ErrorCodeKey := errorCode.value];
      }
    }
  }
}
