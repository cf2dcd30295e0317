/** The body of a create (or update) request and the constraints its
    annotations declare, checked by model validation before a service runs. */
module Requests {
  import opened Common
  import opened Text
  import opened Entities
  import opened Validation

  datatype TaskRequest = TaskRequest(
    title: string,
    description: Option<string>,
    dueDate: Instant,
    status: int)

  const MaxRequestTitleLength: nat := 200
  const MaxDescriptionLength: nat := 4000

  /** [Required] on a string: neither empty nor white space only. */
  predicate Required(s: string)
  {
    !IsNullOrWhiteSpace(s)
  }

  /** The request-level constraints: title required and at most 200
      characters, description optional and at most 4000 characters when
      present, status one of 0, 1, 2. The due date is always present. */
  predicate RequestWellFormed(r: TaskRequest)
  {
    && Required(r.title)
    && |r.title| <= MaxRequestTitleLength
    && (r.description.Some? ==> |r.description.value| <= MaxDescriptionLength)
    && StatusInRange(r.status)
  }

  /** `request.Description ?? string.Empty`. */
  function DescriptionOrEmpty(d: Option<string>): (s: string)
    ensures d.None? ==> s == ""
    ensures d.Some? ==> s == d.value
  {
    match d
    case None => ""
    case Some(text) => text
  }

  /** A well-formed request never fails the validator's title chain: the
      annotation and the rule agree on blankness and on the 200 limit. */
  lemma WellFormedTitlePassesTitleRule(r: TaskRequest, id: Id, now: Instant)
    requires RequestWellFormed(r)
    ensures var task := NewTask(id, now, r.title, DescriptionOrEmpty(r.description), r.dueDate, StatusOf(r.status));
      forall v :: v in Validate(task, now) ==> v.property != TitleProperty
  {
    var task := NewTask(id, now, r.title, DescriptionOrEmpty(r.description), r.dueDate, StatusOf(r.status));
    assert TitleRule(task.title) == [];
  }

  /** The annotations alone do not make a task valid: a well-formed request
      may omit its description, which the validator then rejects. */
  lemma WellFormedMayStillFailValidation(now: Instant)
    ensures RequestWellFormed(TaskRequest("Write spec", None, now + 1, 0))
    ensures Validate(NewTask(1, now, "Write spec", DescriptionOrEmpty(None), now + 1, Pending), now)
      == [Violation(DescriptionProperty, EmptyDescription)]
  {
    assert ("Write spec")[0] == 'W';
  }
}
