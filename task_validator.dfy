/** The business rules on a task: three rule chains (title, description, due
    date), all evaluated, their violations listed in declaration order. */
module Validation {
  import opened Common
  import opened Text
  import opened Entities

  const MaxTitleLength: nat := 200

  /** FluentValidation's NotEmpty on a string. */
  predicate NotEmpty(s: string)
  {
    !IsNullOrWhiteSpace(s)
  }

  datatype Property = TitleProperty | DescriptionProperty | DueDateProperty

  datatype Violation = Violation(property: Property, message: Message)

  /** The title chain: NotEmpty, then MaximumLength(200). Under the default
      cascade mode both validators of the chain run. */
  function TitleRule(title: string): seq<Violation>
  {
    (if NotEmpty(title) then [] else [Violation(TitleProperty, EmptyTitle)])
    + (if |title| <= MaxTitleLength then [] else [Violation(TitleProperty, TitleTooLong)])
  }

  function DescriptionRule(description: string): seq<Violation>
  {
    if NotEmpty(description) then [] else [Violation(DescriptionProperty, EmptyDescription)]
  }

  /** GreaterThan(now): the due date must lie strictly after the reference
      instant. */
  function DueDateRule(dueDate: Instant, now: Instant): seq<Violation>
  {
    if dueDate > now then [] else [Violation(DueDateProperty, PastDueDate)]
  }

  /** TaskValidator.Validate. `now` is the instant DateTime.UtcNow had when
      the validator was built. An empty result means valid. */
  function Validate(task: TaskRecord, now: Instant): seq<Violation>
  {
    TitleRule(task.title) + DescriptionRule(task.description) + DueDateRule(task.dueDate, now)
  }

  /** The position of a rule in the validator's declarations. */
  function RuleOrder(v: Violation): nat
  {
    match v.message
    case EmptyTitle => 0
    case TitleTooLong => 1
    case EmptyDescription => 2
    case _ => 3
  }

  /** The message of the earliest rule that fails (only meaningful when one does). */
  function EarliestFailingRule(task: TaskRecord, now: Instant): Message
  {
    if !NotEmpty(task.title) then EmptyTitle
    else if |task.title| > MaxTitleLength then TitleTooLong
    else if !NotEmpty(task.description) then EmptyDescription
    else PastDueDate
  }

  /** A task is valid exactly when all four checks pass. */
  lemma ValidIffAllRulesHold(task: TaskRecord, now: Instant)
    ensures Validate(task, now) == [] <==>
      (NotEmpty(task.title) && |task.title| <= MaxTitleLength
       && NotEmpty(task.description) && task.dueDate > now)
  {
    var vs := Validate(task, now);
    if vs == [] {
      assert |TitleRule(task.title)| == 0;
      assert |DescriptionRule(task.description)| == 0;
      assert |DueDateRule(task.dueDate, now)| == 0;
    }
  }

  /** Each violation is reported exactly when its check fails. */
  lemma ViolationIffCheckFails(task: TaskRecord, now: Instant)
    ensures Violation(TitleProperty, EmptyTitle) in Validate(task, now) <==> !NotEmpty(task.title)
    ensures Violation(TitleProperty, TitleTooLong) in Validate(task, now) <==> |task.title| > MaxTitleLength
    ensures Violation(DescriptionProperty, EmptyDescription) in Validate(task, now) <==> !NotEmpty(task.description)
    ensures Violation(DueDateProperty, PastDueDate) in Validate(task, now) <==> task.dueDate <= now
  {
    var t, d, u := TitleRule(task.title), DescriptionRule(task.description), DueDateRule(task.dueDate, now);
    assert Validate(task, now) == t + d + u;
    assert forall v :: v in t + d + u <==> v in t || v in d || v in u;
  }

  /** Violations come in declaration order, each rule at most once. */
  lemma ViolationsInDeclarationOrder(task: TaskRecord, now: Instant)
    ensures forall i, j :: 0 <= i < j < |Validate(task, now)| ==>
      RuleOrder(Validate(task, now)[i]) < RuleOrder(Validate(task, now)[j])
  {
    var t, d, u := TitleRule(task.title), DescriptionRule(task.description), DueDateRule(task.dueDate, now);
    var vs := t + d + u;
    assert Validate(task, now) == vs;
    assert forall k :: 0 <= k < |t| ==> RuleOrder(t[k]) <= 1;
    assert |t| == 2 ==> RuleOrder(t[0]) == 0 && RuleOrder(t[1]) == 1;
    assert forall k :: 0 <= k < |d| ==> RuleOrder(d[k]) == 2;
    assert forall k :: 0 <= k < |u| ==> RuleOrder(u[k]) == 3;
    assert |d| <= 1 && |u| <= 1;
    forall i, j | 0 <= i < j < |vs|
      ensures RuleOrder(vs[i]) < RuleOrder(vs[j])
    {
      if j < |t| {
      } else if j < |t| + |d| {
        assert vs[j] == d[j - |t|];
        assert i < |t|;
        assert vs[i] == t[i];
      } else {
        assert vs[j] == u[j - |t| - |d|];
        if i < |t| { assert vs[i] == t[i]; } else { assert vs[i] == d[i - |t|]; }
      }
    }
  }

  /** The first violation, the one the services surface, is that of the
      earliest rule that fails. */
  lemma FirstViolationIsEarliestRule(task: TaskRecord, now: Instant)
    requires Validate(task, now) != []
    ensures Validate(task, now)[0].message == EarliestFailingRule(task, now)
  {
    var t, d, u := TitleRule(task.title), DescriptionRule(task.description), DueDateRule(task.dueDate, now);
    assert Validate(task, now) == t + d + u;
    if t == [] {
      assert (t + d + u)[0] == (d + u)[0];
    }
  }

  /** An empty title is reported as EmptyTitle only, without TitleTooLong. */
  lemma EmptyTitleOnlyEmptyTitle(task: TaskRecord, now: Instant)
    requires task.title == ""
    ensures Validate(task, now)[0] == Violation(TitleProperty, EmptyTitle)
    ensures forall i :: 1 <= i < |Validate(task, now)| ==> Validate(task, now)[i].property != TitleProperty
  {
    assert TitleRule(task.title) == [Violation(TitleProperty, EmptyTitle)];
  }

  /** A blank title over the length limit fails both validators of the title
      chain: the chain does not stop at its first failure. */
  lemma BlankLongTitleFailsBoth(task: TaskRecord, now: Instant)
    requires IsNullOrWhiteSpace(task.title) && |task.title| > MaxTitleLength
    ensures Validate(task, now)[..2] == [Violation(TitleProperty, EmptyTitle), Violation(TitleProperty, TitleTooLong)]
  {
    assert TitleRule(task.title) == [Violation(TitleProperty, EmptyTitle), Violation(TitleProperty, TitleTooLong)];
  }

  /** The length limit is inclusive: a non-blank title of exactly 200
      characters passes the title chain; one of 201 does not. */
  lemma TitleLengthBoundary(task: TaskRecord, now: Instant)
    requires NotEmpty(task.title)
    ensures |task.title| == 200 ==> forall v :: v in Validate(task, now) ==> v.property != TitleProperty
    ensures |task.title| == 201 ==> Validate(task, now)[0] == Violation(TitleProperty, TitleTooLong)
  {
    assert Validate(task, now) == TitleRule(task.title) + (DescriptionRule(task.description) + DueDateRule(task.dueDate, now));
  }

  /** A due date equal to the reference instant is already rejected. */
  lemma DueDateEqualToNowRejected(task: TaskRecord)
    ensures Violation(DueDateProperty, PastDueDate) in Validate(task, task.dueDate)
  {
    ViolationIffCheckFails(task, task.dueDate);
  }

  /** A task built by Create is not validated on construction: one whose
      every field breaks a rule can be built, and the validator reports all
      three chains against it. */
  lemma CreateAcceptsInvalidFields(id: Id, now: Instant)
    ensures Validate(NewTask(id, now, "", "", now - 1), now) ==
      [Violation(TitleProperty, EmptyTitle), Violation(DescriptionProperty, EmptyDescription),
       Violation(DueDateProperty, PastDueDate)]
  {
  }
}
