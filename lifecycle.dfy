/** The five service operations as transitions of the task table: each takes
    the table before the request and gives the result and the table after it.
    The service classes are proved to perform exactly these transitions. */
module Lifecycle {
  import opened Common
  import opened Entities
  import opened Validation
  import opened Requests
  import opened Repository
  import opened Responses

  /** The result of one request and the table it leaves behind. */
  datatype Outcome<+T> = Outcome(result: ServiceResult<T>, after: Table)

  const DuplicateTitle := ServiceError(Conflict, TitleAlreadyExistsCode, TitleAlreadyExists)
  const CreateFailure := ServiceError(InternalServerError, InternalServerErrorCode, SaveError)
  const UpdateFailure := ServiceError(InternalServerError, DatabaseSaveErrorCode, SaveError)
  const DeleteFailure := ServiceError(InternalServerError, InternalServerErrorCode, DeleteError)
  const QueryFailure := ServiceError(InternalServerError, InternalServerErrorCode, QueryError)

  function TaskNotFound(message: Message): ServiceError
  {
    ServiceError(NotFound, TaskNotFoundCode, message)
  }

  /** A validation failure surfaces the first violation's message. */
  function ValidationFailure(violations: seq<Violation>): ServiceError
    requires violations != []
  {
    ServiceError(BadRequest, ValidationErrorCode, violations[0].message)
  }

  const DefaultSkip: int := 0
  const DefaultTake: int := 10

  /** The row the create service builds from a request. */
  function Candidate(request: TaskRequest, newId: Id, now: Instant): TaskRecord
    requires StatusInRange(request.status)
  {
    NewTask(newId, now, request.title, DescriptionOrEmpty(request.description), request.dueDate, StatusOf(request.status))
  }

  /** The row the update service writes back for a request. */
  function Edited(current: TaskRecord, request: TaskRequest): TaskRecord
    requires StatusInRange(request.status)
  {
    Updated(current, request.title, DescriptionOrEmpty(request.description), request.dueDate, StatusOf(request.status))
  }

  /** CreateTaskService: title check, construction, validation, insert. */
  function CreateTask(t: Table, request: TaskRequest, newId: Id, now: Instant, faults: Faults): Outcome<TaskResponse>
    requires StatusInRange(request.status)
  {
    if ExistsByTitleCall in faults then Outcome(Err(CreateFailure), t)
    else if ExistsByTitle(t, request.title) then Outcome(Err(DuplicateTitle), t)
    else
      var task := Candidate(request, newId, now);
      var violations := Validate(task, now);
      if violations != [] then Outcome(Err(ValidationFailure(violations)), t)
      else if AddCall in faults || newId in t then Outcome(Err(CreateFailure), t)
      else Outcome(Ok(ToResponse(task)), t[newId := task])
  }

  /** UpdateTaskService: lookup, conflict rule, in-place update, validation, write-back. */
  function UpdateTask(t: Table, id: Id, request: TaskRequest, now: Instant, faults: Faults): Outcome<TaskResponse>
    requires StatusInRange(request.status)
  {
    if GetByIdCall in faults then Outcome(Err(UpdateFailure), t)
    else if id !in t then Outcome(Err(TaskNotFound(NotFoundMessage)), t)
    else if ExistsByTitleCall in faults then Outcome(Err(UpdateFailure), t)
    else if ExistsByTitle(t, request.title) && t[id].title != request.title then Outcome(Err(DuplicateTitle), t)
    else
      var task := Edited(t[id], request);
      var violations := Validate(task, now);
      if violations != [] then Outcome(Err(ValidationFailure(violations)), t)
      else if UpdateCall in faults then Outcome(Err(UpdateFailure), t)
      else Outcome(Ok(ToResponse(task)), t[id := task])
  }

  /** DeleteTaskService: lookup, then remove. */
  function DeleteTask(t: Table, id: Id, faults: Faults): Outcome<()>
  {
    if GetByIdCall in faults then Outcome(Err(DeleteFailure), t)
    else if id !in t then Outcome(Err(TaskNotFound(NotFoundMessage)), t)
    else if DeleteCall in faults then Outcome(Err(DeleteFailure), t)
    else Outcome(Ok(()), t - {id})
  }

  /** GetTaskByIdService: a read-only lookup. */
  function GetTaskById(t: Table, id: Id, faults: Faults): (r: ServiceResult<TaskResponse>)
    ensures r.Ok? <==> GetByIdCall !in faults && id in t
    ensures r.Ok? ==> r.value == ToResponse(t[id])
    ensures r.Err? ==> r.error == if GetByIdCall in faults then QueryFailure else TaskNotFound(TaskNotFoundMessage)
  {
    if GetByIdCall in faults then Err(QueryFailure)
    else match Find(t, id)
      case None => Err(TaskNotFound(TaskNotFoundMessage))
      case Some(task) => Ok(ToResponse(task))
  }

  /** GetAllTasksService: the page, then the total, then the echoed paging arguments. */
  function GetAllTasks(t: Table, faults: Faults, skip: int := DefaultSkip, take: int := DefaultTake): ServiceResult<TaskListResponse>
  {
    if GetAllCall in faults then Err(QueryFailure)
    else
      var tasks := Page(t, skip, take);
      if TotalCountCall in faults then Err(QueryFailure)
      else Ok(TaskListResponse(ProjectAll(tasks), TotalCount(t), skip, take))
  }

  /** The invariant of the table: rows keyed by their ids, titles unique. */
  ghost predicate Consistent(t: Table)
  {
    Keyed(t) && TitlesUnique(t)
  }

  // ---- Create -------------------------------------------------------------

  /** A duplicate title is a conflict whatever the other fields are, and
      nothing is written. */
  lemma CreateDuplicateIsConflict(t: Table, request: TaskRequest, newId: Id, now: Instant, faults: Faults)
    requires StatusInRange(request.status)
    requires ExistsByTitleCall !in faults
    ensures var o := CreateTask(t, request, newId, now, faults);
      (o.result == Err(DuplicateTitle) <==> exists k :: k in t && t[k].title == request.title)
      && (o.result == Err(DuplicateTitle) ==> o.after == t)
  {
  }

  /** Validation failure: a BadRequest with the first violation's message and
      the validation code, and no insert. */
  lemma CreateInvalidIsBadRequest(t: Table, request: TaskRequest, newId: Id, now: Instant, faults: Faults)
    requires StatusInRange(request.status)
    requires ExistsByTitleCall !in faults && !ExistsByTitle(t, request.title)
    requires Validate(Candidate(request, newId, now), now) != []
    ensures var o := CreateTask(t, request, newId, now, faults);
      && o.result == Err(ServiceError(BadRequest, ValidationErrorCode, EarliestFailingRule(Candidate(request, newId, now), now)))
      && o.after == t
  {
    FirstViolationIsEarliestRule(Candidate(request, newId, now), now);
  }

  /** Without a description a request never creates anything; once the title
      check and the title rule pass, the answer is EmptyDescription. */
  lemma CreateWithoutDescriptionFails(t: Table, request: TaskRequest, newId: Id, now: Instant, faults: Faults)
    requires StatusInRange(request.status) && request.description.None?
    ensures CreateTask(t, request, newId, now, faults).result.Err?
    ensures CreateTask(t, request, newId, now, faults).after == t
    ensures (ExistsByTitleCall !in faults && !ExistsByTitle(t, request.title)
             && NotEmpty(request.title) && |request.title| <= MaxTitleLength) ==>
      CreateTask(t, request, newId, now, faults).result == Err(ServiceError(BadRequest, ValidationErrorCode, EmptyDescription))
  {
    var task := Candidate(request, newId, now);
    assert task.description == "";
    ViolationIffCheckFails(task, now);
    if ExistsByTitleCall !in faults && !ExistsByTitle(t, request.title) {
      FirstViolationIsEarliestRule(task, now);
    }
  }

  /** Success: exactly one row is added, under the fresh id, carrying the
      request's fields; every earlier row is unchanged; the response is that
      row. */
  lemma CreateSuccessAddsOneRow(t: Table, request: TaskRequest, newId: Id, now: Instant, faults: Faults)
    requires StatusInRange(request.status)
    requires CreateTask(t, request, newId, now, faults).result.Ok?
    ensures var o := CreateTask(t, request, newId, now, faults);
      && newId !in t && o.after.Keys == t.Keys + {newId} && |o.after| == |t| + 1
      && (forall k :: k in t ==> o.after[k] == t[k])
      && o.after[newId] == Candidate(request, newId, now)
      && o.result.value.id == newId && o.result.value.title == request.title
      && o.result.value.description == DescriptionOrEmpty(request.description)
      && o.result.value.dueDate == request.dueDate && StatusValue(o.result.value.status) == request.status
  {
    var task := Candidate(request, newId, now);
    assert ExistsByTitleCall !in faults && !ExistsByTitle(t, request.title);
    assert Validate(task, now) == [] && AddCall !in faults && newId !in t;
    var o := CreateTask(t, request, newId, now, faults);
    assert o == Outcome(Ok(ToResponse(task)), t[newId := task]);
    assert o.after.Keys == t.Keys + {newId};
  }

  /** A create succeeds exactly when no call it makes fails, the title is
      new, all four rules hold, and the fresh id is not taken. */
  lemma CreateSucceedsIff(t: Table, request: TaskRequest, newId: Id, now: Instant, faults: Faults)
    requires StatusInRange(request.status)
    ensures CreateTask(t, request, newId, now, faults).result.Ok? <==>
      && ExistsByTitleCall !in faults && AddCall !in faults
      && !(exists k :: k in t && t[k].title == request.title)
      && NotEmpty(request.title) && |request.title| <= MaxTitleLength
      && NotEmpty(DescriptionOrEmpty(request.description)) && request.dueDate > now
      && newId !in t
  {
    ValidIffAllRulesHold(Candidate(request, newId, now), now);
  }

  /** The table is consistent after a create whenever it was before. */
  lemma CreatePreservesConsistency(t: Table, request: TaskRequest, newId: Id, now: Instant, faults: Faults)
    requires StatusInRange(request.status) && Consistent(t)
    ensures Consistent(CreateTask(t, request, newId, now, faults).after)
  {
    var o := CreateTask(t, request, newId, now, faults);
    if o.result.Ok? {
      var task := Candidate(request, newId, now);
      assert o.after == t[newId := task];
      assert !ExistsByTitle(t, request.title);
      forall a, b | a in o.after && b in o.after && a != b
        ensures o.after[a].title != o.after[b].title
      {
        if a == newId {
          assert b in t;
        } else if b == newId {
          assert a in t;
        }
      }
    }
  }

  // ---- Update -------------------------------------------------------------

  /** An unknown id is NotFound; no title check and no write happen, so the
      result does not depend on those calls failing. */
  lemma UpdateUnknownIsNotFound(t: Table, id: Id, request: TaskRequest, now: Instant, faults: Faults)
    requires StatusInRange(request.status) && GetByIdCall !in faults && id !in t
    ensures UpdateTask(t, id, request, now, faults) == Outcome(Err(TaskNotFound(NotFoundMessage)), t)
    ensures UpdateTask(t, id, request, now, faults) == UpdateTask(t, id, request, now, {GetByIdCall} * faults)
  {
  }

  /** Conflict exactly when some row has the requested title and the target's
      current title differs from it. */
  lemma UpdateConflictIff(t: Table, id: Id, request: TaskRequest, now: Instant, faults: Faults)
    requires StatusInRange(request.status)
    requires GetByIdCall !in faults && ExistsByTitleCall !in faults && id in t
    ensures UpdateTask(t, id, request, now, faults).result == Err(DuplicateTitle) <==>
      (exists k :: k in t && t[k].title == request.title) && t[id].title != request.title
  {
    var o := UpdateTask(t, id, request, now, faults);
    if !((exists k :: k in t && t[k].title == request.title) && t[id].title != request.title) {
      var task := Edited(t[id], request);
      if Validate(task, now) != [] {
        assert o.result == Err(ValidationFailure(Validate(task, now)));
        assert ValidationFailure(Validate(task, now)).status == BadRequest;
      }
    }
  }

  /** Keeping the task's own title never conflicts. */
  lemma UpdateOwnTitleNeverConflicts(t: Table, id: Id, request: TaskRequest, now: Instant, faults: Faults)
    requires StatusInRange(request.status) && id in t && request.title == t[id].title
    ensures UpdateTask(t, id, request, now, faults).result != Err(DuplicateTitle)
  {
    var task := Edited(t[id], request);
    if Validate(task, now) != [] {
      assert ValidationFailure(Validate(task, now)).status == BadRequest;
    }
  }

  /** A validation failure after the in-place update is a BadRequest naming the
      earliest failing rule, and the stored row is left as it was. */
  lemma UpdateInvalidLeavesTable(t: Table, id: Id, request: TaskRequest, now: Instant, faults: Faults)
    requires StatusInRange(request.status)
    requires GetByIdCall !in faults && ExistsByTitleCall !in faults && id in t
    requires !(ExistsByTitle(t, request.title) && t[id].title != request.title)
    requires Validate(Edited(t[id], request), now) != []
    ensures var o := UpdateTask(t, id, request, now, faults);
      && o.result == Err(ServiceError(BadRequest, ValidationErrorCode, EarliestFailingRule(Edited(t[id], request), now)))
      && o.after == t
  {
    FirstViolationIsEarliestRule(Edited(t[id], request), now);
  }

  /** A past due date on an otherwise valid update reports PastDueDate. */
  lemma UpdatePastDueDate(t: Table, id: Id, request: TaskRequest, now: Instant, faults: Faults)
    requires StatusInRange(request.status)
    requires GetByIdCall !in faults && ExistsByTitleCall !in faults && id in t
    requires !(ExistsByTitle(t, request.title) && t[id].title != request.title)
    requires NotEmpty(request.title) && |request.title| <= MaxTitleLength
    requires NotEmpty(DescriptionOrEmpty(request.description)) && request.dueDate <= now
    ensures UpdateTask(t, id, request, now, faults) ==
      Outcome(Err(ServiceError(BadRequest, ValidationErrorCode, PastDueDate)), t)
  {
    ViolationIffCheckFails(Edited(t[id], request), now);
    UpdateInvalidLeavesTable(t, id, request, now, faults);
  }

  /** Success: exactly the target row is replaced by the request's fields,
      keeping its id and creation time; all other rows are unchanged. */
  lemma UpdateSuccessReplacesTarget(t: Table, id: Id, request: TaskRequest, now: Instant, faults: Faults)
    requires StatusInRange(request.status) && Keyed(t)
    requires UpdateTask(t, id, request, now, faults).result.Ok?
    ensures var o := UpdateTask(t, id, request, now, faults);
      && id in t && o.after.Keys == t.Keys
      && (forall k :: k in t && k != id ==> o.after[k] == t[k])
      && o.after[id].id == id && o.after[id].createdAt == t[id].createdAt
      && o.after[id].title == request.title && o.after[id].description == DescriptionOrEmpty(request.description)
      && o.after[id].dueDate == request.dueDate && StatusValue(o.after[id].status) == request.status
      && o.result.value == ToResponse(o.after[id])
  {
  }

  /** An update succeeds exactly when no call it makes fails, the id is
      stored, the title is the task's own or new, and all four rules hold
      for the edited row. */
  lemma UpdateSucceedsIff(t: Table, id: Id, request: TaskRequest, now: Instant, faults: Faults)
    requires StatusInRange(request.status)
    ensures UpdateTask(t, id, request, now, faults).result.Ok? <==>
      && GetByIdCall !in faults && ExistsByTitleCall !in faults && UpdateCall !in faults
      && id in t
      && (t[id].title == request.title || !(exists k :: k in t && t[k].title == request.title))
      && NotEmpty(request.title) && |request.title| <= MaxTitleLength
      && NotEmpty(DescriptionOrEmpty(request.description)) && request.dueDate > now
  {
    if id in t {
      ValidIffAllRulesHold(Edited(t[id], request), now);
    }
  }

  lemma UpdatePreservesConsistency(t: Table, id: Id, request: TaskRequest, now: Instant, faults: Faults)
    requires StatusInRange(request.status) && Consistent(t)
    ensures Consistent(UpdateTask(t, id, request, now, faults).after)
  {
    var o := UpdateTask(t, id, request, now, faults);
    if o.result.Ok? {
      var task := Edited(t[id], request);
      assert o.after == t[id := task];
      forall a, b | a in o.after && b in o.after && a != b
        ensures o.after[a].title != o.after[b].title
      {
        if a == id || b == id {
          var other := if a == id then b else a;
          assert other in t && other != id;
          if request.title == t[id].title {
            assert t[other].title != t[id].title;
          } else {
            assert !ExistsByTitle(t, request.title);
          }
        }
      }
    }
  }

  // ---- Delete -------------------------------------------------------------

  lemma DeleteUnknownIsNotFound(t: Table, id: Id, faults: Faults)
    requires GetByIdCall !in faults && id !in t
    ensures DeleteTask(t, id, faults) == Outcome(Err(TaskNotFound(NotFoundMessage)), t)
  {
  }

  /** Success removes exactly the fetched row: the id is gone and every other
      row is unchanged. */
  lemma DeleteSuccessRemovesOnlyTarget(t: Table, id: Id, faults: Faults)
    requires DeleteTask(t, id, faults).result.Ok?
    ensures var after := DeleteTask(t, id, faults).after;
      && id in t && id !in after && after.Keys == t.Keys - {id} && |after| == |t| - 1
      && (forall k :: k in after ==> after[k] == t[k])
  {
    RemoveKeyCardinality(t, id);
  }

  /** A delete succeeds exactly when neither the fetch nor the removal
      throws and the id is stored; the stored row is then removed. */
  lemma DeleteSucceedsIff(t: Table, id: Id, faults: Faults)
    ensures DeleteTask(t, id, faults).result.Ok? <==> GetByIdCall !in faults && DeleteCall !in faults && id in t
    ensures DeleteTask(t, id, faults).result.Ok? ==> DeleteTask(t, id, faults).after == t - {id}
  {
  }

  lemma DeletePreservesConsistency(t: Table, id: Id, faults: Faults)
    requires Consistent(t)
    ensures Consistent(DeleteTask(t, id, faults).after)
  {
  }

  // ---- Reads --------------------------------------------------------------

  /** The list echoes skip and take, reports the full count whatever the
      paging, and projects the page field for field in order. */
  lemma GetAllTasksContents(t: Table, faults: Faults, skip: int, take: int)
    requires GetAllCall !in faults && TotalCountCall !in faults
    ensures var r := GetAllTasks(t, faults, skip, take);
      && r.Ok? && r.value.skip == skip && r.value.take == take && r.value.total == |t|
      && |r.value.items| == |Page(t, skip, take)|
      && (forall i :: 0 <= i < |r.value.items| ==> r.value.items[i] == ToResponse(Page(t, skip, take)[i]))
  {
  }

  /** A failing page read is a query error whether or not the count would
      have failed: the count is never asked for. */
  lemma GetAllPageFailureSkipsCount(t: Table, faults: Faults, skip: int, take: int)
    requires GetAllCall in faults
    ensures GetAllTasks(t, faults, skip, take) == Err(QueryFailure)
    ensures GetAllTasks(t, faults, skip, take) == GetAllTasks(t, faults - {TotalCountCall}, skip, take)
  {
  }

  /** With the defaults, the list is the (up to) ten newest tasks. */
  lemma GetAllDefaults(t: Table)
    ensures var r := GetAllTasks(t, {});
      && r.Ok? && r.value.skip == 0 && r.value.take == 10 && r.value.total == |t|
      && |r.value.items| == (if |t| < 10 then |t| else 10)
  {
  }

  /** An empty store lists nothing and counts zero. */
  lemma GetAllEmptyStore(skip: int, take: int)
    ensures GetAllTasks(map[], {}, skip, take) == Ok(TaskListResponse([], 0, skip, take))
  {
    EmptyTablePage(skip, take);
  }

  /** The errors each operation can answer with, by HTTP status. */
  lemma ErrorStatusesPerOperation(t: Table, id: Id, request: TaskRequest, newId: Id, now: Instant,
                                  faults: Faults, skip: int, take: int)
    requires StatusInRange(request.status)
    ensures CreateTask(t, request, newId, now, faults).result.Err? ==>
      CreateTask(t, request, newId, now, faults).result.error.status in {Conflict, BadRequest, InternalServerError}
    ensures UpdateTask(t, id, request, now, faults).result.Err? ==>
      UpdateTask(t, id, request, now, faults).result.error.status in {NotFound, Conflict, BadRequest, InternalServerError}
    ensures DeleteTask(t, id, faults).result.Err? ==>
      DeleteTask(t, id, faults).result.error.status in {NotFound, InternalServerError}
    ensures GetTaskById(t, id, faults).Err? ==> GetTaskById(t, id, faults).error.status in {NotFound, InternalServerError}
    ensures GetAllTasks(t, faults, skip, take).Err? ==>
      GetAllTasks(t, faults, skip, take).error == QueryFailure
  {
    var c := Validate(Candidate(request, newId, now), now);
    if c != [] { assert ValidationFailure(c).status == BadRequest; }
    if id in t {
      var u := Validate(Edited(t[id], request), now);
      if u != [] { assert ValidationFailure(u).status == BadRequest; }
    }
  }

  /** How each writing service wraps a failing repository call: a 500 is
      always that service's own failure (create: SaveError with
      INTERNAL_SERVER_ERROR; update: SaveError with the database save code;
      delete: DeleteError with INTERNAL_SERVER_ERROR). A throwing title check
      is wrapped too, since it runs inside the same try. */
  lemma RepositoryFailuresWrapped(t: Table, id: Id, request: TaskRequest, newId: Id, now: Instant, faults: Faults)
    requires StatusInRange(request.status)
    ensures var r := CreateTask(t, request, newId, now, faults).result;
      r.Err? && r.error.status == InternalServerError ==> r.error == CreateFailure
    ensures var r := UpdateTask(t, id, request, now, faults).result;
      r.Err? && r.error.status == InternalServerError ==> r.error == UpdateFailure
    ensures var r := DeleteTask(t, id, faults).result;
      r.Err? && r.error.status == InternalServerError ==> r.error == DeleteFailure
    ensures ExistsByTitleCall in faults ==> CreateTask(t, request, newId, now, faults) == Outcome(Err(CreateFailure), t)
    ensures AddCall in faults ==> CreateTask(t, request, newId, now, faults).result != Ok(ToResponse(Candidate(request, newId, now)))
    ensures GetByIdCall in faults ==> UpdateTask(t, id, request, now, faults) == Outcome(Err(UpdateFailure), t)
    ensures GetByIdCall in faults ==> DeleteTask(t, id, faults) == Outcome(Err(DeleteFailure), t)
    ensures UpdateFailure.code != CreateFailure.code && UpdateFailure.message == CreateFailure.message
  {
    var c := Validate(Candidate(request, newId, now), now);
    if c != [] { assert ValidationFailure(c).status == BadRequest; }
    if id in t {
      var u := Validate(Edited(t[id], request), now);
      if u != [] { assert ValidationFailure(u).status == BadRequest; }
    }
  }

  /** A failing create writes nothing; once the title check and validation
      have passed, a throwing AddAsync (or a taken key) gives CreateFailure. */
  lemma CreateFailureWritesNothing(t: Table, request: TaskRequest, newId: Id, now: Instant, faults: Faults)
    requires StatusInRange(request.status)
    ensures CreateTask(t, request, newId, now, faults).result.Err? ==> CreateTask(t, request, newId, now, faults).after == t
    ensures && ExistsByTitleCall !in faults && !ExistsByTitle(t, request.title)
            && Validate(Candidate(request, newId, now), now) == []
            && (AddCall in faults || newId in t)
      ==> CreateTask(t, request, newId, now, faults) == Outcome(Err(CreateFailure), t)
  {
  }

  /** A failing update writes nothing, a conflict included; once the fetch,
      the title rule and validation have passed, a throwing UpdateAsync gives
      UpdateFailure. */
  lemma UpdateFailureWritesNothing(t: Table, id: Id, request: TaskRequest, now: Instant, faults: Faults)
    requires StatusInRange(request.status)
    ensures UpdateTask(t, id, request, now, faults).result.Err? ==> UpdateTask(t, id, request, now, faults).after == t
    ensures && GetByIdCall !in faults && ExistsByTitleCall !in faults && id in t
            && !(ExistsByTitle(t, request.title) && t[id].title != request.title)
            && Validate(Edited(t[id], request), now) == []
            && UpdateCall in faults
      ==> UpdateTask(t, id, request, now, faults) == Outcome(Err(UpdateFailure), t)
  {
  }

  /** A failing delete writes nothing; a stored id whose removal throws gives
      DeleteFailure. */
  lemma DeleteFailureWritesNothing(t: Table, id: Id, faults: Faults)
    ensures DeleteTask(t, id, faults).result.Err? ==> DeleteTask(t, id, faults).after == t
    ensures GetByIdCall !in faults && id in t && DeleteCall in faults
      ==> DeleteTask(t, id, faults) == Outcome(Err(DeleteFailure), t)
  {
  }

  // ---- Sequential runs ----------------------------------------------------

  /** One request to the service layer. */
  datatype Command =
    | CreateCmd(request: TaskRequest, newId: Id, now: Instant, faults: Faults)
    | UpdateCmd(id: Id, request: TaskRequest, now: Instant, faults: Faults)
    | DeleteCmd(id: Id, faults: Faults)
    | GetByIdCmd(id: Id, faults: Faults)
    | GetAllCmd(skip: int, take: int, faults: Faults)

  /** Requests as they reach the services: statuses already in range. */
  predicate Admissible(c: Command)
  {
    match c
    case CreateCmd(request, _, _, _) => StatusInRange(request.status)
    case UpdateCmd(_, request, _, _) => StatusInRange(request.status)
    case _ => true
  }

  function Step(t: Table, c: Command): Table
    requires Admissible(c)
  {
    match c
    case CreateCmd(request, newId, now, faults) => CreateTask(t, request, newId, now, faults).after
    case UpdateCmd(id, request, now, faults) => UpdateTask(t, id, request, now, faults).after
    case DeleteCmd(id, faults) => DeleteTask(t, id, faults).after
    case GetByIdCmd(_, _) => t
    case GetAllCmd(_, _, _) => t
  }

  /** The table after the requests, applied one after another. */
  function Run(t: Table, cs: seq<Command>): Table
    requires forall i :: 0 <= i < |cs| ==> Admissible(cs[i])
    decreases |cs|
  {
    if cs == [] then t else Run(Step(t, cs[0]), cs[1..])
  }

  lemma StepPreservesConsistency(t: Table, c: Command)
    requires Admissible(c) && Consistent(t)
    ensures Consistent(Step(t, c))
  {
    match c
    case CreateCmd(request, newId, now, faults) => CreatePreservesConsistency(t, request, newId, now, faults);
    case UpdateCmd(id, request, now, faults) => UpdatePreservesConsistency(t, id, request, now, faults);
    case DeleteCmd(id, faults) => DeletePreservesConsistency(t, id, faults);
    case GetByIdCmd(_, _) =>
    case GetAllCmd(_, _, _) =>
  }

  /** Titles stay unique (and rows keyed by their ids) across any sequence of
      requests applied one at a time. */
  lemma {:induction false} RunPreservesConsistency(t: Table, cs: seq<Command>)
    requires forall i :: 0 <= i < |cs| ==> Admissible(cs[i])
    requires Consistent(t)
    ensures Consistent(Run(t, cs))
    decreases |cs|
  {
    if cs != [] {
      StepPreservesConsistency(t, cs[0]);
      RunPreservesConsistency(Step(t, cs[0]), cs[1..]);
    }
  }

  /** Example: creating "Write spec" twice. The first create succeeds with
      status Pending; the second is a conflict and changes nothing. */
  lemma DuplicateCreateExample(now: Instant)
    ensures var request := TaskRequest("Write spec", Some("draft"), now + 1, 0);
      var first := CreateTask(map[], request, 1, now, {});
      && first.result.Ok? && first.result.value.status == Pending
      && CreateTask(first.after, request, 2, now, {}) == Outcome(Err(DuplicateTitle), first.after)
  {
    var request := TaskRequest("Write spec", Some("draft"), now + 1, 0);
    var task := Candidate(request, 1, now);
    assert ("Write spec")[0] == 'W' && ("draft")[0] == 'd';
    assert Validate(task, now) == [];
    var first := CreateTask(map[], request, 1, now, {});
    assert first.after == map[1 := task];
    assert first.after[1].title == "Write spec";
  }
}
