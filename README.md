# LooveTaskManager: a verified model of the task lifecycle

LooveTaskManager is a small REST backend for tasks. A task has an id, a title,
a description, a due date, a status (Pending, InProgress, Completed) and a
creation time. This project models its core in Dafny:

- the `TaskItem` entity, with its factory and its in-place updaters;
- the `TaskValidator` rule set;
- the request DTO's annotations;
- the repository, as an in-memory table;
- the five services (create, get by id, get a page, update, delete);
- the error middleware that turns exceptions into RFC 7807 problem documents;
- the `ProblemDetails` type.

Files and modules:

- `common.dfy` (`Common`, `Text`): ids, instants, the status enumeration, the
  error taxonomy (HTTP status, code, message), the repository calls that can
  fail, and .NET's white-space test.
- `task_item.dfy` (`Entities`): the stored row `TaskRecord`, the functions
  `NewTask`, `Updated` and `WithStatus` that state what the entity's members
  do, and the class `TaskItem` whose `Update` and `UpdateStatus` assign
  fields in place.
- `task_validator.dfy` (`Validation`): the three rule chains, as an ordered
  list of violations.
- `task_request.dfy` (`Requests`): the request record, its annotation
  constraints and the `Description ?? ""` default.
- `task_repository.dfy` (`Repository`): how the queries behave, as functions
  of the table (title existence, lookup, counts, the newest-first page), and
  the repository class, whose add, update and delete change the table.
- `task_response.dfy` (`Responses`): the response DTOs and the field-for-field
  projection.
- `lifecycle.dfy` (`Lifecycle`): each service as a transition from
  (table, request) to (result, table), the properties of each one, and the
  proof that title uniqueness survives any sequence of requests.
- `services.dfy` (`Services`): the create, update and delete services as
  classes over the repository object. Each performs its steps in the
  source's order and is proved to perform its `Lifecycle` transition.
- `problem_details.dfy` (`Problems`): the problem document and the
  `ProblemDetails.Create` factory.
- `error_handling.dfy` (`ErrorHandling`): the middleware's classification
  table, the detail text, and the handler that assigns the document and the
  response in place.

Where the source throws, the model returns `Err(ServiceError(status, code,
message))`. Messages and codes are tags, not the Portuguese literals. The
middleware is the exception: it keeps its four literal titles.

Three things the source reads at run time are parameters here:

- `DateTime.UtcNow` is the parameter `now`.
- `Guid.NewGuid()` is the parameter `newId`.
- A repository failure is given by `faults`, the set of repository calls that
  throw during the request.

Two consequences of the code are worth stating on their own:

- A create can fail even with a unique title and a future due date: the code
  also requires a non-blank title of at most 200 characters and a non-blank
  description. `Lifecycle.CreateSucceedsIff` states the exact condition.
- A due date at or before `now` does not always give the due-date message.
  Only the first violation is reported, so an earlier failing rule wins, and
  a not-found or a title conflict is reported before validation runs.
  `Lifecycle.UpdatePastDueDate` states the case in which the due-date message
  is the answer.

## Model

| member | source | states |
|---|---|---|
| `Common.StatusOf` | LooveTaskManager.Application/Services/CreateTaskService.cs:50 | the integer-to-status cast is total on 0..2 and gives back the status declared with that integer |
| `Common.StatusRoundTrip` | LooveTaskManager.Application/DTOs/CreateTaskRequestDTO.cs:36-38 | every status's integer lies in the accepted range and casts back to that status |
| `Text.BlankExamples` | LooveTaskManager.Domain/Validators/TaskValidator.cs:11-13 | the empty string and white space only count as blank; a string with a letter does not |
| `Entities.NewTask` | LooveTaskManager.Domain/Entities/TaskItem.cs:14-25 | the created row carries the given id, `now` as CreatedAt, and title, description, due date and status unchanged |
| `Entities.Updated` | LooveTaskManager.Domain/Entities/TaskItem.cs:27-33 | an update replaces the four editable fields and keeps the id and CreatedAt |
| `Entities.WithStatus` | LooveTaskManager.Domain/Entities/TaskItem.cs:35-38 | a status change alters the status and keeps all five other fields |
| `Entities.CreateDefaultsToPending` | LooveTaskManager.Domain/Entities/TaskItem.cs:14 | without a status argument, Create gives Pending |
| `Entities.UpdateStatusIsUpdateOfStatusOnly` | LooveTaskManager.Domain/Entities/TaskItem.cs:27-38 | UpdateStatus equals Update called with the row's own title, description and due date |
| `Entities.TaskItem.Create` | LooveTaskManager.Domain/Entities/TaskItem.cs:14-25 | the new object holds the row `NewTask` describes; CreatedAt is at most `now`; the id is the given one, assumed (by the precondition) not to be Guid.Empty |
| `Entities.TaskItem.Load` | LooveTaskManager.Domain/Entities/TaskItem.cs:12 | an entity read back from the store holds exactly the stored row |
| `Entities.TaskItem.Update` | LooveTaskManager.Domain/Entities/TaskItem.cs:27-33 | assigns, in place, the fields `Updated` replaces and no others |
| `Entities.TaskItem.UpdateStatus` | LooveTaskManager.Domain/Entities/TaskItem.cs:35-38 | assigns the status in place and nothing else |
| `Validation.Validate` | LooveTaskManager.Domain/Validators/TaskValidator.cs:9-24 | no contract of its own; its contract is carried by `Validation.ValidIffAllRulesHold`, `Validation.ViolationIffCheckFails`, `Validation.ViolationsInDeclarationOrder` and `Validation.FirstViolationIsEarliestRule` |
| `Validation.ValidIffAllRulesHold` | LooveTaskManager.Domain/Validators/TaskValidator.cs:9-24 | no violation exactly when the title is non-blank and at most 200 long, the description is non-blank and the due date is after `now` |
| `Validation.ViolationIffCheckFails` | LooveTaskManager.Domain/Validators/TaskValidator.cs:11-23 | each of the four violations is reported if and only if its own check fails |
| `Validation.ViolationsInDeclarationOrder` | LooveTaskManager.Domain/Validators/TaskValidator.cs:11-23 | violations follow the declaration order (title, then description, then due date), each at most once |
| `Validation.FirstViolationIsEarliestRule` | LooveTaskManager.Domain/Validators/TaskValidator.cs:11-23 | the first violation, the one callers surface, is that of the earliest failing rule |
| `Validation.EmptyTitleOnlyEmptyTitle` | LooveTaskManager.Domain/Validators/TaskValidator.cs:12-15 | an empty title gives EmptyTitle and no TitleTooLong |
| `Validation.BlankLongTitleFailsBoth` | LooveTaskManager.Domain/Validators/TaskValidator.cs:11-15 | a blank title over 200 characters fails both validators of the chain, EmptyTitle first |
| `Validation.TitleLengthBoundary` | LooveTaskManager.Domain/Validators/TaskValidator.cs:14-15 | a non-blank title of 200 characters passes the title chain; one of 201 fails first with TitleTooLong |
| `Validation.DueDateEqualToNowRejected` | LooveTaskManager.Domain/Validators/TaskValidator.cs:21-23 | a due date equal to the reference instant is already rejected with PastDueDate |
| `Validation.CreateAcceptsInvalidFields` | LooveTaskManager.Domain/Entities/TaskItem.cs:14-25 | Create builds a task whose every field breaks a rule, and the validator then lists all three violations |
| `Requests.RequestWellFormed` | LooveTaskManager.Application/DTOs/CreateTaskRequestDTO.cs:14-38 | no contract of its own; its contract is carried by `Requests.WellFormedTitlePassesTitleRule` and `Requests.WellFormedMayStillFailValidation` |
| `Requests.DescriptionOrEmpty` | LooveTaskManager.Application/Services/CreateTaskService.cs:48 | a missing description becomes the empty string; a present one is kept |
| `Requests.WellFormedTitlePassesTitleRule` | LooveTaskManager.Application/DTOs/CreateTaskRequestDTO.cs:14-16 | a title that meets the annotations never fails the validator's title chain |
| `Requests.WellFormedMayStillFailValidation` | LooveTaskManager.Application/DTOs/CreateTaskRequestDTO.cs:22-23 | a request meeting every annotation, with no description, is still rejected with EmptyDescription |
| `Repository.ExistsByTitle` | LooveTaskManager.Infrastructure/Repositories/TaskRepository.cs:149-154 | true exactly when some stored row's title equals the given one |
| `Repository.Find` | LooveTaskManager.Infrastructure/Repositories/TaskRepository.cs:75-87 | returns the row stored under the id, or nothing when the id is absent |
| `Repository.Count` | LooveTaskManager.Infrastructure/Repositories/TaskRepository.cs:121-133 | no contract of its own; its contract is carried by `Repository.CountsAgree` |
| `Repository.TotalCount` | LooveTaskManager.Infrastructure/Repositories/TaskRepository.cs:135-147 | no contract of its own; its contract is carried by `Repository.CountsAgree` |
| `Repository.CountsAgree` | LooveTaskManager.Infrastructure/Repositories/TaskRepository.cs:121-147 | CountAsync and GetTotalCountAsync both equal the number of stored rows |
| `Repository.Newest` | LooveTaskManager.Infrastructure/Repositories/TaskRepository.cs:61 | the chosen id comes before every other stored id in the page order |
| `Repository.OrderedIds` | LooveTaskManager.Infrastructure/Repositories/TaskRepository.cs:60-61 | the ordering lists as many ids as there are rows, each a stored id |
| `Repository.OrderedIdsSorted` | LooveTaskManager.Infrastructure/Repositories/TaskRepository.cs:61 | each id in the ordering strictly precedes every later one (newer CreatedAt first) |
| `Repository.OrderedIdsCover` | LooveTaskManager.Infrastructure/Repositories/TaskRepository.cs:60-61 | every stored id appears in the ordering |
| `Repository.Ordered` | LooveTaskManager.Infrastructure/Repositories/TaskRepository.cs:60-61 | the ordered rows are the stored rows under the ordered ids, one per row |
| `Repository.OrderedIsPermutation` | LooveTaskManager.Infrastructure/Repositories/TaskRepository.cs:60-61 | the ordering holds every stored row exactly once |
| `Repository.OrderedDescending` | LooveTaskManager.Infrastructure/Repositories/TaskRepository.cs:61 | CreatedAt never increases along the ordering |
| `Repository.PageStart` | LooveTaskManager.Infrastructure/Repositories/TaskRepository.cs:62 | Skip starts within the rows |
| `Repository.PageLength` | LooveTaskManager.Infrastructure/Repositories/TaskRepository.cs:63 | Take never runs past the rows that remain |
| `Repository.Page` | LooveTaskManager.Infrastructure/Repositories/TaskRepository.cs:55-73 | no contract of its own; its contract is carried by `Repository.PageIsDescendingSlice`, `Repository.PageLengthNonNegative`, `Repository.PageRowsAreStored` and `Repository.EmptyTablePage` |
| `Repository.PageIsDescendingSlice` | LooveTaskManager.Infrastructure/Repositories/TaskRepository.cs:55-66 | the page's i-th row is the ordering's row at position clamped-skip + i, the page never runs past the table, it is empty when take is not positive, and its CreatedAt values do not increase |
| `Repository.PageLengthNonNegative` | LooveTaskManager.Infrastructure/Repositories/TaskRepository.cs:62-63 | for non-negative arguments, the page has min(take, max(0, n - skip)) rows |
| `Repository.PageRowsAreStored` | LooveTaskManager.Infrastructure/Repositories/TaskRepository.cs:55-66 | every row of a page is a stored row |
| `Repository.EmptyTablePage` | LooveTaskManager.Infrastructure/Repositories/TaskRepository.cs:55-66 | an empty table gives an empty page whatever skip and take are |
| `Repository.TaskRepository.constructor` | LooveTaskManager.Infrastructure/Repositories/TaskRepository.cs:16-20 | a new repository holds no rows |
| `Repository.TaskRepository.Add` | LooveTaskManager.Infrastructure/Repositories/TaskRepository.cs:24-39 | on success, returns the same entity and adds exactly its row; on a failure or a taken key, rethrows and leaves the table as it was |
| `Repository.TaskRepository.Update` | LooveTaskManager.Infrastructure/Repositories/TaskRepository.cs:89-103 | replaces only the row with the entity's id; fails, changing nothing, when that id is not stored or the store throws |
| `Repository.TaskRepository.Delete` | LooveTaskManager.Infrastructure/Repositories/TaskRepository.cs:105-119 | removes exactly the row with the entity's id; fails, changing nothing, when it is not stored or the store throws |
| `Responses.ToResponse` | LooveTaskManager.Application/Mappings/MappingConfig.cs:13-19 | the response carries the entity's six fields unchanged |
| `Responses.ToResponseInjective` | LooveTaskManager.Application/Mappings/MappingConfig.cs:13-19 | two rows have equal responses exactly when they are equal |
| `Responses.ProjectAll` | LooveTaskManager.Application/Services/GetAllTasksService.cs:38-46 | the projected list has the page's length and order, each item the projection of its row |
| `Lifecycle.CreateTask` | LooveTaskManager.Application/Services/CreateTaskService.cs:31-79 | no contract of its own; its contract is carried by `Lifecycle.CreateDuplicateIsConflict`, `Lifecycle.CreateInvalidIsBadRequest`, `Lifecycle.CreateWithoutDescriptionFails`, `Lifecycle.CreateSuccessAddsOneRow`, `Lifecycle.CreateSucceedsIff`, `Lifecycle.CreatePreservesConsistency`, `Lifecycle.CreateFailureWritesNothing` and `Lifecycle.RepositoryFailuresWrapped` |
| `Lifecycle.UpdateTask` | LooveTaskManager.Application/Services/UpdateTaskService.cs:31-89 | no contract of its own; its contract is carried by `Lifecycle.UpdateUnknownIsNotFound`, `Lifecycle.UpdateConflictIff`, `Lifecycle.UpdateOwnTitleNeverConflicts`, `Lifecycle.UpdateInvalidLeavesTable`, `Lifecycle.UpdatePastDueDate`, `Lifecycle.UpdateSuccessReplacesTarget`, `Lifecycle.UpdateSucceedsIff`, `Lifecycle.UpdatePreservesConsistency`, `Lifecycle.UpdateFailureWritesNothing` and `Lifecycle.RepositoryFailuresWrapped` |
| `Lifecycle.DeleteTask` | LooveTaskManager.Application/Services/DeleteTaskService.cs:24-55 | no contract of its own; its contract is carried by `Lifecycle.DeleteUnknownIsNotFound`, `Lifecycle.DeleteSuccessRemovesOnlyTarget`, `Lifecycle.DeleteSucceedsIff`, `Lifecycle.DeletePreservesConsistency`, `Lifecycle.DeleteFailureWritesNothing` and `Lifecycle.RepositoryFailuresWrapped` |
| `Lifecycle.GetAllTasks` | LooveTaskManager.Application/Services/GetAllTasksService.cs:25-60 | no contract of its own; its contract is carried by `Lifecycle.GetAllTasksContents`, `Lifecycle.GetAllPageFailureSkipsCount`, `Lifecycle.GetAllDefaults` and `Lifecycle.GetAllEmptyStore` |
| `Lifecycle.GetTaskById` | LooveTaskManager.Application/Services/GetTaskByIdService.cs:26-58 | succeeds exactly when the lookup does not fail and the id is stored, then with that row's fields; else a QueryError (500) or a TaskNotFound (404, TASK_NOT_FOUND); never changes the table |
| `Lifecycle.CreateDuplicateIsConflict` | LooveTaskManager.Application/Services/CreateTaskService.cs:37-44 | a Conflict (TASK_TITLE_ALREADY_EXISTS) exactly when some stored row has the title, whatever the other fields are, and then nothing is written |
| `Lifecycle.CreateInvalidIsBadRequest` | LooveTaskManager.Application/Services/CreateTaskService.cs:52-60 | a failing validation gives BadRequest, VALIDATION_ERROR and the earliest failing rule's message, with no insert |
| `Lifecycle.CreateWithoutDescriptionFails` | LooveTaskManager.Application/Services/CreateTaskService.cs:46-60 | a request without a description never creates; with a new, valid title the answer is BadRequest with EmptyDescription |
| `Lifecycle.CreateSuccessAddsOneRow` | LooveTaskManager.Application/Services/CreateTaskService.cs:62-65 | success adds exactly one row under an id not stored before; the earlier rows are unchanged; the response has the request's fields and the new id |
| `Lifecycle.CreateSucceedsIff` | LooveTaskManager.Application/Services/CreateTaskService.cs:31-79 | a create succeeds exactly when its calls do not fail, the title is new, all four rules hold and the fresh id is free |
| `Lifecycle.CreatePreservesConsistency` | LooveTaskManager.Application/Services/CreateTaskService.cs:37-62 | if titles are unique and rows keyed by id before a create, they still are after it |
| `Lifecycle.UpdateUnknownIsNotFound` | LooveTaskManager.Application/Services/UpdateTaskService.cs:37-45 | an unknown id gives NotFound (TASK_NOT_FOUND), changes nothing, and does not depend on the title check or the write failing |
| `Lifecycle.UpdateConflictIff` | LooveTaskManager.Application/Services/UpdateTaskService.cs:47-54 | Conflict exactly when some row has the requested title and the target's current title differs from it |
| `Lifecycle.UpdateOwnTitleNeverConflicts` | LooveTaskManager.Application/Services/UpdateTaskService.cs:47 | keeping the task's own title never gives Conflict |
| `Lifecycle.UpdateInvalidLeavesTable` | LooveTaskManager.Application/Services/UpdateTaskService.cs:62-70 | a validation failure after the in-place update gives BadRequest, VALIDATION_ERROR and the earliest failing rule's message; the stored table is unchanged |
| `Lifecycle.UpdatePastDueDate` | LooveTaskManager.Application/Services/UpdateTaskService.cs:56-70 | an update whose only fault is a due date at or before `now` gives BadRequest with PastDueDate and leaves the stored task as it was |
| `Lifecycle.UpdateSuccessReplacesTarget` | LooveTaskManager.Application/Services/UpdateTaskService.cs:56-75 | success replaces exactly the target row with the request's fields (a missing description as ""), keeps its id and CreatedAt, leaves every other row, and answers with the new row |
| `Lifecycle.UpdateSucceedsIff` | LooveTaskManager.Application/Services/UpdateTaskService.cs:31-89 | an update succeeds exactly when its calls do not fail, the id is stored, the title is the task's own or new, and the edited row passes all four rules |
| `Lifecycle.UpdatePreservesConsistency` | LooveTaskManager.Application/Services/UpdateTaskService.cs:47-72 | title uniqueness and keying survive every update |
| `Lifecycle.DeleteUnknownIsNotFound` | LooveTaskManager.Application/Services/DeleteTaskService.cs:30-38 | an unknown id gives NotFound (TASK_NOT_FOUND) and nothing is deleted |
| `Lifecycle.DeleteSuccessRemovesOnlyTarget` | LooveTaskManager.Application/Services/DeleteTaskService.cs:30-41 | success removes the fetched id and no other row; the table shrinks by one |
| `Lifecycle.DeleteSucceedsIff` | LooveTaskManager.Application/Services/DeleteTaskService.cs:30-41 | a delete succeeds exactly when neither the fetch nor the removal throws and the id is stored, and then exactly that id is removed |
| `Lifecycle.DeletePreservesConsistency` | LooveTaskManager.Application/Services/DeleteTaskService.cs:40 | removal keeps titles unique and rows keyed by id |
| `Lifecycle.GetAllTasksContents` | LooveTaskManager.Application/Services/GetAllTasksService.cs:31-50 | the list echoes skip and take, reports the full count whatever the paging, and projects the page row by row in order |
| `Lifecycle.GetAllPageFailureSkipsCount` | LooveTaskManager.Application/Services/GetAllTasksService.cs:31-59 | a failing page read gives QueryError (500, INTERNAL_SERVER_ERROR) whether or not the count would fail: the count is never asked for |
| `Lifecycle.GetAllDefaults` | LooveTaskManager.Application/Services/GetAllTasksService.cs:25 | the defaults are skip 0 and take 10, giving at most ten items and the full count |
| `Lifecycle.GetAllEmptyStore` | LooveTaskManager.Application/Services/GetAllTasksService.cs:31-50 | an empty store gives no items and a total of 0 |
| `Lifecycle.ErrorStatusesPerOperation` | LooveTaskManager.API/Controllers/TaskController.cs:40-128 | create answers only 409, 400 or 500; update only 404, 409, 400 or 500; delete and get-by-id only 404 or 500; get-all only the query error |
| `Lifecycle.RepositoryFailuresWrapped` | LooveTaskManager.Application/Services/CreateTaskService.cs:67-78 | a 500 from create is always SaveError with INTERNAL_SERVER_ERROR, from update SaveError with the database save code, from delete DeleteError with INTERNAL_SERVER_ERROR; a throwing title check (create) or fetch (update, delete) gives that failure and writes nothing; a throwing insert never gives the success response; update's code differs from create's while the message is the same |
| `Lifecycle.CreateFailureWritesNothing` | LooveTaskManager.Application/Services/CreateTaskService.cs:31-79 | every failing create leaves the table unchanged; with the title new and validation passed, a throwing insert (or a taken key) gives CreateFailure |
| `Lifecycle.UpdateFailureWritesNothing` | LooveTaskManager.Application/Services/UpdateTaskService.cs:31-89 | every failing update, a conflict included, leaves the table unchanged; with the fetch, the title rule and validation passed, a throwing write-back gives UpdateFailure |
| `Lifecycle.DeleteFailureWritesNothing` | LooveTaskManager.Application/Services/DeleteTaskService.cs:24-55 | every failing delete leaves the table unchanged; a stored id whose removal throws gives DeleteFailure |
| `Lifecycle.StepPreservesConsistency` | LooveTaskManager.Application/Services/CreateTaskService.cs:37-62 | each single request keeps titles unique and rows keyed by id |
| `Lifecycle.RunPreservesConsistency` | LooveTaskManager.API/Controllers/TaskController.cs:49-134 | titles stay unique across any sequence of requests applied one after another |
| `Lifecycle.DuplicateCreateExample` | LooveTaskManager.Application/Services/CreateTaskService.cs:37-65 | creating "Write spec" succeeds with status Pending; creating it again is a Conflict that changes nothing |
| `Services.CreateTaskService.Execute` | LooveTaskManager.Application/Services/CreateTaskService.cs:31-79 | runs the title check, Create, validation and insert against the repository, and gives exactly the result and table of `Lifecycle.CreateTask` |
| `Services.UpdateTaskService.Execute` | LooveTaskManager.Application/Services/UpdateTaskService.cs:31-89 | fetches, checks the title, updates the fetched entity in place, validates and writes back, giving exactly `Lifecycle.UpdateTask` |
| `Services.DeleteTaskService.Execute` | LooveTaskManager.Application/Services/DeleteTaskService.cs:24-55 | fetches, then removes the fetched entity, giving exactly `Lifecycle.DeleteTask` |
| `Problems.Created` | LooveTaskManager.API/Models/ProblemDetails.cs:25-48 | title, detail, status and instance copied; type about:blank unless given; the errorCode extension present exactly when a code is given, and no other key |
| `Problems.CreatedWithDefaults` | LooveTaskManager.API/Models/ProblemDetails.cs:25-31 | without the optional arguments, Create gives the default document with title, detail and status filled in |
| `Problems.ProblemDetails.constructor` | LooveTaskManager.API/Models/ProblemDetails.cs:8-23 | a default object has type about:blank, empty title and detail, status 0, no instance and no extensions |
| `Problems.ProblemDetails.Create` | LooveTaskManager.API/Models/ProblemDetails.cs:25-48 | returns a fresh object holding the document `Created` describes |
| `ErrorHandling.ErrorDetail` | LooveTaskManager.API/Middlewares/ErrorHandlingMiddleware.cs:43-59 | no contract of its own; its contract is carried by `ErrorHandling.DetailStartsWithMessage`, `ErrorHandling.ProductionDetailIsMessageLine`, `ErrorHandling.DevelopmentExtendsProduction` and `ErrorHandling.InnerExceptionAppended` |
| `ErrorHandling.Problem` | LooveTaskManager.API/Middlewares/ErrorHandlingMiddleware.cs:61-104 | no contract of its own; its contract is carried by `ErrorHandling.DomainExceptionSurfacesUnchanged`, `ErrorHandling.BuiltInKinds`, `ErrorHandling.FixedMembers`, `ErrorHandling.DefaultTitleOnlyForFallback` and `ErrorHandling.ServiceErrorReachesClient` |
| `ErrorHandling.DomainExceptionSurfacesUnchanged` | LooveTaskManager.API/Middlewares/ErrorHandlingMiddleware.cs:72-77 | a domain exception keeps its own status, its message becomes the title and its code the errorCode |
| `ErrorHandling.BuiltInKinds` | LooveTaskManager.API/Middlewares/ErrorHandlingMiddleware.cs:79-103 | invalid operation gives 400 VALIDATION_ERROR; key not found 404 NOT_FOUND; unauthorized access 401 UNAUTHORIZED; anything else 500 INTERNAL_SERVER_ERROR with the default title |
| `ErrorHandling.FixedMembers` | LooveTaskManager.API/Middlewares/ErrorHandlingMiddleware.cs:61-68 | whatever the kind: type is the section 6.6.1 of RFC 7231 URI, instance the request path, detail the built text, errorCode the one extension |
| `ErrorHandling.DefaultTitleOnlyForFallback` | LooveTaskManager.API/Middlewares/ErrorHandlingMiddleware.cs:61-104 | the generic title is used exactly for the fallback kind, or for a domain exception whose message is that title |
| `ErrorHandling.ServiceErrorReachesClient` | LooveTaskManager.API/Middlewares/ErrorHandlingMiddleware.cs:72-77 | a service error thrown as the domain exception reaches the client with its status, its code and its message as the title |
| `ErrorHandling.DetailStartsWithMessage` | LooveTaskManager.API/Middlewares/ErrorHandlingMiddleware.cs:43-44 | the detail always starts with the message line |
| `ErrorHandling.ProductionDetailIsMessageLine` | LooveTaskManager.API/Middlewares/ErrorHandlingMiddleware.cs:43-46 | outside development the detail is exactly the message line |
| `ErrorHandling.DevelopmentExtendsProduction` | LooveTaskManager.API/Middlewares/ErrorHandlingMiddleware.cs:46-59 | development only appends: the production detail is a prefix of the development one, a proper prefix when lines end in something |
| `ErrorHandling.InnerExceptionAppended` | LooveTaskManager.API/Middlewares/ErrorHandlingMiddleware.cs:52-58 | the inner-exception block is appended after the stack trace, and only when there is an inner exception |
| `ErrorHandling.BuildDetail` | LooveTaskManager.API/Middlewares/ErrorHandlingMiddleware.cs:43-59 | the StringBuilder appends produce exactly the detail text `ErrorDetail` describes |
| `ErrorHandling.HandleException` | LooveTaskManager.API/Middlewares/ErrorHandlingMiddleware.cs:38-106 | the assigned document is the decision table's (`Problem`); the response's status equals the document's; the content type is application/problem+json |

## Left out

- Logging: every logger call and the log message constants. They have no
  effect on results.
- Persistence technology (Entity Framework, SQL Server, the unused raw SQL
  in `TaskQueries.cs`): the store is a map from id to row. A failing write is
  atomic, so it leaves the table unchanged.
- Entity tracking: in the store, GetByIdAsync returns the tracked instance,
  so the update service's in-place `Update` also changes the context's copy,
  even when validation then fails. The model stores rows as values. The
  loaded entity is a separate object, and the table changes only in
  `Repository.TaskRepository.Update`.
- Title comparison under a case-insensitive database collation: titles are
  compared exactly.
- Concurrency: requests run atomically, one after another. The race between
  the title check and the later write is not modelled. Title uniqueness is
  proved for sequential runs only.
- JSON serialisation of the problem document and of the DTOs, the
  `InvokeAsync` pipeline wrapper, HTTP routing, the controller's 201/204
  wrapping, dependency injection, Swagger and culture configuration.
- `Repository.Query()`, which exposes the IQueryable, and the general
  `ExistsAsync(predicate)`, which no core service calls: not part of this model.
- Clock and id generation become the parameters `now` and `newId`.
  - One `now` stands for both clock reads of a create: the validator's
    reference instant and CreatedAt. The validator reads `DateTime.UtcNow`
    once, when it is constructed (once per request scope), not when it
    validates.
  - A `newId` that is already stored makes the insert fail (a
    primary-key violation) instead of being excluded by a precondition.
  - `Guid.NewGuid()` is assumed never to return Guid.Empty: `Entities.TaskItem.Create`
    and `CreateTaskService.Execute` require `newId != EmptyId`, so that the
    created id is not Guid.Empty is an assumption, not a result.
- Types: a Guid is a natural number (0 for Guid.Empty) and a DateTime is an
  integer tick count.
- Int32 bounds: skip, take and the counts are unbounded integers, so Int32
  range is not modelled.
- Title lengths: .NET counts UTF-16 code units, while the model counts
  Unicode scalar values. A title with characters outside the Basic
  Multilingual Plane has a different length in the two.
- Out-of-range statuses: the services require a status in 0..2. The
  request's `[Range(0, 2)]` annotation makes the framework reject other
  values with its own 400 response before a service runs. That automatic
  response and the annotations' own error messages are not modelled.
- `UpdateTaskRequestDTO.cs` is not part of this model. The update request is
  taken to have the create request's fields.
- Page order among rows with equal CreatedAt: the database leaves it
  unspecified. The model breaks ties by ascending id.
- Negative skip or take: the model follows LINQ's clamping (a negative skip
  skips nothing; a non-positive take takes nothing). The SQL Server provider
  may reject negative values instead, which would surface as the list
  service's query error.
- `ErrorCodes.Database.SaveError`, the update service's failure code, is not
  defined in `ErrorCodes.cs`. It is kept as the opaque `DatabaseSaveErrorCode`,
  distinct from INTERNAL_SERVER_ERROR.
- `ErrorMessages.Task.DescriptionTooLong` (1000 characters) is never checked
  by the validator. The 4000 limit lives only on the request.
- Middleware domain codes: a domain exception's HTTP status is one of the
  statuses the `HttpStatus` type lists (400, 401, 404, 409, 500; the services
  raise only 400, 404, 409 and 500, and 401 comes from the middleware's own
  mapping of UnauthorizedAccessException), and its code is one of
  the `ErrorCode` tags, not an arbitrary string.
- Null stack traces are the empty string; AppendLine writes only the line
  break for either.
- Logging inside the middleware and the response body write are left out.
  The handler's effect is the assigned document and the response's status
  and content type.
