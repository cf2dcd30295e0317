/** The three services that change the store. Each runs its steps in the
    source's order against the repository object, returning an error value
    where the source throws, and is proved to perform exactly the transition
    of the same name in Lifecycle. The two read-only services are the
    functions Lifecycle.GetTaskById and Lifecycle.GetAllTasks. */
module Services {
  import opened Common
  import opened Entities
  import opened Validation
  import opened Requests
  import opened Repository
  import opened Responses
  import opened Lifecycle

  class CreateTaskService {
    const repository: TaskRepository

    constructor (repository: TaskRepository)
      ensures this.repository == repository
    {
      this.repository := repository;
    }

    /** ExecuteAsync(request). `newId` and `now` stand for Guid.NewGuid() and
        DateTime.UtcNow; `faults` are the repository calls that throw. */
    method Execute(request: TaskRequest, newId: Id, now: Instant, faults: Faults)
      returns (r: ServiceResult<TaskResponse>)
      requires repository.Valid() && StatusInRange(request.status) && newId != EmptyId
      modifies repository
      ensures repository.Valid()
      ensures var o := CreateTask(old(repository.tasks), request, newId, now, faults);
        r == o.result && repository.tasks == o.after
    {
      if ExistsByTitleCall in faults {
        return Err(CreateFailure);
      }
      if ExistsByTitle(repository.tasks, request.title) {
        return Err(DuplicateTitle);
      }
      var task := new TaskItem.Create(newId, now, request.title, DescriptionOrEmpty(request.description),
                                      request.dueDate, StatusOf(request.status));
      var violations := Validate(task.Snapshot(), now);
      if violations != [] {
        return Err(ValidationFailure(violations));
      }
      var added := repository.Add(task, AddCall in faults);
      if added.None? {
        return Err(CreateFailure);
      }
      r := Ok(ToResponse(added.value.Snapshot()));
    }
  }

  class UpdateTaskService {
    const repository: TaskRepository

    constructor (repository: TaskRepository)
      ensures this.repository == repository
    {
      this.repository := repository;
    }

    /** ExecuteAsync(id, request): fetch, conflict check, in-place update of
        the fetched entity, validation, write-back. */
    method Execute(id: Id, request: TaskRequest, now: Instant, faults: Faults)
      returns (r: ServiceResult<TaskResponse>)
      requires repository.Valid() && StatusInRange(request.status)
      modifies repository
      ensures repository.Valid()
      ensures var o := UpdateTask(old(repository.tasks), id, request, now, faults);
        r == o.result && repository.tasks == o.after
    {
      if GetByIdCall in faults {
        return Err(UpdateFailure);
      }
      var found := Find(repository.tasks, id);
      if found.None? {
        return Err(TaskNotFound(NotFoundMessage));
      }
      var task := new TaskItem.Load(found.value);
      if ExistsByTitleCall in faults {
        return Err(UpdateFailure);
      }
      if ExistsByTitle(repository.tasks, request.title) && task.title != request.title {
        return Err(DuplicateTitle);
      }
      task.Update(request.title, DescriptionOrEmpty(request.description), request.dueDate, StatusOf(request.status));
      var violations := Validate(task.Snapshot(), now);
      if violations != [] {
        return Err(ValidationFailure(violations));
      }
      var ok := repository.Update(task, UpdateCall in faults);
      if !ok {
        return Err(UpdateFailure);
      }
      r := Ok(ToResponse(task.Snapshot()));
    }
  }

  class DeleteTaskService {
    const repository: TaskRepository

    constructor (repository: TaskRepository)
      ensures this.repository == repository
    {
      this.repository := repository;
    }

    /** ExecuteAsync(id): fetch, then remove the fetched entity. */
    method Execute(id: Id, faults: Faults) returns (r: ServiceResult<()>)
      requires repository.Valid()
      modifies repository
      ensures repository.Valid()
      ensures var o := DeleteTask(old(repository.tasks), id, faults);
        r == o.result && repository.tasks == o.after
    {
      if GetByIdCall in faults {
        return Err(DeleteFailure);
      }
      var found := Find(repository.tasks, id);
      if found.None? {
        return Err(TaskNotFound(NotFoundMessage));
      }
      var task := new TaskItem.Load(found.value);
      var ok := repository.Delete(task, DeleteCall in faults);
      if !ok {
        return Err(DeleteFailure);
      }
      r := Ok(());
    }
  }
}
