/** The task entity. TaskRecord is the row a task is stored as; TaskItem is
    the entity object, whose fields the Update and UpdateStatus methods
    assign in place. */
module Entities {
  import opened Common

  datatype TaskRecord = TaskRecord(
    id: Id,
    title: string,
    description: string,
    dueDate: Instant,
    status: TaskStatus,
    createdAt: Instant)

  /** The row TaskItem.Create builds: the given fields verbatim, a fresh id
      and the current time as CreatedAt. The status defaults to Pending. */
  function NewTask(id: Id, now: Instant, title: string, description: string, dueDate: Instant,
                   status: TaskStatus := Pending): (r: TaskRecord)
    ensures r.id == id && r.createdAt == now
    ensures r.title == title && r.description == description
    ensures r.dueDate == dueDate && r.status == status
  {
    TaskRecord(id, title, description, dueDate, status, now)
  }

  /** The row after TaskItem.Update: the four editable fields replaced,
      identity and creation time kept. */
  function Updated(r: TaskRecord, title: string, description: string, dueDate: Instant,
                   status: TaskStatus): (u: TaskRecord)
    ensures u.id == r.id && u.createdAt == r.createdAt
    ensures u.title == title && u.description == description
    ensures u.dueDate == dueDate && u.status == status
  {
    r.(title := title, description := description, dueDate := dueDate, status := status)
  }

  /** The row after TaskItem.UpdateStatus: only the status differs. */
  function WithStatus(r: TaskRecord, status: TaskStatus): (u: TaskRecord)
    ensures u.status == status
    ensures u.id == r.id && u.title == r.title && u.description == r.description
    ensures u.dueDate == r.dueDate && u.createdAt == r.createdAt
  {
    r.(status := status)
  }

  /** Create leaves the status Pending when none is given. */
  lemma CreateDefaultsToPending(id: Id, now: Instant, title: string, description: string, dueDate: Instant)
    ensures NewTask(id, now, title, description, dueDate).status == Pending
  {
  }

  /** UpdateStatus is Update with the row's own title, description and due
      date: it changes the status and nothing else. */
  lemma UpdateStatusIsUpdateOfStatusOnly(r: TaskRecord, status: TaskStatus)
    ensures WithStatus(r, status) == Updated(r, r.title, r.description, r.dueDate, status)
  {
  }

  class TaskItem {
    var id: Id
    var title: string
    var description: string
    var dueDate: Instant
    var status: TaskStatus
    var createdAt: Instant

    /** The row this entity is stored as. */
    function Snapshot(): TaskRecord
      reads this
    {
      TaskRecord(id, title, description, dueDate, status, createdAt)
    }

    /** TaskItem.Create. The id is Guid.NewGuid()'s result and `now` the
        clock's, both passed in. No field is validated. */
    constructor Create(id: Id, now: Instant, title: string, description: string, dueDate: Instant,
                       status: TaskStatus := Pending)
      requires id != EmptyId
      ensures Snapshot() == NewTask(id, now, title, description, dueDate, status)
      ensures this.id != EmptyId && createdAt <= now
    {
      this.id := id;
      this.title := title;
      this.description := description;
      this.dueDate := dueDate;
      this.status := status;
      this.createdAt := now;
    }

    /** An entity materialised from a stored row (the persistence layer's
        private constructor plus property setters). */
    constructor Load(r: TaskRecord)
      ensures Snapshot() == r
    {
      id := r.id;
      title := r.title;
      description := r.description;
      dueDate := r.dueDate;
      status := r.status;
      createdAt := r.createdAt;
    }

    method Update(title: string, description: string, dueDate: Instant, status: TaskStatus)
      modifies this
      ensures Snapshot() == Updated(old(Snapshot()), title, description, dueDate, status)
    {
      this.title := title;
      this.description := description;
      this.dueDate := dueDate;
      this.status := status;
    }

    method UpdateStatus(newStatus: TaskStatus)
      modifies this
      ensures Snapshot() == WithStatus(old(Snapshot()), newStatus)
    {
      status := newStatus;
    }
  }
}
