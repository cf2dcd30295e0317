/** The task representation the services return, and the paged list. */
module Responses {
  import opened Common
  import opened Entities

  datatype TaskResponse = TaskResponse(
    id: Id,
    title: string,
    description: string,
    dueDate: Instant,
    status: TaskStatus,
    createdAt: Instant)

  datatype TaskListResponse = TaskListResponse(
    items: seq<TaskResponse>,
    total: nat,
    skip: int,
    take: int)

  /** The field-for-field projection of an entity onto its representation. */
  function ToResponse(r: TaskRecord): (resp: TaskResponse)
    ensures resp.id == r.id && resp.title == r.title && resp.description == r.description
    ensures resp.dueDate == r.dueDate && resp.status == r.status && resp.createdAt == r.createdAt
  {
    TaskResponse(r.id, r.title, r.description, r.dueDate, r.status, r.createdAt)
  }

  /** The projection loses nothing: distinct rows have distinct representations. */
  lemma ToResponseInjective(a: TaskRecord, b: TaskRecord)
    ensures ToResponse(a) == ToResponse(b) <==> a == b
  {
  }

  /** `rows.Select(t => new TaskResponseDTO { ... })`: each row projected, in order. */
  function ProjectAll(rows: seq<TaskRecord>): (items: seq<TaskResponse>)
    ensures |items| == |rows|
    ensures forall i :: 0 <= i < |rows| ==> items[i] == ToResponse(rows[i])
  {
    if rows == [] then [] else [ToResponse(rows[0])] + ProjectAll(rows[1..])
  }
}
