/**
 * The task entity and its two enumerations. The source's Models file is not
 * part of this model; these are defined from how the controller, the
 * payloads and the seed data use them.
 */
module Models {
  import opened Wrappers

  datatype Status = Todo | InProgress | Done

  datatype Priority = Low | Medium | High

  /** A point in time, as a tick count; only its order matters here. */
  type DateTime = int

  /** A stored task record. */
  datatype TaskItem = TaskItem(
    id: int,
    title: string,
    description: Option<string>,
    status: Status,
    priority: Priority,
    dueDate: Option<DateTime>,
    createdAt: DateTime,
    completedAt: Option<DateTime>)
}
