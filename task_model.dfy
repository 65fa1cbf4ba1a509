/**
 * The task record of model/TaskManagement.java, its enumerations and the
 * request shapes the service consumes.
 *
 * The enumeration declarations themselves are not part of this model: the
 * constants below stand for them, and only ASSIGNED, COMPLETED and CANCELLED
 * carry meaning for the service.
 */
module TaskModel {
  import opened Wrappers

  /** The kind of external entity a task serves. */
  datatype ReferenceType = Order | Entity

  /** The kind of work (the Java enum `Task`). */
  datatype TaskType = CreateInvoice | ArrangePickup | CollectPayment | AssignCustomerToSalesPerson

  datatype TaskStatus = Assigned | Started | Completed | Cancelled

  datatype Priority = High | Medium | Low

  /**
   * One stored task. `id` is absent until the store saves the record for the
   * first time; the deadline and the priority may be absent (Java `null`).
   */
  datatype Task = Task(
    id: Option<int>,
    referenceId: int,
    referenceType: ReferenceType,
    task: TaskType,
    description: string,
    status: TaskStatus,
    assigneeId: int,
    taskDeadlineTime: Option<int>,
    priority: Option<Priority>)

  /** One item of a create request. */
  datatype CreateItem = CreateItem(
    referenceId: int,
    referenceType: ReferenceType,
    task: TaskType,
    assigneeId: int,
    priority: Option<Priority>,
    taskDeadlineTime: Option<int>)

  /** One item of an update request; an absent field is left as it is. */
  datatype UpdateItem = UpdateItem(
    taskId: int,
    taskStatus: Option<TaskStatus>,
    description: Option<string>)

  /** The argument triple of a reassignment. */
  datatype AssignByReferenceRequest = AssignByReferenceRequest(
    referenceId: int,
    referenceType: ReferenceType,
    assigneeId: int)

  /** What the service raises: a missing id, or the unboxing of a null deadline. */
  datatype ServiceError = NotFound(id: int) | NullDeadline

  /** The confirmation a reassignment returns; it names the reference. */
  datatype Confirmation = AssignedFor(referenceId: int)

  /** A task that is neither COMPLETED nor CANCELLED. */
  predicate IsLive(t: Task) {
    t.status != Completed && t.status != Cancelled
  }
}
