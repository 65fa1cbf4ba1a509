/**
 * The service class of service/TaskServiceImpl.java: the operations that
 * change the store, proved against the specification functions of TaskRules.
 * The read-only operations (findTaskById, fetchTasksByDate, getByPriority)
 * are the functions of TaskRules applied to the store's map or listing.
 */
module TaskService {
  import opened Wrappers
  import opened TaskModel
  import opened Repository
  import opened TaskRules

  class TaskServiceImpl {
    const taskRepository: TaskRepository
    /** `Task.getTasksByReferenceType`: the applicable task types per reference type, in their defined order. */
    const tasksByReferenceType: ReferenceType -> seq<TaskType>

    ghost predicate Valid()
      reads taskRepository
    {
      taskRepository.Valid()
    }

    constructor (taskRepository: TaskRepository, tasksByReferenceType: ReferenceType -> seq<TaskType>)
      requires taskRepository.Valid()
      ensures Valid()
      ensures this.taskRepository == taskRepository
      ensures this.tasksByReferenceType == tasksByReferenceType
    {
      this.taskRepository := taskRepository;
      this.tasksByReferenceType := tasksByReferenceType;
    }

    /**
     * `createTasks`: one new ASSIGNED task per item, saved and returned in
     * input order under fresh consecutive ids; nothing stored before changes.
     */
    method CreateTasks(items: seq<CreateItem>) returns (created: seq<Task>)
      requires Valid()
      modifies taskRepository
      ensures Valid()
      ensures |created| == |items|
      ensures forall i :: 0 <= i < |items| ==>
                created[i].id == Some(old(taskRepository.nextId) + i) && CreatedFrom(created[i], items[i])
      ensures taskRepository.nextId == old(taskRepository.nextId) + |items|
      ensures Listing(taskRepository.tasks, taskRepository.nextId) ==
                old(Listing(taskRepository.tasks, taskRepository.nextId)) + created
    {
      created := [];
      for i := 0 to |items|
        invariant taskRepository.Valid()
        invariant |created| == i
        invariant forall j :: 0 <= j < i ==>
                    created[j].id == Some(old(taskRepository.nextId) + j) && CreatedFrom(created[j], items[j])
        invariant taskRepository.nextId == old(taskRepository.nextId) + i
        invariant Listing(taskRepository.tasks, taskRepository.nextId) ==
                    old(Listing(taskRepository.tasks, taskRepository.nextId)) + created
      {
        var item := items[i];
        var task := Task(None, item.referenceId, item.referenceType, item.task, CreatedDescription,
                         Assigned, item.assigneeId, item.taskDeadlineTime, item.priority);
        var saved := taskRepository.Save(task);
        created := created + [saved];
      }
    }

    /**
     * `updateTasks`: applies the items in order, each to the freshly fetched
     * record; the first missing id raises NotFound after the earlier items
     * have been saved.
     */
    method UpdateTasks(items: seq<UpdateItem>) returns (r: Result<seq<Task>, ServiceError>)
      requires Valid()
      modifies taskRepository
      ensures Valid()
      ensures taskRepository.nextId == old(taskRepository.nextId)
      ensures taskRepository.tasks == RunUpdates(old(taskRepository.tasks), items).tasks
      ensures r == RunUpdates(old(taskRepository.tasks), items).result
    {
      var updated: seq<Task> := [];
      var i := 0;
      assert items[0..] == items;
      PrependNothing(RunUpdates(taskRepository.tasks, items));
      while i < |items|
        invariant 0 <= i <= |items|
        invariant taskRepository.Valid()
        invariant taskRepository.nextId == old(taskRepository.nextId)
        invariant Prepend(updated, RunUpdates(taskRepository.tasks, items[i..])) ==
                    RunUpdates(old(taskRepository.tasks), items)
      {
        var item := items[i];
        assert items[i..][0] == item && items[i..][1..] == items[i + 1..];
        var found := FindTaskById(taskRepository.tasks, item.taskId);
        if found.Failure? {
          return Failure(found.error);
        }
        var patched := Patch(found.value, item);
        var saved := taskRepository.Save(patched);
        PrependTwice(updated, saved, RunUpdates(taskRepository.tasks, items[i + 1..]));
        updated := updated + [saved];
        i := i + 1;
      }
      assert items[i..] == [] && updated + [] == updated;
      r := Success(updated);
    }

    /**
     * `assignByReference`: for each applicable type in order, cancels the
     * reference's prior tasks of that type that are not COMPLETED and saves one
     * new ASSIGNED task of that type for the request's assignee.
     */
    method AssignByReference(request: AssignByReferenceRequest) returns (confirmation: Confirmation)
      requires Valid()
      modifies taskRepository
      ensures Valid()
      ensures taskRepository.nextId == old(taskRepository.nextId) + |tasksByReferenceType(request.referenceType)|
      ensures taskRepository.tasks ==
                Reassign(old(taskRepository.tasks), old(taskRepository.nextId), request,
                         tasksByReferenceType(request.referenceType))
      ensures confirmation.referenceId == request.referenceId
    {
      var applicable := tasksByReferenceType(request.referenceType);
      var existing := FindByReference(Listing(taskRepository.tasks, taskRepository.nextId),
                                      request.referenceId, request.referenceType);
      ghost var tasks0, nextId0 := taskRepository.tasks, taskRepository.nextId;
      ExistingSnapshot(tasks0, nextId0, request, existing);
      ReassignNothing(tasks0, nextId0, request, applicable[..0]);
      for j := 0 to |applicable|
        invariant taskRepository.Valid()
        invariant taskRepository.nextId == nextId0 + j
        invariant taskRepository.tasks == Reassign(tasks0, nextId0, request, applicable[..j])
      {
        var taskType := applicable[j];
        ReassignKeys(tasks0, nextId0, request, applicable[..j]);
        CancelOpenOfType(existing, taskType);
        var _ := taskRepository.Save(ReassignedTask(request, taskType));
        ReassignStep(tasks0, nextId0, request, applicable, j);
      }
      assert applicable[..|applicable|] == applicable;
      confirmation := AssignedFor(request.referenceId);
    }

    /**
     * The inner loop of `assignByReference`: visits the snapshot in order and
     * cancels each task that, as currently stored, has type `taskType` and is
     * not COMPLETED.
     */
    method CancelOpenOfType(existing: seq<Task>, taskType: TaskType)
      requires Valid()
      requires forall t :: t in existing ==> t.id.Some? && t.id.value in taskRepository.tasks
      modifies taskRepository
      ensures Valid()
      ensures taskRepository.nextId == old(taskRepository.nextId)
      ensures taskRepository.tasks == CancelOpen(old(taskRepository.tasks), IdsOf(existing), taskType)
    {
      for m := 0 to |existing|
        invariant taskRepository.Valid()
        invariant taskRepository.nextId == old(taskRepository.nextId)
        invariant taskRepository.tasks == CancelOpen(old(taskRepository.tasks), IdsOf(existing[..m]), taskType)
      {
        var id := existing[m].id.value;
        assert existing[..m + 1] == existing[..m] + [existing[m]];
        IdsOfSnoc(existing[..m], existing[m]);
        CancelOneMore(old(taskRepository.tasks), IdsOf(existing[..m]), id, taskType);
        var current := taskRepository.tasks[id];
        if current.task == taskType && current.status != Completed {
          var _ := taskRepository.Save(current.(status := Cancelled));
        }
      }
      assert existing[..|existing|] == existing;
    }

    /** `updatePriority`: sets the priority of a stored task and returns it; a missing id raises NotFound. */
    method UpdatePriority(taskId: int, priority: Priority) returns (r: Result<Task, ServiceError>)
      requires Valid()
      modifies taskRepository
      ensures Valid()
      ensures taskRepository.nextId == old(taskRepository.nextId)
      ensures taskId !in old(taskRepository.tasks) ==>
                r == Failure(NotFound(taskId)) && taskRepository.tasks == old(taskRepository.tasks)
      ensures taskId in old(taskRepository.tasks) ==>
                && taskRepository.tasks == WithPriority(old(taskRepository.tasks), taskId, priority)
                && r == Success(taskRepository.tasks[taskId])
    {
      var found := FindTaskById(taskRepository.tasks, taskId);
      if found.Failure? {
        return Failure(found.error);
      }
      var task := found.value.(priority := Some(priority));
      var _ := taskRepository.Save(task);
      r := Success(task);
    }
  }
}
