/**
 * The rules of the task-lifecycle service (service/TaskServiceImpl.java) as
 * functions over the store's values: the lookups and filters the service
 * computes directly, and the specification functions its state-changing
 * methods are proved against, with the properties those rules promise.
 */
module TaskRules {
  import opened Wrappers
  import opened TaskModel
  import opened Repository
  import Seqs

  const CreatedDescription: string := "New task created."
  const ReassignedDescription: string := "Task reassigned"

  // ---------------------------------------------------------------------------
  // findTaskById
  // ---------------------------------------------------------------------------

  /** `findTaskById`: the stored record, or NotFound naming the id. */
  function FindTaskById(tasks: map<int, Task>, id: int): (r: Result<Task, ServiceError>)
    ensures r.Failure? <==> id !in tasks
    ensures r.Failure? ==> r.error == NotFound(id)
  {
    if id in tasks then Success(tasks[id]) else Failure(NotFound(id))
  }

  /** A lookup succeeds exactly when the listing holds a record with that id, and returns that record. */
  lemma FindTaskByIdAgreesWithListing(tasks: map<int, Task>, nextId: int, id: int)
    requires WellFormed(tasks, nextId)
    ensures FindTaskById(tasks, id).Success? <==>
              exists i :: 0 <= i < |Listing(tasks, nextId)| && Listing(tasks, nextId)[i].id == Some(id)
    ensures FindTaskById(tasks, id).Success? ==>
              var t := FindTaskById(tasks, id).value;
              t in Listing(tasks, nextId) && t.id == Some(id)
  {
    var all := Listing(tasks, nextId);
    if id in tasks {
      assert all[id - 1].id == Some(id);
    }
    if exists i :: 0 <= i < |all| && all[i].id == Some(id) {
      var i :| 0 <= i < |all| && all[i].id == Some(id);
      assert tasks[i + 1].id == Some(i + 1);
    }
  }

  // ---------------------------------------------------------------------------
  // createTasks
  // ---------------------------------------------------------------------------

  /** `t` is what createTasks makes of `item`: the item's fields, status ASSIGNED, the fixed description. */
  predicate CreatedFrom(t: Task, item: CreateItem) {
    && t.status == Assigned
    && t.description == CreatedDescription
    && t.referenceId == item.referenceId
    && t.referenceType == item.referenceType
    && t.task == item.task
    && t.assigneeId == item.assigneeId
    && t.priority == item.priority
    && t.taskDeadlineTime == item.taskDeadlineTime
  }

  // ---------------------------------------------------------------------------
  // updateTasks
  // ---------------------------------------------------------------------------

  /** One update item applied to a record: each field that is present overwrites, an absent one does not. */
  function Patch(t: Task, item: UpdateItem): Task {
    var withStatus := if item.taskStatus.Some? then t.(status := item.taskStatus.value) else t;
    if item.description.Some? then withStatus.(description := item.description.value) else withStatus
  }

  /** `a` and `b` agree on every field except possibly status and description. */
  predicate SameApartFromStatusAndDescription(a: Task, b: Task) {
    a.(status := b.status, description := b.description) == b
  }

  /** Patching changes only the fields the item supplies. */
  lemma PatchChangesOnlySuppliedFields(t: Task, item: UpdateItem)
    ensures SameApartFromStatusAndDescription(t, Patch(t, item))
    ensures Patch(t, item).status == item.taskStatus.GetOr(t.status)
    ensures Patch(t, item).description == item.description.GetOr(t.description)
    ensures item.taskStatus.None? && item.description.None? ==> Patch(t, item) == t
  {
  }

  /** The store after an update batch, and what the batch returned or raised. */
  datatype UpdateRun = UpdateRun(tasks: map<int, Task>, result: Result<seq<Task>, ServiceError>)

  /** Records already returned, put in front of a run's own results (a failure stays a failure). */
  function Prepend(done: seq<Task>, run: UpdateRun): UpdateRun {
    match run.result
    case Success(rest) => UpdateRun(run.tasks, Success(done + rest))
    case Failure(_) => run
  }

  /** Putting nothing in front of a run leaves it as it is. */
  lemma PrependNothing(run: UpdateRun)
    ensures Prepend([], run) == run
  {
    if run.result.Success? {
      assert [] + run.result.value == run.result.value;
    }
  }

  /** Putting `done` in front of `[t]` in front of a run is putting `done + [t]` in front of it. */
  lemma PrependTwice(done: seq<Task>, t: Task, run: UpdateRun)
    ensures Prepend(done, Prepend([t], run)) == Prepend(done + [t], run)
  {
    if run.result.Success? {
      assert done + ([t] + run.result.value) == (done + [t]) + run.result.value;
    }
  }

  /**
   * `updateTasks`: items are applied one after another, each to the record as
   * the earlier items left it; the first item whose id is not stored raises
   * NotFound, and the items before it stay saved.
   */
  function RunUpdates(tasks: map<int, Task>, items: seq<UpdateItem>): UpdateRun
    decreases |items|
  {
    if items == [] then UpdateRun(tasks, Success([]))
    else if items[0].taskId !in tasks then UpdateRun(tasks, Failure(NotFound(items[0].taskId)))
    else
      var t := Patch(tasks[items[0].taskId], items[0]);
      Prepend([t], RunUpdates(tasks[items[0].taskId := t], items[1..]))
  }

  /** Some item of the batch names id `k`. */
  ghost predicate Mentions(items: seq<UpdateItem>, k: int) {
    exists i :: 0 <= i < |items| && items[i].taskId == k
  }

  /** An update batch adds and removes no record, changes only status and description, and leaves unnamed records alone. */
  lemma {:induction false} UpdatesChangeOnlyNamedStatusAndDescription(tasks: map<int, Task>, items: seq<UpdateItem>)
    ensures RunUpdates(tasks, items).tasks.Keys == tasks.Keys
    ensures forall k :: k in tasks ==> SameApartFromStatusAndDescription(tasks[k], RunUpdates(tasks, items).tasks[k])
    ensures forall k :: k in tasks && !Mentions(items, k) ==> RunUpdates(tasks, items).tasks[k] == tasks[k]
    decreases |items|
  {
    if items != [] && items[0].taskId in tasks {
      var id := items[0].taskId;
      var t := Patch(tasks[id], items[0]);
      var tasks' := tasks[id := t];
      UpdatesChangeOnlyNamedStatusAndDescription(tasks', items[1..]);
      PatchChangesOnlySuppliedFields(tasks[id], items[0]);
      forall k | k in tasks && !Mentions(items, k)
        ensures RunUpdates(tasks, items).tasks[k] == tasks[k]
      {
        assert !Mentions(items[1..], k) by {
          forall i | 0 <= i < |items[1..]| ensures items[1..][i].taskId != k {
            assert items[1..][i] == items[i + 1];
          }
        }
      }
    }
  }

  /** A batch fails exactly when some item names an id that is not stored. */
  lemma {:induction false} UpdateFailsIffSomeIdMissing(tasks: map<int, Task>, items: seq<UpdateItem>)
    ensures RunUpdates(tasks, items).result.Failure? <==> exists i :: 0 <= i < |items| && items[i].taskId !in tasks
    decreases |items|
  {
    if items != [] && items[0].taskId in tasks {
      var id := items[0].taskId;
      var tasks' := tasks[id := Patch(tasks[id], items[0])];
      assert tasks'.Keys == tasks.Keys;
      UpdateFailsIffSomeIdMissing(tasks', items[1..]);
      if exists i :: 0 <= i < |items| && items[i].taskId !in tasks {
        var i :| 0 <= i < |items| && items[i].taskId !in tasks;
        assert items[1..][i - 1].taskId !in tasks';
      }
      if RunUpdates(tasks, items).result.Failure? {
        var i :| 0 <= i < |items[1..]| && items[1..][i].taskId !in tasks';
        assert items[i + 1].taskId !in tasks;
      }
    }
  }

  /**
   * A failing batch raises NotFound for the first item whose id is missing,
   * and leaves the store as the items before it made it: those stay saved
   * and nothing after the failing item is applied.
   */
  lemma {:induction false} UpdateFailureKeepsEarlierItems(tasks: map<int, Task>, items: seq<UpdateItem>)
    requires RunUpdates(tasks, items).result.Failure?
    ensures exists k :: && 0 <= k < |items|
                        && items[k].taskId !in tasks
                        && (forall i :: 0 <= i < k ==> items[i].taskId in tasks)
                        && RunUpdates(tasks, items).result.error == NotFound(items[k].taskId)
                        && RunUpdates(tasks, items[..k]).result.Success?
                        && RunUpdates(tasks, items).tasks == RunUpdates(tasks, items[..k]).tasks
    decreases |items|
  {
    if items[0].taskId !in tasks {
      assert items[..0] == [];
    } else {
      var id := items[0].taskId;
      var t := Patch(tasks[id], items[0]);
      var tasks' := tasks[id := t];
      var rest := items[1..];
      assert tasks'.Keys == tasks.Keys;
      assert RunUpdates(tasks, items) == Prepend([t], RunUpdates(tasks', rest));
      UpdateFailureKeepsEarlierItems(tasks', rest);
      var k' :| && 0 <= k' < |rest|
                && rest[k'].taskId !in tasks'
                && (forall i :: 0 <= i < k' ==> rest[i].taskId in tasks')
                && RunUpdates(tasks', rest).result.error == NotFound(rest[k'].taskId)
                && RunUpdates(tasks', rest[..k']).result.Success?
                && RunUpdates(tasks', rest).tasks == RunUpdates(tasks', rest[..k']).tasks;
      var k := k' + 1;
      var prefix := items[..k];
      assert prefix[0] == items[0] && prefix[1..] == rest[..k'];
      assert RunUpdates(tasks, prefix) == Prepend([t], RunUpdates(tasks', rest[..k']));
      assert items[k] == rest[k'];
      forall i | 0 < i < k ensures items[i].taskId in tasks {
        assert rest[i - 1] == items[i];
      }
    }
  }

  /**
   * A successful batch returns one record per item, in input order, each the
   * task its item names, whether or not ids repeat.
   */
  lemma {:induction false} RunUpdatesIdsInOrder(tasks: map<int, Task>, nextId: int, items: seq<UpdateItem>)
    requires WellFormed(tasks, nextId)
    requires RunUpdates(tasks, items).result.Success?
    ensures |RunUpdates(tasks, items).result.value| == |items|
    ensures forall i :: 0 <= i < |items| ==> RunUpdates(tasks, items).result.value[i].id == Some(items[i].taskId)
    decreases |items|
  {
    if items != [] {
      var id := items[0].taskId;
      var t := Patch(tasks[id], items[0]);
      var tasks' := tasks[id := t];
      var rest := items[1..];
      PatchChangesOnlySuppliedFields(tasks[id], items[0]);
      assert t.id == Some(id);
      assert WellFormed(tasks', nextId);
      assert RunUpdates(tasks, items) == Prepend([t], RunUpdates(tasks', rest));
      RunUpdatesIdsInOrder(tasks', nextId, rest);
      var run' := RunUpdates(tasks', rest);
      assert RunUpdates(tasks, items).result.value == [t] + run'.result.value;
      forall i | 0 < i < |items| ensures RunUpdates(tasks, items).result.value[i].id == Some(items[i].taskId) {
        assert rest[i - 1] == items[i];
      }
    }
  }

  /** Items in a batch name pairwise different tasks. */
  predicate DistinctIds(items: seq<UpdateItem>) {
    forall i, j :: 0 <= i < j < |items| ==> items[i].taskId != items[j].taskId
  }

  /**
   * With every id present and no id named twice, a batch succeeds, returns one
   * record per item in input order, each the stored record patched by its item,
   * and stores exactly what it returns.
   */
  lemma {:induction false} UpdateDistinctIdsPatchesEach(tasks: map<int, Task>, items: seq<UpdateItem>)
    requires forall i :: 0 <= i < |items| ==> items[i].taskId in tasks
    requires DistinctIds(items)
    ensures RunUpdates(tasks, items).result.Success?
    ensures RunUpdates(tasks, items).tasks.Keys == tasks.Keys
    ensures |RunUpdates(tasks, items).result.value| == |items|
    ensures forall i :: 0 <= i < |items| ==>
              && RunUpdates(tasks, items).result.value[i] == Patch(tasks[items[i].taskId], items[i])
              && RunUpdates(tasks, items).tasks[items[i].taskId] == RunUpdates(tasks, items).result.value[i]
    decreases |items|
  {
    if items != [] {
      var id := items[0].taskId;
      var t := Patch(tasks[id], items[0]);
      var tasks' := tasks[id := t];
      var rest := items[1..];
      assert forall i :: 0 <= i < |rest| ==> rest[i] == items[i + 1];
      UpdateDistinctIdsPatchesEach(tasks', rest);
      UpdatesChangeOnlyNamedStatusAndDescription(tasks', rest);
      assert !Mentions(rest, id) by {
        forall i | 0 <= i < |rest| ensures rest[i].taskId != id {
          assert items[i + 1].taskId != items[0].taskId;
        }
      }
      var run := RunUpdates(tasks, items);
      var run' := RunUpdates(tasks', rest);
      assert run.result.value == [t] + run'.result.value;
      forall i | 0 < i < |items|
        ensures run.result.value[i] == Patch(tasks[items[i].taskId], items[i])
        ensures run.tasks[items[i].taskId] == run.result.value[i]
      {
        assert run.result.value[i] == run'.result.value[i - 1];
        assert items[i].taskId != id;
      }
    }
  }

  // ---------------------------------------------------------------------------
  // fetchTasksByDate
  // ---------------------------------------------------------------------------

  /** Not cancelled, and due inside [startDate, endDate], or overdue before startDate and not completed. */
  predicate DueInWindowOrOverdue(status: TaskStatus, deadline: int, startDate: int, endDate: int) {
    && status != Cancelled
    && ((startDate <= deadline && deadline <= endDate) || (deadline < startDate && status != Completed))
  }

  /** A task fetchTasksByDate returns. */
  predicate Fetched(t: Task, assigneeIds: set<int>, startDate: int, endDate: int) {
    && t.assigneeId in assigneeIds
    && t.taskDeadlineTime.Some?
    && DueInWindowOrOverdue(t.status, t.taskDeadlineTime.value, startDate, endDate)
  }

  /** A task on which the filter unboxes a null deadline: selected, not cancelled, no deadline. */
  predicate UnboxesNullDeadline(t: Task, assigneeIds: set<int>) {
    t.assigneeId in assigneeIds && t.status != Cancelled && t.taskDeadlineTime.None?
  }

  /**
   * `fetchTasksByDate` over the store listing: the tasks of the given assignees
   * that are due in the window or overdue and unfinished, never cancelled ones.
   * The status test runs first, so a cancelled task without a deadline is
   * skipped; any other selected task without a deadline makes the filter raise.
   */
  function FetchTasksByDate(all: seq<Task>, assigneeIds: set<int>, startDate: int, endDate: int)
    : (r: Result<seq<Task>, ServiceError>)
    ensures r.Failure? <==> exists i :: 0 <= i < |all| && UnboxesNullDeadline(all[i], assigneeIds)
    ensures r.Failure? ==> r.error == NullDeadline
    ensures r.Success? ==> forall t :: multiset(r.value)[t] ==
                             if Fetched(t, assigneeIds, startDate, endDate) then multiset(all)[t] else 0
  {
    if all == [] then Success([])
    else
      assert all == [all[0]] + all[1..];
      var t := all[0];
      var rest := FetchTasksByDate(all[1..], assigneeIds, startDate, endDate);
      if t.assigneeId !in assigneeIds || t.status == Cancelled then rest
      else if t.taskDeadlineTime.None? then Failure(NullDeadline)
      else if rest.Failure? then rest
      else if DueInWindowOrOverdue(t.status, t.taskDeadlineTime.value, startDate, endDate) then Success([t] + rest.value)
      else rest
  }

  /** On success the fetched tasks come in store order: the listing filtered by Fetched. */
  lemma {:induction false} FetchTasksByDateKeepsStoreOrder(all: seq<Task>, assigneeIds: set<int>, startDate: int, endDate: int)
    requires FetchTasksByDate(all, assigneeIds, startDate, endDate).Success?
    ensures FetchTasksByDate(all, assigneeIds, startDate, endDate).value ==
              Seqs.Filter(all, (t: Task) => Fetched(t, assigneeIds, startDate, endDate))
  {
    if all != [] {
      var t := all[0];
      FetchTasksByDateKeepsStoreOrder(all[1..], assigneeIds, startDate, endDate);
      var kept := Seqs.Filter(all[1..], (t: Task) => Fetched(t, assigneeIds, startDate, endDate));
      assert FetchTasksByDate(all[1..], assigneeIds, startDate, endDate).value == kept;
      if Fetched(t, assigneeIds, startDate, endDate) {
        assert FetchTasksByDate(all, assigneeIds, startDate, endDate).value == [t] + kept;
      } else {
        assert FetchTasksByDate(all, assigneeIds, startDate, endDate).value == kept;
      }
    }
  }

  /**
   * The window's rule for any deadline: inside [start, end] every status but
   * CANCELLED is kept; before start a task is kept exactly when it is neither
   * COMPLETED nor CANCELLED; after end it never is; a CANCELLED task never is.
   */
  lemma DateWindowBoundaries(startDate: int, endDate: int, status: TaskStatus, deadline: int)
    ensures status != Cancelled && startDate <= deadline <= endDate ==>
              DueInWindowOrOverdue(status, deadline, startDate, endDate)
    ensures deadline < startDate ==>
              (DueInWindowOrOverdue(status, deadline, startDate, endDate) <==> status != Cancelled && status != Completed)
    ensures startDate <= endDate && endDate < deadline ==> !DueInWindowOrOverdue(status, deadline, startDate, endDate)
    ensures !DueInWindowOrOverdue(Completed, startDate - 1, startDate, endDate)
    ensures !DueInWindowOrOverdue(Cancelled, deadline, startDate, endDate)
  {
  }

  // ---------------------------------------------------------------------------
  // getByPriority and updatePriority
  // ---------------------------------------------------------------------------

  /** `getByPriority`: exactly the listed tasks whose priority is `priority`, each as often as listed. */
  function GetByPriority(all: seq<Task>, priority: Priority): (r: seq<Task>)
    ensures forall t :: t in r <==> t in all && t.priority == Some(priority)
    ensures forall t :: multiset(r)[t] == if t.priority == Some(priority) then multiset(all)[t] else 0
  {
    var keep := (t: Task) => t.priority == Some(priority);
    Seqs.FilterCounts(all, keep);
    Seqs.Filter(all, keep)
  }

  /** getByPriority keeps store order: over a split listing it returns the two parts' results in turn. */
  lemma GetByPriorityKeepsStoreOrder(front: seq<Task>, back: seq<Task>, priority: Priority)
    ensures GetByPriority(front + back, priority) == GetByPriority(front, priority) + GetByPriority(back, priority)
  {
    Seqs.FilterAppend(front, back, (t: Task) => t.priority == Some(priority));
  }

  /** The store after `updatePriority` of a stored id: only that record's priority changes. */
  function WithPriority(tasks: map<int, Task>, id: int, priority: Priority): map<int, Task>
    requires id in tasks
  {
    tasks[id := tasks[id].(priority := Some(priority))]
  }

  /**
   * After updatePriority(id, p), getByPriority(p) lists the updated task, and
   * any other task exactly when it was listed before.
   */
  lemma UpdatedPriorityIsListed(tasks: map<int, Task>, nextId: int, id: int, priority: Priority)
    requires WellFormed(tasks, nextId) && id in tasks
    ensures WellFormed(WithPriority(tasks, id, priority), nextId)
    ensures forall t :: t in GetByPriority(Listing(WithPriority(tasks, id, priority), nextId), priority) <==>
              (t == WithPriority(tasks, id, priority)[id] ||
               (t in GetByPriority(Listing(tasks, nextId), priority) && t.id != Some(id)))
  {
    var tasks' := WithPriority(tasks, id, priority);
    assert WellFormed(tasks', nextId);
    forall t ensures t in Listing(tasks', nextId) <==> (t == tasks'[id] || (t in Listing(tasks, nextId) && t.id != Some(id))) {
      ListedIffStored(tasks', nextId, t);
      ListedIffStored(tasks, nextId, t);
    }
  }

  // ---------------------------------------------------------------------------
  // assignByReference
  // ---------------------------------------------------------------------------

  /** `t` belongs to the request's reference. */
  predicate OfReference(t: Task, request: AssignByReferenceRequest) {
    t.referenceId == request.referenceId && t.referenceType == request.referenceType
  }

  /** A prior task that reassignment cancels: of the reference, of an applicable type, not COMPLETED. */
  predicate Superseded(t: Task, request: AssignByReferenceRequest, applicable: seq<TaskType>) {
    OfReference(t, request) && t.task in applicable && t.status != Completed
  }

  /** The record reassignment creates for one task type, before the store gives it an id. */
  function ReassignedTask(request: AssignByReferenceRequest, taskType: TaskType): Task {
    Task(None, request.referenceId, request.referenceType, taskType, ReassignedDescription,
         Assigned, request.assigneeId, None, None)
  }

  /**
   * The store after `assignByReference` with applicable types `applicable`:
   * superseded prior tasks are cancelled, every other prior task is kept, and
   * the j-th applicable type gets a new task under id nextId + j.
   */
  function Reassign(tasks: map<int, Task>, nextId: int, request: AssignByReferenceRequest, applicable: seq<TaskType>)
    : map<int, Task>
  {
    map k | k in tasks.Keys + NewIds(nextId, |applicable|) ::
      if k in tasks then
        (if Superseded(tasks[k], request, applicable) then tasks[k].(status := Cancelled) else tasks[k])
      else
        ReassignedTask(request, applicable[k - nextId]).(id := Some(k))
  }

  /** The `count` ids the store hands out next, starting at `nextId`. */
  function NewIds(nextId: int, count: nat): (ids: set<int>)
    ensures forall k :: k in ids <==> nextId <= k < nextId + count
  {
    if count == 0 then {} else NewIds(nextId, count - 1) + {nextId + count - 1}
  }

  /** The ids of the stored tasks of the request's reference (the snapshot reassignment works on). */
  function ReferenceIds(tasks: map<int, Task>, request: AssignByReferenceRequest): set<int> {
    set k | k in tasks && OfReference(tasks[k], request)
  }

  /** Cancel, among the ids `ids`, the stored tasks of type `taskType` that are not COMPLETED. */
  function CancelOpen(tasks: map<int, Task>, ids: set<int>, taskType: TaskType): map<int, Task> {
    map k | k in tasks ::
      if k in ids && tasks[k].task == taskType && tasks[k].status != Completed
      then tasks[k].(status := Cancelled) else tasks[k]
  }

  /** The ids of the given tasks. */
  function IdsOf(s: seq<Task>): set<int> {
    set t | t in s && t.id.Some? :: t.id.value
  }

  /** Reassignment with no applicable type changes nothing. */
  lemma ReassignNothing(tasks: map<int, Task>, nextId: int, request: AssignByReferenceRequest, applicable: seq<TaskType>)
    requires applicable == []
    ensures Reassign(tasks, nextId, request, applicable) == tasks
  {
    var r := Reassign(tasks, nextId, request, applicable);
    assert r.Keys == tasks.Keys;
    forall k | k in tasks ensures r[k] == tasks[k] {
      assert !Superseded(tasks[k], request, applicable);
    }
  }

  /** Reassignment keeps every stored id and adds the `|applicable|` ids from `nextId` on. */
  lemma ReassignKeys(tasks: map<int, Task>, nextId: int, request: AssignByReferenceRequest, applicable: seq<TaskType>)
    ensures forall k :: k in Reassign(tasks, nextId, request, applicable) <==>
              k in tasks || nextId <= k < nextId + |applicable|
  {
  }

  /**
   * The snapshot reassignment takes (`findByReferenceIdAndReferenceType` on the
   * listing) holds stored records, and their ids are the reference's ids.
   */
  lemma ExistingSnapshot(tasks: map<int, Task>, nextId: int, request: AssignByReferenceRequest, existing: seq<Task>)
    requires WellFormed(tasks, nextId)
    requires existing == FindByReference(Listing(tasks, nextId), request.referenceId, request.referenceType)
    ensures forall t :: t in existing ==> t.id.Some? && t.id.value in tasks && tasks[t.id.value] == t
    ensures IdsOf(existing) == ReferenceIds(tasks, request)
  {
    forall t | t in existing ensures t.id.Some? && t.id.value in tasks && tasks[t.id.value] == t {
      ListedIffStored(tasks, nextId, t);
    }
    forall k | k in ReferenceIds(tasks, request) ensures k in IdsOf(existing) {
      ListedIffStored(tasks, nextId, tasks[k]);
      assert tasks[k] in existing;
    }
  }

  /** Adding one task to a sequence adds its id to the sequence's ids. */
  lemma IdsOfSnoc(s: seq<Task>, t: Task)
    requires t.id.Some?
    ensures IdsOf(s + [t]) == IdsOf(s) + {t.id.value}
  {

  }

  /**
   * Visiting one more id while cancelling: the task under it is cancelled
   * when, as currently stored, it has the type and is not COMPLETED, and
   * nothing changes otherwise.
   */
  lemma CancelOneMore(before: map<int, Task>, ids: set<int>, id: int, taskType: TaskType)
    requires id in before
    ensures var current := CancelOpen(before, ids, taskType);
            var next := CancelOpen(before, ids + {id}, taskType);
            && id in current
            && (current[id].task == taskType && current[id].status != Completed ==>
                  next == current[id := current[id].(status := Cancelled)])
            && (!(current[id].task == taskType && current[id].status != Completed) ==> next == current)
  {

  }

  /**
   * One turn of the reassignment loop: cancelling the snapshot's open tasks of
   * the next type and saving its new task extends the reassignment by that type.
   */
  lemma ReassignStep(tasks: map<int, Task>, nextId: int, request: AssignByReferenceRequest,
                     applicable: seq<TaskType>, j: int)
    requires forall k :: k in tasks ==> k < nextId
    requires 0 <= j < |applicable|
    ensures CancelOpen(Reassign(tasks, nextId, request, applicable[..j]), ReferenceIds(tasks, request), applicable[j])
              [nextId + j := ReassignedTask(request, applicable[j]).(id := Some(nextId + j))]
            == Reassign(tasks, nextId, request, applicable[..j + 1])
  {

  }

  /** The live tasks of one type for the request's reference. */
  function LiveOfType(tasks: map<int, Task>, request: AssignByReferenceRequest, taskType: TaskType): set<int> {
    set k | k in tasks && OfReference(tasks[k], request) && tasks[k].task == taskType && IsLive(tasks[k])
  }

  /** The applicable-type list names no type twice. */
  predicate NoDuplicates(applicable: seq<TaskType>) {
    forall i, j :: 0 <= i < j < |applicable| ==> applicable[i] != applicable[j]
  }

  /**
   * What reassignment does to each record: superseded prior tasks become
   * CANCELLED with nothing else changed, every other prior task (COMPLETED
   * ones, other references, other types) is left as it was, and each
   * applicable type gets one ASSIGNED task of the request's reference and
   * assignee, with no deadline and no priority.
   */
  lemma ReassignEffect(tasks: map<int, Task>, nextId: int, request: AssignByReferenceRequest, applicable: seq<TaskType>)
    requires forall k :: k in tasks ==> k < nextId
    ensures forall k :: k in Reassign(tasks, nextId, request, applicable) <==>
              k in tasks || nextId <= k < nextId + |applicable|
    ensures forall k :: k in tasks && Superseded(tasks[k], request, applicable) ==>
              Reassign(tasks, nextId, request, applicable)[k] == tasks[k].(status := Cancelled)
    ensures forall k :: k in tasks && !Superseded(tasks[k], request, applicable) ==>
              Reassign(tasks, nextId, request, applicable)[k] == tasks[k]
    ensures forall j :: 0 <= j < |applicable| ==>
              var t := Reassign(tasks, nextId, request, applicable)[nextId + j];
              && t.id == Some(nextId + j) && OfReference(t, request) && t.task == applicable[j]
              && t.assigneeId == request.assigneeId && t.status == Assigned
              && t.description == ReassignedDescription
              && t.taskDeadlineTime.None? && t.priority.None?
  {
  }

  /**
   * With no type listed twice, reassignment leaves, for every applicable type,
   * exactly one live task of the reference: the one it created.
   */
  lemma ReassignLeavesOneLivePerType(tasks: map<int, Task>, nextId: int, request: AssignByReferenceRequest,
                                     applicable: seq<TaskType>, j: int)
    requires forall k :: k in tasks ==> k < nextId
    requires NoDuplicates(applicable)
    requires 0 <= j < |applicable|
    ensures LiveOfType(Reassign(tasks, nextId, request, applicable), request, applicable[j]) == {nextId + j}
  {

  }

  /**
   * Why the list must not repeat a type: a type listed twice, wherever the
   * two entries sit, gets two new tasks, and the later does not cancel the
   * earlier (the snapshot holds only the tasks stored before the call), so
   * both stay live.
   */
  lemma RepeatedTypeLeavesTwoLive(tasks: map<int, Task>, nextId: int, request: AssignByReferenceRequest,
                                  applicable: seq<TaskType>, i: int, j: int)
    requires forall k :: k in tasks ==> k < nextId
    requires 0 <= i < j < |applicable| && applicable[i] == applicable[j]
    ensures {nextId + i, nextId + j} <= LiveOfType(Reassign(tasks, nextId, request, applicable), request, applicable[i])
  {

  }

  /** After reassignment every id is below the advanced counter. */
  lemma ReassignBelow(tasks: map<int, Task>, nextId: int, request: AssignByReferenceRequest, applicable: seq<TaskType>)
    requires forall k :: k in tasks ==> k < nextId
    ensures forall k :: k in Reassign(tasks, nextId, request, applicable) ==> k < nextId + |applicable|
  {
  }

  /** A stored task that reassignment supersedes is kept under its id and cancelled. */
  lemma SupersededIsCancelled(tasks: map<int, Task>, nextId: int, request: AssignByReferenceRequest,
                              applicable: seq<TaskType>, k: int)
    requires k in tasks && Superseded(tasks[k], request, applicable)
    ensures k in Reassign(tasks, nextId, request, applicable)
    ensures Reassign(tasks, nextId, request, applicable)[k].status == Cancelled
  {
  }

  /** After one reassignment, every id is below the advanced counter and each created task is superseded by the next run. */
  lemma FirstRunCreated(tasks: map<int, Task>, nextId: int, request: AssignByReferenceRequest,
                        applicable: seq<TaskType>, j: int)
    requires forall k :: k in tasks ==> k < nextId
    requires 0 <= j < |applicable|
    ensures var once := Reassign(tasks, nextId, request, applicable);
            && (forall k :: k in once ==> k < nextId + |applicable|)
            && nextId + j in once && Superseded(once[nextId + j], request, applicable)
  {
    ReassignEffect(tasks, nextId, request, applicable);
  }

  /** Reassigning the same reference twice: the second run cancels every task the first run created. */
  lemma ReassignTwiceCancelsFirstRun(tasks: map<int, Task>, nextId: int, request: AssignByReferenceRequest,
                                     applicable: seq<TaskType>, j: int)
    requires forall k :: k in tasks ==> k < nextId
    requires 0 <= j < |applicable|
    ensures var once := Reassign(tasks, nextId, request, applicable);
            var twice := Reassign(once, nextId + |applicable|, request, applicable);
            && twice[nextId + j].status == Cancelled
  {
    var once := Reassign(tasks, nextId, request, applicable);
    FirstRunCreated(tasks, nextId, request, applicable, j);
    SupersededIsCancelled(once, nextId + |applicable|, request, applicable, nextId + j);
  }

  /**
   * Reassigning the same reference twice with no type listed twice, the second
   * run starting from the counter the first one left (`nextId2`): each
   * applicable type again has exactly one live task, the one the second run created.
   */
  lemma ReassignTwiceLeavesOneLivePerType(tasks: map<int, Task>, nextId: int, nextId2: int,
                                          request: AssignByReferenceRequest, applicable: seq<TaskType>, j: int)
    requires forall k :: k in tasks ==> k < nextId
    requires nextId2 == nextId + |applicable|
    requires NoDuplicates(applicable)
    requires 0 <= j < |applicable|
    ensures LiveOfType(Reassign(Reassign(tasks, nextId, request, applicable), nextId2, request, applicable),
                       request, applicable[j]) == {nextId2 + j}
  {
    ReassignBelow(tasks, nextId, request, applicable);
    ReassignLeavesOneLivePerType(Reassign(tasks, nextId, request, applicable), nextId2, request, applicable, j);
  }

  /** Reassignment keeps the store well formed, the counter advanced by one per applicable type. */
  lemma ReassignWellFormed(tasks: map<int, Task>, nextId: int, request: AssignByReferenceRequest, applicable: seq<TaskType>)
    requires WellFormed(tasks, nextId)
    ensures WellFormed(Reassign(tasks, nextId, request, applicable), nextId + |applicable|)
  {
  }

  /**
   * The null-deadline hazard: once reassignment has created a task, fetching
   * by date for a set that holds its assignee raises instead of returning.
   */
  lemma ReassignedTaskBreaksFetchByDate(tasks: map<int, Task>, nextId: int, request: AssignByReferenceRequest,
                                        applicable: seq<TaskType>, assigneeIds: set<int>, startDate: int, endDate: int)
    requires WellFormed(tasks, nextId)
    requires |applicable| > 0 && request.assigneeId in assigneeIds
    ensures WellFormed(Reassign(tasks, nextId, request, applicable), nextId + |applicable|)
    ensures FetchTasksByDate(Listing(Reassign(tasks, nextId, request, applicable), nextId + |applicable|),
                             assigneeIds, startDate, endDate) == Failure(NullDeadline)
  {
    ReassignWellFormed(tasks, nextId, request, applicable);
    var all := Listing(Reassign(tasks, nextId, request, applicable), nextId + |applicable|);
    assert UnboxesNullDeadline(all[nextId - 1], assigneeIds);
  }
}
