# Task-lifecycle service, modelled in Dafny

This project models the task-lifecycle service of a workforce-management
application (`service/TaskServiceImpl.java`). Tasks are work items attached to
an external reference, such as an order. The service creates tasks, updates
their status and description, reassigns the whole task set of a reference,
filters tasks by a deadline window, and reads and updates priorities. It runs
over a task store (the repository).

Files and modules:

- `wrappers.dfy` (`Wrappers`): `Option` for Java `null`, and `Result` for a
  thrown exception.
- `task_model.dfy` (`TaskModel`): the task record of `model/TaskManagement.java`.
  It also holds the four enumerations, the create and update request items,
  the reassignment request of `dto/AssignByReferenceRequest.java`, and the
  service errors.
- `seqs.dfy` (`Seqs`): `Filter`, the meaning of a Java
  `stream().filter(...).collect(toList())`, with its counting and order lemmas.
- `task_repository.dfy` (`Repository`): the store. It is a class holding a
  `map<int, Task>` and the next id to hand out. `Save` assigns a new id on a
  record's first save and otherwise overwrites by id. `Listing` gives the
  store's iteration order. `FindByReference` is the query by
  (referenceId, referenceType).
- `task_rules.dfy` (`TaskRules`): the read-only operations as functions.
  These are `FindTaskById`, `FetchTasksByDate` and `GetByPriority`. The module
  also holds the specification functions of the state-changing operations
  (`RunUpdates`, `Reassign`, `CancelOpen`, `WithPriority`) and the lemmas
  about them.
- `task_service.dfy` (`TaskService`): class `TaskServiceImpl`. Its methods
  `CreateTasks`, `UpdateTasks`, `AssignByReference` and `UpdatePriority` loop
  and save through the repository. Each is proved against the specification
  functions above.

Modelling choices:

- Ids are handed out 1, 2, 3, … and nothing is deleted. So the store holds
  exactly the ids `1 .. nextId-1`, and iteration order is id order.
- Deadlines and priorities are `Option`s. A reassigned task has neither.
- In `fetchTasksByDate` the status test runs first, so a cancelled task with
  no deadline is simply skipped. Any other task of a selected assignee with no
  deadline makes the Java filter unbox `null`. The model turns that into
  `Failure(NullDeadline)`. `ReassignedTaskBreaksFetchByDate` shows the
  consequence: once reassignment has created a task, fetching by date for its
  assignee fails.
- `assignByReference` takes its snapshot of the reference's tasks once, before
  the loop. Its filter reads each snapshot object's current status, which the
  loop itself changes. The model reads the current stored record instead,
  because that record holds the same state. New tasks are not in the snapshot.
  That is why a type listed twice leaves two live tasks
  (`RepeatedTypeLeavesTwoLive`), and why "one live task per type" needs a
  list with no duplicates.
- COMPLETED and CANCELLED are terminal only by convention. `UpdateTasks` sets
  any status, as the code does; the model adds no transition check.

## Model

| member | source | states |
|---|---|---|
| `Repository.TaskRepository.Save` | service/TaskServiceImpl.java:48 | a record without an id is stored under the next id and appended to the listing; a record with an id overwrites that entry in place; the store stays well formed |
| `Repository.Listing` | service/TaskServiceImpl.java:117 | the store's records in id order, one per stored id |
| `Repository.ListedIffStored` | service/TaskServiceImpl.java:117 | a record is listed exactly when it is stored under its own id |
| `Repository.FindByReference` | service/TaskServiceImpl.java:69 | a task is in the result exactly when it is listed and has the given referenceId and referenceType |
| `Seqs.FilterCounts` | service/TaskServiceImpl.java:117-120 | a stream filter keeps each element that passes as often as it occurs, and drops every other |
| `Seqs.FilterAppend` | service/TaskServiceImpl.java:117-120 | a stream filter keeps input order: it distributes over concatenation |
| `TaskRules.FindTaskById` | service/TaskServiceImpl.java:29-33 | fails exactly when the id is not stored, and then with NotFound naming that id |
| `TaskRules.FindTaskByIdAgreesWithListing` | service/TaskServiceImpl.java:30-31 | a lookup succeeds exactly when some listed task carries the id, and it returns that listed task |
| `TaskService.TaskServiceImpl.CreateTasks` | service/TaskServiceImpl.java:36-51 | one task per item, in input order, with consecutive fresh ids; each is ASSIGNED with description "New task created." and carries the item's referenceId, referenceType, task type, assigneeId, priority and deadline; the listing gains exactly these tasks at its end |
| `TaskRules.PatchChangesOnlySuppliedFields` | service/TaskServiceImpl.java:59-60 | a present status or description overwrites that field; an absent one leaves it; no other field changes; an item with neither field leaves the record identical |
| `TaskService.TaskServiceImpl.UpdateTasks` | service/TaskServiceImpl.java:54-64 | the new store and the result are those of `RunUpdates` on the old store: items applied in order, each to the freshly fetched record, stopping at the first missing id |
| `TaskRules.UpdatesChangeOnlyNamedStatusAndDescription` | service/TaskServiceImpl.java:56-62 | an update batch adds and removes no task, changes only status and description, and leaves tasks no item names unchanged |
| `TaskRules.UpdateFailsIffSomeIdMissing` | service/TaskServiceImpl.java:57-58 | a batch raises exactly when some item names an id that is not stored |
| `TaskRules.UpdateFailureKeepsEarlierItems` | service/TaskServiceImpl.java:56-61 | a failing batch raises NotFound for the first missing id; the store is what the earlier items produced, with nothing rolled back and nothing later applied |
| `TaskRules.UpdateDistinctIdsPatchesEach` | service/TaskServiceImpl.java:54-64 | with distinct stored ids the batch succeeds and returns, in input order, each stored task patched by its item, which is also what is stored |
| `TaskRules.RunUpdatesIdsInOrder` | service/TaskServiceImpl.java:56-61 | a successful batch, repeated ids included, returns one task per item in input order, entry i being the task item i names |
| `TaskRules.FetchTasksByDate` | service/TaskServiceImpl.java:95-104 | raises exactly when a non-cancelled task of a selected assignee has no deadline; otherwise returns each task of a selected assignee that is not CANCELLED and is due inside [start, end] or before start and not COMPLETED, as often as it is listed, and nothing else |
| `TaskRules.FetchTasksByDateKeepsStoreOrder` | service/TaskServiceImpl.java:96-103 | a successful result is the listing filtered by that rule, in store order |
| `TaskRules.DateWindowBoundaries` | service/TaskServiceImpl.java:97-101 | for any deadline: a deadline inside [start, end] is kept for every status but CANCELLED; a deadline before start is kept exactly when the task is neither COMPLETED nor CANCELLED; with start <= end, a deadline after end is never kept; a CANCELLED task never is |
| `TaskRules.GetByPriority` | service/TaskServiceImpl.java:116-121 | exactly the listed tasks whose priority equals the argument, each as often as listed |
| `TaskRules.GetByPriorityKeepsStoreOrder` | service/TaskServiceImpl.java:117-120 | the result keeps store order: over a split listing it is the two parts' results in turn |
| `TaskService.TaskServiceImpl.UpdatePriority` | service/TaskServiceImpl.java:107-113 | a missing id raises NotFound and changes nothing; otherwise only that task's priority changes, and the updated task is returned |
| `TaskRules.UpdatedPriorityIsListed` | service/TaskServiceImpl.java:107-121 | after updating a task's priority to p, getByPriority(p) lists the updated task, and any other task exactly when it was listed before |
| `TaskService.TaskServiceImpl.AssignByReference` | service/TaskServiceImpl.java:67-92 | the new store is `Reassign` of the old one with the reference type's applicable types; the counter advances by one per type; the confirmation names the referenceId |
| `TaskService.TaskServiceImpl.CancelOpenOfType` | service/TaskServiceImpl.java:72-79 | visiting the snapshot cancels exactly its tasks of the given type that are not COMPLETED |
| `TaskRules.ExistingSnapshot` | service/TaskServiceImpl.java:69 | the snapshot holds stored records, and its ids are exactly the stored ids of the reference |
| `TaskRules.CancelOneMore` | service/TaskServiceImpl.java:73-78 | visiting one more id cancels its task when, as currently stored, it has the type and is not COMPLETED, and otherwise changes nothing |
| `TaskRules.ReassignStep` | service/TaskServiceImpl.java:71-89 | one turn of the loop, cancelling and then saving the new task, extends the reassignment by the next applicable type |
| `TaskRules.ReassignNothing` | service/TaskServiceImpl.java:71 | with no applicable type, reassignment changes nothing |
| `TaskRules.ReassignKeys` | service/TaskServiceImpl.java:88 | reassignment keeps every stored id and adds one id per applicable type |
| `TaskRules.NewIds` | service/TaskServiceImpl.java:88 | the ids the store hands out next are exactly the `count` ids from `nextId` on |
| `TaskRules.ReassignEffect` | service/TaskServiceImpl.java:71-88 | prior tasks of the reference with an applicable type that are not COMPLETED become CANCELLED with nothing else changed; every other prior task is unchanged; each applicable type gets one new ASSIGNED task with the request's referenceId, referenceType and assigneeId, description "Task reassigned", and no deadline or priority |
| `TaskRules.ReassignLeavesOneLivePerType` | service/TaskServiceImpl.java:71-89 | with no type listed twice, each applicable type has exactly one task of the reference that is neither COMPLETED nor CANCELLED: the new one |
| `TaskRules.RepeatedTypeLeavesTwoLive` | service/TaskServiceImpl.java:69-88 | a type listed at two positions i < j of the table, wherever they sit, leaves both new tasks (ids nextId + i and nextId + j) live |
| `TaskRules.ReassignTwiceCancelsFirstRun` | service/TaskServiceImpl.java:71-89 | a second reassignment of the same reference cancels every task the first one created, whatever the table |
| `TaskRules.ReassignTwiceLeavesOneLivePerType` | service/TaskServiceImpl.java:71-89 | with no type listed twice, after a second reassignment starting from the counter the first one left, each applicable type has exactly one live task of the reference: the one the second run created |
| `TaskRules.ReassignWellFormed` | service/TaskServiceImpl.java:81-88 | reassignment keeps the store well formed, with the counter advanced by one per applicable type |
| `TaskRules.ReassignedTaskBreaksFetchByDate` | service/TaskServiceImpl.java:81-101 | once reassignment has created a task, fetching by date for a set holding its assignee raises NullDeadline |

## Left out

- Spring wiring (`@Service`, constructor injection) is not modelled. The class constructor only takes the repository and the task-type table.
- The DTO mapper `TaskManagementMapperImpl` is not part of this model. Model records and DTOs are treated as identical.
- The body of `Task.getTasksByReferenceType` is not part of this model. The table is a constructor parameter, so every property holds for any table.
- The enumeration declarations are not part of this model. Their constants here stand in for them, and no proof depends on which constants exist.
- Repository internals (JPA, the derived queries) are not modelled. The store is a map with consecutive ids, and queries are filters over its id-ordered listing. Real iteration order may differ; then results differ only in order.
- Persistence failures and retries are not modelled. A save always succeeds.
- The wording of the confirmation string is not modelled. `AssignByReference` returns a value that carries the referenceId.
- The translation of exceptions into HTTP responses is not modelled. Exceptions are `Failure` results.
- Concurrency between interleaved requests is not modelled. Each operation runs alone.
- Nulls other than deadline, priority and a new record's id are not modelled. referenceId, referenceType, task type, assigneeId, status, the priority argument and the assignee set are never null here.
- TaskRules.UpdateDistinctIdsPatchesEach: covers batches that name each id at most once. With repeated ids the new store is still that of `RunUpdates`, and `RunUpdatesIdsInOrder` still fixes which task each entry of the returned list is; only the field values at repeated positions are not promised: see the next line.
- Returned records are value snapshots. `updateTasks` collects object references and maps them only after the loop, so with a store that hands out one shared object per id, a repeated id puts the same object in the list several times, each showing its final state. `RunUpdates` returns the value after each item instead; aliasing between returned records is not modelled.
