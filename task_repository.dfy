/**
 * The task store the service runs over (the Java `TaskRepository`): a map
 * from id to record plus the next id to hand out. Ids are handed out 1, 2, 3,
 * ... on first save and nothing is ever deleted, so the store holds exactly
 * the ids 1 .. nextId-1; store iteration order is id order.
 */
module Repository {
  import opened Wrappers
  import opened TaskModel
  import Seqs

  /** Every id below `nextId` is stored, under its own id, and no other. */
  ghost predicate WellFormed(tasks: map<int, Task>, nextId: int) {
    && nextId >= 1
    && (forall k :: k in tasks <==> 1 <= k < nextId)
    && (forall k :: k in tasks ==> tasks[k].id == Some(k))
  }

  /** The store's records in iteration order (`findAll`). */
  function Listing(tasks: map<int, Task>, nextId: int): (all: seq<Task>)
    requires WellFormed(tasks, nextId)
    ensures |all| == nextId - 1
    ensures forall i :: 0 <= i < |all| ==> all[i] == tasks[i + 1]
  {
    seq(nextId - 1, i requires 0 <= i < nextId - 1 => tasks[i + 1])
  }

  /** A record is listed exactly when it is stored under some id. */
  lemma ListedIffStored(tasks: map<int, Task>, nextId: int, t: Task)
    requires WellFormed(tasks, nextId)
    ensures t in Listing(tasks, nextId) <==> t.id.Some? && t.id.value in tasks && tasks[t.id.value] == t
  {
    var all := Listing(tasks, nextId);
    if t in all {
      var i :| 0 <= i < |all| && all[i] == t;
      assert tasks[i + 1] == t;
    }
    if t.id.Some? && t.id.value in tasks && tasks[t.id.value] == t {
      assert all[t.id.value - 1] == t;
    }
  }

  /** The tasks of one reference (`findByReferenceIdAndReferenceType`), in store order. */
  function FindByReference(all: seq<Task>, referenceId: int, referenceType: ReferenceType): (r: seq<Task>)
    ensures forall t :: t in r <==> t in all && t.referenceId == referenceId && t.referenceType == referenceType
  {
    var keep := (t: Task) => t.referenceId == referenceId && t.referenceType == referenceType;
    Seqs.FilterCounts(all, keep);
    Seqs.Filter(all, keep)
  }

  class TaskRepository {
    var tasks: map<int, Task>
    var nextId: int

    ghost predicate Valid()
      reads this
    {
      WellFormed(tasks, nextId)
    }

    constructor ()
      ensures Valid()
      ensures tasks == map[] && nextId == 1
    {
      tasks := map[];
      nextId := 1;
    }

    /**
     * `save`: a record without an id is stored under the next id (and returned
     * with it); a record with an id overwrites the one stored under that id.
     */
    method Save(t: Task) returns (saved: Task)
      requires Valid()
      requires t.id.Some? ==> t.id.value in tasks
      modifies this
      ensures Valid()
      ensures t.id.None? ==> && saved == t.(id := Some(old(nextId)))
                             && tasks == old(tasks)[old(nextId) := saved]
                             && nextId == old(nextId) + 1
      ensures t.id.Some? ==> && saved == t
                             && tasks == old(tasks)[t.id.value := t]
                             && nextId == old(nextId)
      ensures Listing(tasks, nextId) == if t.id.None? then old(Listing(tasks, nextId)) + [saved]
                                        else old(Listing(tasks, nextId))[t.id.value - 1 := t]
    {
      if t.id.None? {
        saved := t.(id := Some(nextId));
        tasks := tasks[nextId := saved];
        nextId := nextId + 1;
      } else {
        saved := t;
        tasks := tasks[t.id.value := t];
      }
    }
  }
}
