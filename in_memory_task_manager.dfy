/**
 * The in-memory task manager: three id-keyed stores (plain tasks, epics, subtasks),
 * an index of tasks and subtasks keyed by start time (a TreeMap, so at most one entry
 * per start time, listed in ascending start order), and an id counter.
 *
 * The stores and the index hold entity OBJECTS. The manager changes an entity through
 * its fields, so a change is seen through every map that holds the object; in
 * particular an update moves a task's interval without re-keying its index entry.
 *
 * Calls to the history manager are recorded, in order, in the ghost log `history`;
 * what the history manager does with them is not part of this model.
 */
module ManagersTypes {
  import opened TaskTypes
  import opened OrderedKeys
  import opened EpicRollup
  import opened SubtaskIds

  /** A call on the history manager: add(entity), remove(id), or a removal from the list getHistory() returned. */
  datatype HistoryCall = Add(entity: Task) | Remove(id: int) | RemoveFromReturnedList(entity: Task)

  /**
   * `t` may sit beside index entry `entry`: it is the same task (same id), or t's
   * interval [start, end) ends no later than the entry starts or starts no earlier
   * than the entry ends. Touching endpoints do not clash.
   */
  predicate Compatible(entry: Task, t: Task)
    reads entry, t
  {
    entry.id == t.id || t.End() <= entry.start || t.start >= entry.End()
  }

  /** `t` clashes with no entry of `index`; trivially so when the index is empty. */
  predicate Fits(index: map<int, Task>, t: Task)
    reads index.Values, t
  {
    forall k :: k in index ==> Compatible(index[k], t)
  }

  /** No two index entries with different ids have overlapping intervals. */
  ghost predicate NoOverlap(index: map<int, Task>)
    reads index.Values
  {
    forall a, b :: a in index.Values && b in index.Values ==> Compatible(a, b)
  }

  /**
   * Indexing an entity that passed the overlap check keeps the index free of overlaps,
   * whichever entry its start time replaces.
   */
  lemma InsertKeepsNoOverlap(index: map<int, Task>, t: Task)
    requires NoOverlap(index) && Fits(index, t)
    ensures NoOverlap(index[t.start := t])
  {
    var after := index[t.start := t];
    forall a, b | a in after.Values && b in after.Values
      ensures Compatible(a, b)
    {
      ValueHasKey(after, a);
      ValueHasKey(after, b);
      var i :| i in after && after[i] == a;
      var j :| j in after && after[j] == b;
      if a != t {
        assert index[i] == a;
      }
      if b != t {
        assert index[j] == b;
      }
    }
  }

  /** Removing entries from an overlap-free index leaves it overlap-free. */
  lemma NoOverlapShrinks(index: map<int, Task>, keys: set<int>)
    requires NoOverlap(index)
    ensures NoOverlap(index - keys)
  {
    var after := index - keys;
    forall a, b | a in after.Values && b in after.Values
      ensures Compatible(a, b)
    {
      ValueHasKey(after, a);
      ValueHasKey(after, b);
      var i :| i in after && after[i] == a;
      var j :| j in after && after[j] == b;
      assert index[i] == a && index[j] == b;
    }
  }

  /** Overlap-freedom depends only on the indexed entities: changing other objects keeps it. */
  twostate lemma NoOverlapFrame(index: map<int, Task>)
    requires unchanged(index.Values)
    ensures NoOverlap(index) == old(NoOverlap(index))
  {
  }

  /** What the epic helpers read from a subtask. */
  function SlotOf(t: Task): Slot
    reads t
  {
    Slot(t.start, t.End(), t.duration, t.status)
  }

  /** The start times of a set of entities. */
  ghost function StartsOf(ts: set<Task>): set<int>
    reads ts
  {
    set t | t in ts :: t.start
  }

  /** The ids a list mentions. */
  ghost function Elements(s: seq<int>): set<int> {
    set x | x in s
  }

  /** One remove(id) call per id of `ids`, in that order. */
  function Removals(ids: seq<int>): (r: seq<HistoryCall>)
    ensures |r| == |ids|
    ensures forall i :: 0 <= i < |ids| ==> r[i] == Remove(ids[i])
  {
    seq(|ids|, i requires 0 <= i < |ids| => Remove(ids[i]))
  }

  /**
   * Which kinds each map can hold: the epic store only epics, the subtask store only
   * subtasks, the index never an epic. The task store takes whatever createTask(Task)
   * and setStatusForTask are given.
   */
  ghost predicate WellKinded(epics: map<int, Task>, subtasks: map<int, Task>, index: map<int, Task>) {
    && (forall e :: e in epics.Values ==> e.kind == Epic)
    && (forall s :: s in subtasks.Values ==> s.kind == Subtask)
    && (forall t :: t in index.Values ==> t.kind != Epic)
  }

  /** Every key of the three stores has already been issued by a counter now at `createdID`. */
  ghost predicate Issued(tasks: map<int, Task>, epics: map<int, Task>, subtasks: map<int, Task>, createdID: int) {
    && (forall k :: k in tasks ==> k <= createdID)
    && (forall k :: k in epics ==> k <= createdID)
    && (forall k :: k in subtasks ==> k <= createdID)
  }

  /** Every listed id is a key of `store`. */
  ghost predicate AllIn(ids: seq<int>, store: map<int, Task>) {
    forall i :: 0 <= i < |ids| ==> ids[i] in store
  }

  /** One Slot per listed id, read from the subtask store, in list order. */
  ghost function Snapshot(store: map<int, Task>, ids: seq<int>): (r: seq<Slot>)
    reads store.Values
    requires AllIn(ids, store)
    ensures |r| == |ids|
    ensures forall i :: 0 <= i < |ids| ==> r[i] == SlotOf(store[ids[i]])
  {
    seq(|ids|, i requires 0 <= i < |ids| reads store.Values => SlotOf(store[ids[i]]))
  }

  /** The stored parent epic of subtask `s`, as a frame. */
  ghost function ParentOf(epics: map<int, Task>, s: Task): set<Task> {
    if s.epicId in epics then {epics[s.epicId]} else {}
  }

  /** The parent epic of the stored subtask `id`, as a frame. */
  ghost function StoredParent(epics: map<int, Task>, subtasks: map<int, Task>, id: int): set<Task> {
    if id in subtasks && subtasks[id].epicId in epics then {epics[subtasks[id].epicId]} else {}
  }

  class InMemoryTaskManager {
    var tasks: map<int, Task>
    var epics: map<int, Task>
    var subtasks: map<int, Task>
    /** Start time -> entity; an entry keeps its key when the entity's start later changes. */
    var index: map<int, Task>
    var createdID: int
    ghost var history: seq<HistoryCall>

    constructor ()
      ensures WellKinded(epics, subtasks, index) && Issued(tasks, epics, subtasks, createdID)
      ensures tasks == map[] && epics == map[] && subtasks == map[] && index == map[]
      ensures createdID == 0 && history == []
    {
      tasks, epics, subtasks, index := map[], map[], map[], map[];
      createdID := 0;
      history := [];
    }

    /** creatingID: the counter goes up by one and its new value is the id. */
    method CreatingID() returns (id: int)
      modifies this`createdID
      ensures createdID == old(createdID) + 1 && id == createdID
    {
      createdID := createdID + 1;
      id := createdID;
    }

    /** createTask(Task): store under a new id with status NEW, then try to index it. */
    method CreateTask(task: Task) returns (id: int)
      requires WellKinded(epics, subtasks, index)
      modifies this`createdID, this`tasks, this`index, task`id, task`status
      ensures WellKinded(epics, subtasks, index)
      ensures id == old(createdID) + 1 && createdID == id
      ensures old(Issued(tasks, epics, subtasks, createdID)) ==> id !in old(tasks) && id !in old(epics) && id !in old(subtasks) && Issued(tasks, epics, subtasks, createdID)
      ensures tasks == old(tasks)[id := task]
      ensures task.id == id && task.status == NEW
      ensures index == if task.kind != Epic && Fits(old(index), task) then old(index)[task.start := task] else old(index)
      ensures old(NoOverlap(index)) && task !in old(index.Values) ==> NoOverlap(index)
    {
      id := CreatingID();
      task.id := id;
      tasks := tasks[id := task];
      task.status := NEW;
      AddTasksInPrioritizedList(task);
    }

    /**
     * createTask(Epic): a new id, status NEW (not rolled up), the time fields set by the
     * epic time helpers from whatever subtask ids the epic already lists, then stored.
     */
    method CreateEpic(epic: Task) returns (id: int)
      requires WellKinded(epics, subtasks, index) && epic.kind == Epic
      requires AllIn(epic.subtaskIds, subtasks)
      modifies this`createdID, this`epics, epic`id, epic`status, epic`start, epic`endTime, epic`duration
      ensures WellKinded(epics, subtasks, index)
      ensures id == old(createdID) + 1 && createdID == id
      ensures old(Issued(tasks, epics, subtasks, createdID)) ==> id !in old(tasks) && id !in old(epics) && id !in old(subtasks) && Issued(tasks, epics, subtasks, createdID)
      ensures epics == old(epics)[id := epic]
      ensures epic.id == id && epic.status == NEW
      ensures var ids := epic.subtaskIds;
        && epic.start == (if ids == [] then MaxTime else subtasks[ids[|ids| - 1]].start)
        && epic.endTime == (if ids == [] then MinTime else subtasks[ids[|ids| - 1]].End())
      ensures epic.duration == epic.endTime - epic.start
    {
      id := CreatingID();
      epic.id := id;
      epic.status := NEW;
      var _ := SetStartTimeEpic(epic);
      var _ := SetEndTimeEpic(epic);
      var _ := SetDurationEpic(epic);
      epics := epics[id := epic];
    }

    /**
     * createTask(Subtask): the id is issued in any case. Only when the parent epic is
     * stored is the subtask stored with status NEW, indexed if it fits, appended to the
     * epic's list, and the epic's status and times recomputed.
     */
    method CreateSubtask(subtask: Task) returns (id: int)
      requires WellKinded(epics, subtasks, index) && subtask.kind == Subtask
      requires subtask.epicId in epics ==> AllIn(epics[subtask.epicId].subtaskIds, subtasks)
      modifies this`createdID, this`subtasks, this`index, this`epics, subtask`id, subtask`status
      modifies ParentOf(epics, subtask)`subtaskIds, ParentOf(epics, subtask)`status
      modifies ParentOf(epics, subtask)`start, ParentOf(epics, subtask)`endTime, ParentOf(epics, subtask)`duration
      ensures WellKinded(epics, subtasks, index)
      ensures id == old(createdID) + 1 && createdID == id
      ensures old(Issued(tasks, epics, subtasks, createdID)) ==> id !in old(tasks) && id !in old(epics) && id !in old(subtasks) && Issued(tasks, epics, subtasks, createdID)
      ensures epics == old(epics)
      ensures subtask.epicId !in epics ==>
        && subtasks == old(subtasks) && index == old(index)
        && subtask.id == old(subtask.id) && subtask.status == old(subtask.status)
      ensures subtask.epicId in epics ==>
        && subtasks == old(subtasks)[id := subtask]
        && subtask.id == id && subtask.status == NEW
        && index == (if Fits(old(index), subtask) then old(index)[subtask.start := subtask] else old(index))
      ensures old(NoOverlap(index)) && subtask !in old(index.Values) ==> NoOverlap(index)
      ensures subtask.epicId in epics ==>
        var epic := epics[subtask.epicId];
        && epic.subtaskIds == old(epic.subtaskIds) + [id]
        && epic.status == IN_PROGRESS
        && AllIn(epic.subtaskIds, subtasks)
        && epic.start == LastStartBefore(Snapshot(subtasks, epic.subtaskIds), old(epic.start))
        && epic.endTime == LastEndAfter(Snapshot(subtasks, epic.subtaskIds), old(epic.endTime))
        && epic.duration == old(epic.duration) + TotalDuration(Snapshot(subtasks, epic.subtaskIds))
    {
      id := CreatingID();
      var epicID := subtask.epicId;
      if epicID in epics {
        StoreSubtask(subtask, id);
        LinkToEpic(epicID, id, old(index), subtask);
      }
    }

    /**
     * The first half of createTask(Subtask) when the parent epic is stored: the subtask
     * takes `id` and status NEW, is stored under `id`, and is indexed if it fits.
     */
    method StoreSubtask(subtask: Task, id: int)
      requires WellKinded(epics, subtasks, index) && subtask.kind == Subtask
      modifies this`subtasks, this`index, subtask`id, subtask`status
      ensures WellKinded(epics, subtasks, index)
      ensures subtasks == old(subtasks)[id := subtask]
      ensures subtask.id == id && subtask.status == NEW
      ensures index == if Fits(old(index), subtask) then old(index)[subtask.start := subtask] else old(index)
      ensures old(NoOverlap(index)) && subtask !in old(index.Values) ==> NoOverlap(index)
      ensures old(Issued(tasks, epics, subtasks, createdID)) && id <= createdID ==> Issued(tasks, epics, subtasks, createdID)
    {
      subtask.id := id;
      subtasks := subtasks[id := subtask];
      subtask.status := NEW;
      AddTasksInPrioritizedList(subtask);
    }

    /**
     * The second half: the epic lists `id` last and its status is rolled up again, which
     * gives IN_PROGRESS; then the epic's times are updated from its listed subtasks.
     * Only the epic changes, so whether `t` fits `watched` is as before.
     */
    method LinkToEpic(epicId: int, id: int, ghost watched: map<int, Task>, ghost t: Task)
      requires WellKinded(epics, subtasks, index) && epicId in epics
      requires epics[epicId] !in watched.Values && epics[epicId] != t
      requires AllIn(epics[epicId].subtaskIds, subtasks)
      requires id in subtasks && subtasks[id].status == NEW
      modifies this`epics, {epics[epicId]}`subtaskIds, {epics[epicId]}`status
      modifies {epics[epicId]}`start, {epics[epicId]}`endTime, {epics[epicId]}`duration
      ensures WellKinded(epics, subtasks, index) && epics == old(epics)
      ensures epics[epicId].subtaskIds == old(epics[epicId].subtaskIds) + [id]
      ensures epics[epicId].status == IN_PROGRESS
      ensures var epic := epics[epicId];
        && AllIn(epic.subtaskIds, subtasks)
        && epic.start == LastStartBefore(Snapshot(subtasks, epic.subtaskIds), old(epic.start))
        && epic.endTime == LastEndAfter(Snapshot(subtasks, epic.subtaskIds), old(epic.endTime))
        && epic.duration == old(epic.duration) + TotalDuration(Snapshot(subtasks, epic.subtaskIds))
      ensures old(NoOverlap(index)) ==> NoOverlap(index)
      ensures Issued(tasks, epics, subtasks, createdID) == old(Issued(tasks, epics, subtasks, createdID))
      ensures Fits(watched, t) == old(Fits(watched, t))
    {
      AppendToEpic(epicId, id);
      var _ := UpdateTimeEpic(epics[epicId]);
    }

    /** Lines 75-76: the epic lists `id` last; as that subtask is NEW the rollup gives IN_PROGRESS. */
    method AppendToEpic(epicId: int, id: int)
      requires WellKinded(epics, subtasks, index) && epicId in epics
      requires AllIn(epics[epicId].subtaskIds, subtasks)
      requires id in subtasks && subtasks[id].status == NEW
      modifies this`epics, {epics[epicId]}`subtaskIds, {epics[epicId]}`status
      ensures WellKinded(epics, subtasks, index) && epics == old(epics)
      ensures epics[epicId].subtaskIds == old(epics[epicId].subtaskIds) + [id]
      ensures epics[epicId].status == IN_PROGRESS
      ensures AllIn(epics[epicId].subtaskIds, subtasks)
      ensures old(NoOverlap(index)) ==> NoOverlap(index)
    {
      var thisEpic := epics[epicId];
      assert thisEpic !in index.Values;
      thisEpic.subtaskIds := thisEpic.subtaskIds + [id];
      assert AllIn(thisEpic.subtaskIds, subtasks);
      SetStatusForEpic(epicId);
      ghost var slots := Snapshot(subtasks, thisEpic.subtaskIds);
      assert Open(slots[|slots| - 1].status);
      RollupMeaning(slots);
      NoOverlapFrame(index);
    }

    /**
     * getListOfTask: one entry per stored key (`keys` lists each key once, in an order
     * left open), every stored task and nothing else.
     */
    method GetListOfTask() returns (r: seq<Task>, ghost keys: seq<int>)
      ensures |keys| == |r| == |tasks|
      ensures forall k :: k in keys <==> k in tasks
      ensures forall i, j :: 0 <= i < j < |keys| ==> keys[i] != keys[j]
      ensures forall i :: 0 <= i < |r| ==> keys[i] in tasks && r[i] == tasks[keys[i]]
      ensures forall t :: t in r <==> t in tasks.Values
    {
      keys := SortedKeys(tasks.Keys);
      SortedKeysAscending(tasks.Keys);
      r := ValuesInKeyOrder(tasks);
      ValuesInKeyOrderCover(tasks);
    }

    /**
     * getListOfEpic: one entry per stored key (`keys` lists each key once, in an order
     * left open), every stored epic and nothing else.
     */
    method GetListOfEpic() returns (r: seq<Task>, ghost keys: seq<int>)
      requires WellKinded(epics, subtasks, index)
      ensures |keys| == |r| == |epics|
      ensures forall k :: k in keys <==> k in epics
      ensures forall i, j :: 0 <= i < j < |keys| ==> keys[i] != keys[j]
      ensures forall i :: 0 <= i < |r| ==> keys[i] in epics && r[i] == epics[keys[i]]
      ensures forall t :: t in r <==> t in epics.Values
      ensures forall i :: 0 <= i < |r| ==> r[i].kind == Epic
    {
      keys := SortedKeys(epics.Keys);
      SortedKeysAscending(epics.Keys);
      r := ValuesInKeyOrder(epics);
      ValuesInKeyOrderCover(epics);
    }

    /**
     * getListOfSubtask: one entry per stored key (`keys` lists each key once, in an order
     * left open), every stored subtask and nothing else.
     */
    method GetListOfSubtask() returns (r: seq<Task>, ghost keys: seq<int>)
      requires WellKinded(epics, subtasks, index)
      ensures |keys| == |r| == |subtasks|
      ensures forall k :: k in keys <==> k in subtasks
      ensures forall i, j :: 0 <= i < j < |keys| ==> keys[i] != keys[j]
      ensures forall i :: 0 <= i < |r| ==> keys[i] in subtasks && r[i] == subtasks[keys[i]]
      ensures forall t :: t in r <==> t in subtasks.Values
      ensures forall i :: 0 <= i < |r| ==> r[i].kind == Subtask
    {
      keys := SortedKeys(subtasks.Keys);
      SortedKeysAscending(subtasks.Keys);
      r := ValuesInKeyOrder(subtasks);
      ValuesInKeyOrderCover(subtasks);
    }

    /**
     * getPrioritizedTasks: the index's entries in strictly ascending order of their
     * keys (the start times they were indexed under), one per key, never an epic.
     */
    method GetPrioritizedTasks() returns (r: seq<Task>, ghost keys: seq<int>)
      requires WellKinded(epics, subtasks, index)
      ensures |keys| == |r| == |index|
      ensures forall i, j :: 0 <= i < j < |keys| ==> keys[i] < keys[j]
      ensures forall k :: k in keys <==> k in index
      ensures forall i :: 0 <= i < |r| ==> keys[i] in index && r[i] == index[keys[i]]
      ensures forall i :: 0 <= i < |r| ==> r[i].kind != Epic
    {
      keys := SortedKeys(index.Keys);
      SortedKeysAscending(index.Keys);
      r := ValuesInKeyOrder(index);
      forall i | 0 <= i < |r| ensures r[i].kind != Epic {
        assert r[i] in index.Values;
      }
    }

    /**
     * Records history.remove(id) for every id of `ids`. The HashMap key set is walked
     * in ascending order here.
     */
    method RemoveAllFromHistory(ids: set<int>)
      modifies this`history
      ensures history == old(history) + Removals(SortedKeys(ids))
    {
      var keys := SortedKeys(ids);
      for i := 0 to |keys|
        invariant history == old(history) + Removals(keys[..i])
      {
        assert Removals(keys[..i + 1]) == Removals(keys[..i]) + [Remove(keys[i])];
        history := history + [Remove(keys[i])];
      }
      assert keys[..|keys|] == keys;
    }

    /**
     * The first two loops of each clearListOf* method: a remove(id) call for every key of
     * `store`, then the index loses the current start time of every stored entity.
     */
    method ForgetEntries(store: map<int, Task>)
      requires WellKinded(epics, subtasks, index)
      modifies this`index, this`history
      ensures WellKinded(epics, subtasks, index)
      ensures index == old(index) - old(StartsOf(store.Values))
      ensures old(NoOverlap(index)) ==> NoOverlap(index)
      ensures history == old(history) + Removals(SortedKeys(store.Keys))
      ensures Issued(tasks, epics, subtasks, createdID) == old(Issued(tasks, epics, subtasks, createdID))
    {
      RemoveAllFromHistory(store.Keys);
      assert NoOverlap(index) == old(NoOverlap(index));
      RemoveStartsFromIndex(store.Values);
    }

    /** Removes from the index the key equal to the CURRENT start of each entity of `values`. */
    method RemoveStartsFromIndex(values: set<Task>)
      requires WellKinded(epics, subtasks, index)
      modifies this`index
      ensures WellKinded(epics, subtasks, index)
      ensures index == old(index) - old(StartsOf(values))
      ensures old(NoOverlap(index)) ==> NoOverlap(index)
    {
      var rest := values;
      while rest != {}
        invariant rest <= values
        invariant index == old(index) - StartsOf(values - rest)
        invariant WellKinded(epics, subtasks, index)
        decreases rest
      {
        var v := Pick(rest);
        ghost var done := values - rest;
        assert StartsOf(done + {v}) == StartsOf(done) + {v.start};
        assert values - (rest - {v}) == done + {v};
        index := index - {v.start};
        rest := rest - {v};
      }
      assert values - rest == values;
      if old(NoOverlap(index)) {
        NoOverlapShrinks(old(index), old(StartsOf(values)));
      }
    }

    /**
     * clearListOfTask: history.remove for every task id, the index loses the key equal
     * to each task's current start (whichever entity sits there), the store is emptied.
     */
    method ClearListOfTask()
      requires WellKinded(epics, subtasks, index)
      modifies this`tasks, this`index, this`history
      ensures WellKinded(epics, subtasks, index) && (old(Issued(tasks, epics, subtasks, createdID)) ==> Issued(tasks, epics, subtasks, createdID))
      ensures tasks == map[]
      ensures index == old(index) - old(StartsOf(tasks.Values))
      ensures old(NoOverlap(index)) ==> NoOverlap(index)
      ensures history == old(history) + Removals(SortedKeys(old(tasks).Keys))
    {
      ForgetEntries(tasks);
      tasks := map[];
    }

    /**
     * clearListOfEpic: like clearListOfTask for epics, and the subtask store is emptied
     * too; the subtasks' index entries stay.
     */
    method ClearListOfEpic()
      requires WellKinded(epics, subtasks, index)
      modifies this`epics, this`subtasks, this`index, this`history
      ensures WellKinded(epics, subtasks, index) && (old(Issued(tasks, epics, subtasks, createdID)) ==> Issued(tasks, epics, subtasks, createdID))
      ensures epics == map[] && subtasks == map[]
      ensures index == old(index) - old(StartsOf(epics.Values))
      ensures old(NoOverlap(index)) ==> NoOverlap(index)
      ensures history == old(history) + Removals(SortedKeys(old(epics).Keys))
    {
      ForgetEntries(epics);
      epics := map[];
      subtasks := map[];
    }

    /**
     * clearListOfSubtask: like clearListOfTask for subtasks; then every stored epic has
     * an empty subtask list and, rolled up over nothing, status DONE.
     */
    method ClearListOfSubtask()
      requires WellKinded(epics, subtasks, index)
      modifies this`subtasks, this`index, this`history, this`epics
      modifies epics.Values`subtaskIds, epics.Values`status
      ensures WellKinded(epics, subtasks, index) && (old(Issued(tasks, epics, subtasks, createdID)) ==> Issued(tasks, epics, subtasks, createdID))
      ensures subtasks == map[] && epics == old(epics)
      ensures index == old(index) - old(StartsOf(subtasks.Values))
      ensures old(NoOverlap(index)) ==> NoOverlap(index)
      ensures history == old(history) + Removals(SortedKeys(old(subtasks).Keys))
      ensures forall k :: k in epics ==> epics[k].subtaskIds == [] && epics[k].status == DONE
    {
      ClearSubtaskStore();
      EmptyEpicLists();
    }

    /** The first part of clearListOfSubtask: history, index and the subtask store. */
    method ClearSubtaskStore()
      requires WellKinded(epics, subtasks, index)
      modifies this`subtasks, this`index, this`history
      ensures WellKinded(epics, subtasks, index) && subtasks == map[]
      ensures old(Issued(tasks, epics, subtasks, createdID)) ==> Issued(tasks, epics, subtasks, createdID)
      ensures index == old(index) - old(StartsOf(subtasks.Values))
      ensures old(NoOverlap(index)) ==> NoOverlap(index)
      ensures history == old(history) + Removals(SortedKeys(old(subtasks).Keys))
    {
      ForgetEntries(subtasks);
      subtasks := map[];
    }

    /**
     * The last loop of clearListOfSubtask: every stored epic's subtask list is emptied
     * and its status rolled up again, which over no subtasks gives DONE.
     */
    method EmptyEpicLists()
      requires WellKinded(epics, subtasks, index) && subtasks == map[]
      modifies this`epics, epics.Values`subtaskIds, epics.Values`status
      ensures WellKinded(epics, subtasks, index) && epics == old(epics)
      ensures Issued(tasks, epics, subtasks, createdID) == old(Issued(tasks, epics, subtasks, createdID))
      ensures old(NoOverlap(index)) ==> NoOverlap(index)
      ensures forall k :: k in epics ==> epics[k].subtaskIds == [] && epics[k].status == DONE
    {
      var rest := epics.Keys;
      while rest != {}
        invariant rest <= epics.Keys
        invariant WellKinded(epics, subtasks, index) && subtasks == map[] && epics == old(epics)
        invariant index == old(index) && (old(NoOverlap(index)) ==> NoOverlap(index))
        invariant forall k :: k in epics && k !in rest ==> epics[k].subtaskIds == [] && epics[k].status == DONE
        decreases rest
      {
        var k := Pick(rest);
        epics[k].subtaskIds := [];
        SetStatusForEpic(k);
        assert Snapshot(subtasks, []) == [];
        RollupMeaning([]);
        rest := rest - {k};
      }
    }

    /** getTaskByIdWithoutStory: the stored task, or null. */
    function GetTaskByIdWithoutStory(id: int): (r: Task?)
      reads this
      ensures r != null <==> id in tasks
      ensures r != null ==> r == tasks[id]
    {
      if id in tasks then tasks[id] else null
    }

    /** getEpicByIdWithoutStory: the stored epic, or null. */
    function GetEpicByIdWithoutStory(id: int): (r: Task?)
      reads this
      ensures r != null <==> id in epics
      ensures r != null ==> r == epics[id]
    {
      if id in epics then epics[id] else null
    }

    /** getSubtaskByIdWithoutStory: the stored subtask, or null. */
    function GetSubtaskByIdWithoutStory(id: int): (r: Task?)
      reads this
      ensures r != null <==> id in subtasks
      ensures r != null ==> r == subtasks[id]
    {
      if id in subtasks then subtasks[id] else null
    }

    /** getTaskByID: the lookup, recorded in the history when found. */
    method GetTaskByID(id: int) returns (r: Task?)
      modifies this`history
      ensures r == GetTaskByIdWithoutStory(id)
      ensures history == if id in tasks then old(history) + [Add(tasks[id])] else old(history)
    {
      r := GetTaskByIdWithoutStory(id);
      if id in tasks {
        history := history + [Add(r)];
      }
    }

    /** getEpicByID: the lookup, recorded in the history when found. */
    method GetEpicByID(id: int) returns (r: Task?)
      modifies this`history
      ensures r == GetEpicByIdWithoutStory(id)
      ensures history == if id in epics then old(history) + [Add(epics[id])] else old(history)
    {
      r := GetEpicByIdWithoutStory(id);
      if id in epics {
        history := history + [Add(r)];
      }
    }

    /** getSubtaskByID: the lookup, recorded in the history when found. */
    method GetSubtaskByID(id: int) returns (r: Task?)
      modifies this`history
      ensures r == GetSubtaskByIdWithoutStory(id)
      ensures history == if id in subtasks then old(history) + [Add(subtasks[id])] else old(history)
    {
      r := GetSubtaskByIdWithoutStory(id);
      if id in subtasks {
        history := history + [Add(r)];
      }
    }

    /**
     * updateTask: the overlap check runs on the STORED task with its current interval.
     * When it passes, the stored task takes the argument's name, description, start and
     * duration and status NEW, and is put back under its own id; otherwise nothing changes.
     */
    method UpdateTask(task: Task)
      requires WellKinded(epics, subtasks, index) && task.id in tasks
      modifies this`tasks, {tasks[task.id]}`name, {tasks[task.id]}`description, {tasks[task.id]}`status
      modifies {tasks[task.id]}`start, {tasks[task.id]}`duration
      ensures WellKinded(epics, subtasks, index) && (old(Issued(tasks, epics, subtasks, createdID)) && old(tasks[task.id].id) <= createdID ==> Issued(tasks, epics, subtasks, createdID))
      ensures var saved := old(tasks[task.id]);
        if old(Fits(index, tasks[task.id])) then
          && saved.name == old(task.name) && saved.description == old(task.description)
          && saved.start == old(task.start) && saved.duration == old(task.duration)
          && saved.status == NEW
          && tasks == old(tasks)[saved.id := saved]
        else
          tasks == old(tasks) && unchanged(saved)
    {
      var saved := tasks[task.id];
      var ok := CheckTasksForIntersectionsByTime(saved);
      if ok {
        saved.name := task.name;
        saved.description := task.description;
        saved.status := NEW;
        saved.start := task.start;
        saved.duration := task.duration;
        tasks := tasks[saved.id := saved];
      }
    }

    /** updateEpic: the stored epic takes the argument's name and description only. */
    method UpdateEpic(epic: Task)
      requires WellKinded(epics, subtasks, index) && epic.kind == Epic && epic.id in epics
      modifies this`epics, {epics[epic.id]}`name, {epics[epic.id]}`description
      ensures WellKinded(epics, subtasks, index) && (old(Issued(tasks, epics, subtasks, createdID)) && old(epics[epic.id].id) <= createdID ==> Issued(tasks, epics, subtasks, createdID))
      ensures var saved := old(epics[epic.id]);
        && saved.name == old(epic.name) && saved.description == old(epic.description)
        && epics == old(epics)[saved.id := saved]
    {
      var saved := epics[epic.id];
      saved.name := epic.name;
      saved.description := epic.description;
      epics := epics[saved.id := saved];
    }

    /**
     * updateSubtask: as updateTask, checked on the stored subtask's current interval; the
     * subtask is put back under the argument's id, so the store keeps its keys and
     * objects. Neither the parent epic nor the index is touched.
     */
    method UpdateSubtask(subtask: Task)
      requires WellKinded(epics, subtasks, index) && subtask.kind == Subtask && subtask.id in subtasks
      modifies this`subtasks, {subtasks[subtask.id]}`name, {subtasks[subtask.id]}`description
      modifies {subtasks[subtask.id]}`status, {subtasks[subtask.id]}`start, {subtasks[subtask.id]}`duration
      ensures WellKinded(epics, subtasks, index) && (old(Issued(tasks, epics, subtasks, createdID)) ==> Issued(tasks, epics, subtasks, createdID))
      ensures subtasks == old(subtasks)
      ensures var saved := old(subtasks[subtask.id]);
        if old(Fits(index, subtasks[subtask.id])) then
          && saved.name == old(subtask.name) && saved.description == old(subtask.description)
          && saved.start == old(subtask.start) && saved.duration == old(subtask.duration)
          && saved.status == NEW
        else
          unchanged(saved)
    {
      var id := subtask.id;
      var saved := subtasks[id];
      var ok := CheckTasksForIntersectionsByTime(saved);
      if ok {
        saved.name := subtask.name;
        saved.description := subtask.description;
        saved.status := NEW;
        saved.start := subtask.start;
        saved.duration := subtask.duration;
        subtasks := subtasks[id := saved];
      }
    }

    /** deleteTaskForID: an unknown id changes nothing; the index is never touched. */
    method DeleteTaskForID(id: int)
      modifies this`tasks, this`history
      ensures id !in old(tasks) ==> tasks == old(tasks) && history == old(history)
      ensures id in old(tasks) ==>
        && tasks == old(tasks) - {id}
        && history == old(history) + [RemoveFromReturnedList(old(tasks)[id]), Remove(id)]
    {
      var task := GetTaskByIdWithoutStory(id);
      if task != null {
        history := history + [RemoveFromReturnedList(task)];
        tasks := tasks - {id};
        history := history + [Remove(id)];
      }
    }

    /**
     * deleteEpicForID: an unknown id changes nothing. Otherwise every subtask the epic
     * lists leaves the subtask store and the epic leaves the epic store; the index is
     * never touched.
     */
    method DeleteEpicForID(id: int)
      requires WellKinded(epics, subtasks, index)
      modifies this`epics, this`subtasks, this`history
      ensures WellKinded(epics, subtasks, index) && (old(Issued(tasks, epics, subtasks, createdID)) ==> Issued(tasks, epics, subtasks, createdID))
      ensures id !in old(epics) ==> epics == old(epics) && subtasks == old(subtasks) && history == old(history)
      ensures id in old(epics) ==>
        && epics == old(epics) - {id}
        && subtasks == old(subtasks) - Elements(old(epics[id].subtaskIds))
        && history == old(history) + [Remove(id)]
    {
      var epic := GetEpicByIdWithoutStory(id);
      if epic != null {
        var ids := epic.subtaskIds;
        for i := 0 to |ids|
          invariant subtasks == old(subtasks) - Elements(ids[..i])
          invariant epics == old(epics) && history == old(history)
          invariant WellKinded(epics, subtasks, index)
        {
          assert Elements(ids[..i + 1]) == Elements(ids[..i]) + {ids[i]} by {
            assert ids[..i + 1] == ids[..i] + [ids[i]];
          }
          subtasks := subtasks - {ids[i]};
        }
        assert ids[..|ids|] == ids;
        epics := epics - {id};
        history := history + [Remove(id)];
      }
    }

    /**
     * deleteSubtaskForID: an unknown id changes nothing. Otherwise the first occurrence
     * of the id leaves the parent epic's list and the subtask leaves the store; the
     * epic's status and times are not recomputed and the index is never touched.
     */
    method DeleteSubtaskForID(id: int)
      requires WellKinded(epics, subtasks, index)
      requires id in subtasks ==> subtasks[id].epicId in epics
      modifies this`subtasks, this`history, StoredParent(epics, subtasks, id)`subtaskIds
      ensures WellKinded(epics, subtasks, index) && (old(Issued(tasks, epics, subtasks, createdID)) ==> Issued(tasks, epics, subtasks, createdID))
      ensures id !in old(subtasks) ==> subtasks == old(subtasks) && history == old(history)
      ensures id in old(subtasks) ==>
        var epic := epics[old(subtasks[id]).epicId];
        && subtasks == old(subtasks) - {id}
        && epic.subtaskIds == RemoveFirst(old(epic.subtaskIds), id)
        && history == old(history) + [Remove(id)]
    {
      var subtask := GetSubtaskByIdWithoutStory(id);
      if subtask != null {
        var epic := epics[subtask.epicId];
        epic.subtaskIds := RemoveFirst(epic.subtaskIds, id);
        subtasks := subtasks - {id};
        history := history + [Remove(id)];
      }
    }

    /**
     * setStatusForTask: an epic is returned untouched; any other entity gets the status
     * and is put in the task store under its id. The argument is returned.
     */
    method SetStatusForTask(task: Task, status: Status) returns (r: Task)
      requires WellKinded(epics, subtasks, index)
      modifies this`tasks, task`status
      ensures WellKinded(epics, subtasks, index)
      ensures old(Issued(tasks, epics, subtasks, createdID)) && task.id <= createdID ==> Issued(tasks, epics, subtasks, createdID)
      ensures r == task
      ensures task.kind == Epic ==> tasks == old(tasks) && task.status == old(task.status)
      ensures task.kind != Epic ==> task.status == status && tasks == old(tasks)[task.id := task]
    {
      if task.kind != Epic {
        task.status := status;
        tasks := tasks[task.id := task];
      }
      r := task;
    }

    /**
     * setStatusForSubtask: the subtask gets the status and is put in the subtask store;
     * its parent epic is fetched (recorded in the history), lists the subtask's id once
     * more, is removed from the history and has its status rolled up again.
     */
    method SetStatusForSubtask(subtask: Task, status: Status) returns (r: Task)
      requires WellKinded(epics, subtasks, index) && subtask.kind == Subtask && subtask.epicId in epics
      requires var ids := epics[subtask.epicId].subtaskIds;
        forall i :: 0 <= i < |ids| ==> ids[i] in subtasks || ids[i] == subtask.id
      modifies this`subtasks, this`epics, this`history, subtask`status
      modifies {epics[subtask.epicId]}`subtaskIds, {epics[subtask.epicId]}`status
      ensures WellKinded(epics, subtasks, index)
      ensures old(Issued(tasks, epics, subtasks, createdID)) && subtask.id <= createdID ==> Issued(tasks, epics, subtasks, createdID)
      ensures r == subtask && subtask.status == status
      ensures subtasks == old(subtasks)[subtask.id := subtask] && epics == old(epics)
      ensures var epic := epics[subtask.epicId];
        && epic.subtaskIds == old(epic.subtaskIds) + [subtask.id]
        && AllIn(epic.subtaskIds, subtasks)
        && epic.status == Rollup(Snapshot(subtasks, epic.subtaskIds))
        && history == old(history) + [Add(epic), Remove(epic.id)]
    {
      subtask.status := status;
      subtasks := subtasks[subtask.id := subtask];
      var epic := GetEpicByID(subtask.epicId);
      epic.subtaskIds := epic.subtaskIds + [subtask.id];
      history := history + [Remove(epic.id)];
      assert tasks == old(tasks) && epics == old(epics) && createdID == old(createdID);
      assert AllIn(epic.subtaskIds, subtasks);
      SetStatusForEpic(subtask.epicId);
      r := subtask;
    }

    /**
     * setStatusForEpic: IN_PROGRESS if some listed subtask is NEW or IN_PROGRESS,
     * otherwise DONE, also when the epic lists no subtask. Only the epic's status changes.
     */
    method SetStatusForEpic(epicId: int)
      requires WellKinded(epics, subtasks, index) && epicId in epics
      requires AllIn(epics[epicId].subtaskIds, subtasks)
      modifies this`epics, {epics[epicId]}`status
      ensures WellKinded(epics, subtasks, index) && epics == old(epics)
      ensures epics[epicId].status == Rollup(Snapshot(subtasks, epics[epicId].subtaskIds))
    {
      var isStatus := true;
      var newEpic := epics[epicId];
      var ids := newEpic.subtaskIds;
      ghost var slots := Snapshot(subtasks, ids);
      for i := 0 to |ids|
        invariant epics == old(epics) && newEpic.status == old(newEpic.status)
        invariant isStatus == AllClosed(slots[..i])
      {
        AllClosedStep(slots, i);
        var s := subtasks[ids[i]];
        if s.status == IN_PROGRESS || s.status == NEW {
          isStatus := false;
        }
      }
      assert slots[..|ids|] == slots;
      assert forall i :: 0 <= i < |ids| ==> subtasks[ids[i]].kind == Subtask;
      if isStatus {
        newEpic.status := DONE;
      } else {
        newEpic.status := IN_PROGRESS;
      }
      epics := epics[epicId := newEpic];
      assert forall i :: 0 <= i < |ids| ==> slots[i] == SlotOf(subtasks[ids[i]]);
    }

    /**
     * setStartTimeEpic: MaxTime for an epic without subtasks; otherwise the loop assigns
     * each listed subtask's start in turn, so the LAST listed subtask's start remains.
     */
    method SetStartTimeEpic(epic: Task) returns (start: int)
      requires WellKinded(epics, subtasks, index) && epic.kind == Epic
      requires AllIn(epic.subtaskIds, subtasks)
      modifies epic`start
      ensures var ids := epic.subtaskIds;
        epic.start == if ids == [] then MaxTime else subtasks[ids[|ids| - 1]].start
      ensures start == epic.start
    {
      epic.start := MaxTime;
      var ids := epic.subtaskIds;
      if ids != [] {
        for i := 0 to |ids|
          invariant epic.start == if i == 0 then MaxTime else subtasks[ids[i - 1]].start
        {
          var subtask := GetSubtaskByIdWithoutStory(ids[i]);
          var startSubtask := subtask.start;
          epic.start := startSubtask;
          // The Java code then compares startSubtask with the value just assigned; that branch is never taken.
        }
      }
      start := epic.start;
    }

    /**
     * setEndTimeEpic: MinTime for an epic without subtasks; otherwise the LAST listed
     * subtask's end remains.
     */
    method SetEndTimeEpic(epic: Task) returns (end: int)
      requires WellKinded(epics, subtasks, index) && epic.kind == Epic
      requires AllIn(epic.subtaskIds, subtasks)
      modifies epic`endTime
      ensures var ids := epic.subtaskIds;
        epic.endTime == if ids == [] then MinTime else subtasks[ids[|ids| - 1]].End()
      ensures end == epic.End()
    {
      epic.endTime := MinTime;
      var ids := epic.subtaskIds;
      if ids != [] {
        for i := 0 to |ids|
          invariant epic.endTime == if i == 0 then MinTime else subtasks[ids[i - 1]].End()
        {
          var subtask := GetSubtaskByIdWithoutStory(ids[i]);
          var endSubtask := subtask.End();
          epic.endTime := endSubtask;
          // As in setStartTimeEpic, the comparison that follows in the Java code is never true.
        }
      }
      end := epic.End();
    }

    /** setDurationEpic: Duration.between(start, end), i.e. end minus start. */
    method SetDurationEpic(epic: Task) returns (d: int)
      requires epic.kind == Epic
      modifies epic`duration
      ensures epic.duration == epic.endTime - epic.start && d == epic.duration
    {
      epic.duration := epic.End() - epic.start;
      d := epic.duration;
    }

    /**
     * updateTimeEpic: start, end and duration are captured once. The start becomes the
     * last listed subtask start below the captured start (if any), the end the last
     * listed subtask end above the captured end (if any), and the duration the captured
     * duration plus every listed subtask's duration.
     */
    method UpdateTimeEpic(epic: Task) returns (d: int)
      requires WellKinded(epics, subtasks, index) && epic.kind == Epic
      requires AllIn(epic.subtaskIds, subtasks)
      modifies epic`start, epic`endTime, epic`duration
      ensures epic.start == LastStartBefore(old(Snapshot(subtasks, epic.subtaskIds)), old(epic.start))
      ensures epic.endTime == LastEndAfter(old(Snapshot(subtasks, epic.subtaskIds)), old(epic.endTime))
      ensures epic.duration == old(epic.duration) + TotalDuration(old(Snapshot(subtasks, epic.subtaskIds)))
      ensures d == epic.duration
      ensures Snapshot(subtasks, epic.subtaskIds) == old(Snapshot(subtasks, epic.subtaskIds))
      ensures old(NoOverlap(index)) ==> NoOverlap(index)
    {
      var startTimeEpic := epic.start;
      var endTimeEpic := epic.End();
      var durationEpic := epic.duration;
      var ids := epic.subtaskIds;
      ghost var slots := Snapshot(subtasks, ids);
      for i := 0 to |ids|
        invariant epic.start == LastStartBefore(slots[..i], startTimeEpic)
        invariant epic.endTime == LastEndAfter(slots[..i], endTimeEpic)
        invariant durationEpic == old(epic.duration) + TotalDuration(slots[..i])
        invariant epic.duration == durationEpic
      {
        LastStartBeforeStep(slots, i, startTimeEpic);
        LastEndAfterStep(slots, i, endTimeEpic);
        TotalDurationStep(slots, i);
        var subtask := GetSubtaskByIdWithoutStory(ids[i]);
        assert subtask in subtasks.Values && subtask != epic;
        assert slots[i] == SlotOf(subtask);
        var startTimeSubtask := subtask.start;
        var endTimeSubtask := subtask.End();
        if startTimeSubtask < startTimeEpic {
          epic.start := startTimeSubtask;
        }
        if endTimeSubtask > endTimeEpic {
          epic.endTime := endTimeSubtask;
        }
        durationEpic := durationEpic + subtask.duration;
        epic.duration := durationEpic;
      }
      assert slots[..|ids|] == slots;
      d := epic.duration;
      assert forall i :: 0 <= i < |ids| ==> slots[i] == SlotOf(subtasks[ids[i]]);
      assert epic !in index.Values;
      NoOverlapFrame(index);
    }

    /**
     * checkTasksForIntersectionsByTime: true exactly when `t` clashes with no index
     * entry other than those carrying its own id; true on an empty index.
     */
    method CheckTasksForIntersectionsByTime(t: Task) returns (ok: bool)
      ensures ok <==> Fits(index, t)
      ensures index == map[] ==> ok
    {
      if index == map[] {
        return true;
      }
      var keys := SortedKeys(index.Keys);
      for i := 0 to |keys|
        invariant forall k :: k in keys[..i] ==> Compatible(index[k], t)
      {
        assert keys[..i + 1] == keys[..i] + [keys[i]];
        var other := index[keys[i]];
        if other.id == t.id {
          continue;
        }
        if t.End() <= other.start {
          continue;
        }
        if t.start >= other.End() {
          continue;
        }
        return false;
      }
      assert keys[..|keys|] == keys;
      return true;
    }

    /**
     * addTasksInPrioritizedList: an entity that is not an epic and passes the overlap
     * check is indexed under its start time, replacing any entry with that key.
     */
    method AddTasksInPrioritizedList(t: Task)
      requires WellKinded(epics, subtasks, index)
      modifies this`index
      ensures WellKinded(epics, subtasks, index)
      ensures index == if t.kind != Epic && Fits(old(index), t) then old(index)[t.start := t] else old(index)
      ensures old(NoOverlap(index)) ==> NoOverlap(index)
    {
      if t.kind != Epic {
        var ok := CheckTasksForIntersectionsByTime(t);
        if ok {
          if NoOverlap(index) {
            InsertKeepsNoOverlap(index, t);
          }
          index := index[t.start := t];
        }
      }
    }
  }
}
