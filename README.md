# In-memory task manager, modelled in Dafny

The system is a small task tracker. It knows three kinds of entity: plain tasks,
epics, which group work, and subtasks, each of which belongs to one epic. The
`InMemoryTaskManager` keeps:

- three id-keyed stores, one each for tasks, epics and subtasks;
- a start-time index, a TreeMap from start time to entity that feeds the
  prioritised list;
- an id counter.

Operations create entities under fresh ids, list, look up, update and delete them,
and set statuses. An epic's status is rolled up from its subtasks. An epic's start,
end and duration are derived from its subtasks by a set of time helpers. Before an
entity enters the index, a half-open interval overlap check guards it.

The model follows the Java code as written:

- `task_types.dfy`: the entity class. One Dafny class `Task` stands for the Java
  classes Task, Epic and Subtask. An immutable `kind` replaces `instanceof`.
- `in_memory_task_manager.dfy`: the manager as a Dafny class whose fields are the
  three stores, the index, the counter and a ghost log of history-manager calls.
  - Stores and index hold object references, so one object can sit in a store and in
    the index. An update that changes its start does not re-key its index entry.
  - The three `createTask` overloads are `CreateTask`, `CreateEpic` and `CreateSubtask`.
  - Lookups the Java code does not check become preconditions. They would throw a
    NullPointerException. This covers a missing id for `updateTask`, `updateEpic` and
    `updateSubtask`, a missing parent epic, and a listed subtask id that is not stored.
- `epic_rollup.dfy`: the status rollup and the literal behaviour of the epic time
  loops, as functions over a snapshot of the epic's subtasks.
- `subtask_ids.dfy`: the epic's list of subtask ids. `List.remove(Object)` removes
  the first occurrence only.
- `ordered_keys.dfy`: ascending key order, used for the TreeMap and, in this model,
  for the walks over store keys and the `getListOf*` copies.

Behaviours of the code that are easy to misread, which the model keeps:

- deletes never touch the start-time index;
- deleting a subtask does not recompute its epic;
- updates check the stored entity's old interval, not the incoming one;
- the epic time helpers keep the last qualifying subtask, not the earliest start or
  the latest end.

## Model

| member | source | states |
|---|---|---|
| ManagersTypes.InMemoryTaskManager.constructor | src/main/java/org/example/managers_types/InMemoryTaskManager.java:17-28 | the manager starts with empty stores, an empty index, counter 0 and no history |
| ManagersTypes.InMemoryTaskManager.CreatingID | src/main/java/org/example/managers_types/InMemoryTaskManager.java:480-482 | the counter goes up by exactly one and the new value is returned, so successive ids strictly increase |
| ManagersTypes.InMemoryTaskManager.CreateTask | src/main/java/org/example/managers_types/InMemoryTaskManager.java:34-41 | the id is the old counter plus one and, when every stored key was issued, occurs in no store; the task is stored under it with status NEW; the index gains the task under its start time exactly when it is not an epic and passes the overlap check; an overlap-free index stays overlap-free when the task was not already indexed |
| ManagersTypes.InMemoryTaskManager.CreateEpic | src/main/java/org/example/managers_types/InMemoryTaskManager.java:47-59 | a fresh id as for tasks; the epic is stored with status NEW, not rolled up; its start and end come from the LAST listed subtask, or the MAX/MIN sentinels when it lists none; its duration is end minus start |
| ManagersTypes.InMemoryTaskManager.CreateSubtask | src/main/java/org/example/managers_types/InMemoryTaskManager.java:65-80 | the id is consumed in every case; with an unknown epic nothing else changes; otherwise the subtask is stored with status NEW, indexed iff it fits, its id is appended to the epic's list, the epic becomes IN_PROGRESS and its start, end and duration follow LastStartBefore, LastEndAfter and the old duration plus TotalDuration over the extended list; an overlap-free index stays overlap-free when the subtask was not already indexed |
| ManagersTypes.InMemoryTaskManager.StoreSubtask | src/main/java/org/example/managers_types/InMemoryTaskManager.java:69-72 | the subtask takes the id and status NEW, is stored under the id, and is indexed iff it passes the overlap check; an overlap-free index stays overlap-free when the subtask was not already indexed |
| ManagersTypes.InMemoryTaskManager.LinkToEpic | src/main/java/org/example/managers_types/InMemoryTaskManager.java:74-77 | the epic's list gains the new id at its end; because that subtask is NEW the rollup yields IN_PROGRESS; the epic's start, end and duration follow LastStartBefore, LastEndAfter and the old duration plus TotalDuration over the extended list; the index and the stores keep their contents |
| ManagersTypes.InMemoryTaskManager.AppendToEpic | src/main/java/org/example/managers_types/InMemoryTaskManager.java:75-76 | the epic's list gains the new id at its end and the epic becomes IN_PROGRESS; every listed id stays stored; the index stays overlap-free |
| ManagersTypes.InMemoryTaskManager.GetListOfTask | src/main/java/org/example/managers_types/InMemoryTaskManager.java:86-88 | one entry per stored key: position i holds the task stored under the i-th of the distinct keys, which cover the store (their order is left open); an object is listed iff it is a stored task |
| ManagersTypes.InMemoryTaskManager.GetListOfEpic | src/main/java/org/example/managers_types/InMemoryTaskManager.java:94-96 | one entry per stored key: position i holds the epic stored under the i-th of the distinct keys, which cover the store (their order is left open); an object is listed iff it is a stored epic; every entry is an epic |
| ManagersTypes.InMemoryTaskManager.GetListOfSubtask | src/main/java/org/example/managers_types/InMemoryTaskManager.java:102-104 | one entry per stored key: position i holds the subtask stored under the i-th of the distinct keys, which cover the store (their order is left open); an object is listed iff it is a stored subtask; every entry is a subtask |
| ManagersTypes.InMemoryTaskManager.GetPrioritizedTasks | src/main/java/org/example/managers_types/InMemoryTaskManager.java:110-112 | the index's entries in strictly ascending order of start-time key, one per key, every key covered, never an epic |
| ManagersTypes.InMemoryTaskManager.RemoveAllFromHistory | src/main/java/org/example/managers_types/InMemoryTaskManager.java:119-121 | the history gains one remove(id) call per id of the store, in ascending id order |
| ManagersTypes.InMemoryTaskManager.RemoveStartsFromIndex | src/main/java/org/example/managers_types/InMemoryTaskManager.java:123-125 | the index loses exactly the keys equal to the current start times of the given entities; an overlap-free index stays overlap-free |
| ManagersTypes.InMemoryTaskManager.ForgetEntries | src/main/java/org/example/managers_types/InMemoryTaskManager.java:119-125 | one remove call per id of the store in ascending id order, and the index loses exactly the start-time keys of the store's entities; the stores are untouched |
| ManagersTypes.InMemoryTaskManager.ClearListOfTask | src/main/java/org/example/managers_types/InMemoryTaskManager.java:118-128 | the task store becomes empty; the index loses the start-time keys of the removed tasks; one remove call per removed id is recorded; an overlap-free index stays overlap-free |
| ManagersTypes.InMemoryTaskManager.ClearListOfEpic | src/main/java/org/example/managers_types/InMemoryTaskManager.java:134-145 | the epic and subtask stores become empty; only the epics' start-time keys leave the index; one remove call per epic id is recorded; an overlap-free index stays overlap-free |
| ManagersTypes.InMemoryTaskManager.ClearListOfSubtask | src/main/java/org/example/managers_types/InMemoryTaskManager.java:151-166 | the subtask store becomes empty; the same epics remain stored, each with an empty subtask list and status DONE; an overlap-free index stays overlap-free |
| ManagersTypes.InMemoryTaskManager.ClearSubtaskStore | src/main/java/org/example/managers_types/InMemoryTaskManager.java:152-160 | history, index and subtask store change as in clearListOfTask, for subtasks |
| ManagersTypes.InMemoryTaskManager.EmptyEpicLists | src/main/java/org/example/managers_types/InMemoryTaskManager.java:162-165 | with no subtasks stored, every epic ends with an empty list and status DONE; the epic store itself is unchanged |
| ManagersTypes.InMemoryTaskManager.GetTaskByIdWithoutStory | src/main/java/org/example/managers_types/InMemoryTaskManager.java:184-186 | non-null exactly when the id is stored, and then the stored task |
| ManagersTypes.InMemoryTaskManager.GetEpicByIdWithoutStory | src/main/java/org/example/managers_types/InMemoryTaskManager.java:204-206 | non-null exactly when the id is stored, and then the stored epic |
| ManagersTypes.InMemoryTaskManager.GetSubtaskByIdWithoutStory | src/main/java/org/example/managers_types/InMemoryTaskManager.java:224-226 | non-null exactly when the id is stored, and then the stored subtask |
| ManagersTypes.InMemoryTaskManager.GetTaskByID | src/main/java/org/example/managers_types/InMemoryTaskManager.java:172-178 | the same answer as the lookup without history; an add call is recorded only when the id is stored |
| ManagersTypes.InMemoryTaskManager.GetEpicByID | src/main/java/org/example/managers_types/InMemoryTaskManager.java:192-198 | the same answer as the lookup without history; an add call is recorded only when the id is stored |
| ManagersTypes.InMemoryTaskManager.GetSubtaskByID | src/main/java/org/example/managers_types/InMemoryTaskManager.java:212-218 | the same answer as the lookup without history; an add call is recorded only when the id is stored |
| ManagersTypes.InMemoryTaskManager.UpdateTask | src/main/java/org/example/managers_types/InMemoryTaskManager.java:232-242 | if the STORED task's current interval passes the overlap check, it takes the argument's name, description, start and duration, status NEW, and stays under its id; otherwise nothing changes |
| ManagersTypes.InMemoryTaskManager.UpdateEpic | src/main/java/org/example/managers_types/InMemoryTaskManager.java:248-253 | the stored epic takes only the argument's name and description; status and times stay |
| ManagersTypes.InMemoryTaskManager.UpdateSubtask | src/main/java/org/example/managers_types/InMemoryTaskManager.java:259-270 | as updateTask, checked on the stored subtask's old interval; the store keeps its keys and objects |
| ManagersTypes.InMemoryTaskManager.DeleteTaskForID | src/main/java/org/example/managers_types/InMemoryTaskManager.java:276-283 | an unknown id changes nothing; otherwise only that key leaves the task store and the two history calls are recorded; the index is untouched |
| ManagersTypes.InMemoryTaskManager.DeleteEpicForID | src/main/java/org/example/managers_types/InMemoryTaskManager.java:289-298 | an unknown id changes nothing; otherwise the epic leaves its store and every subtask id it lists leaves the subtask store; the index is untouched |
| ManagersTypes.InMemoryTaskManager.DeleteSubtaskForID | src/main/java/org/example/managers_types/InMemoryTaskManager.java:304-312 | an unknown id changes nothing; otherwise the subtask leaves the store and the first occurrence of its id leaves the parent's list; the epic is not recomputed |
| ManagersTypes.InMemoryTaskManager.SetStatusForTask | src/main/java/org/example/managers_types/InMemoryTaskManager.java:318-324 | an epic is returned with nothing changed; any other entity gets the status and is stored in the task store under its id |
| ManagersTypes.InMemoryTaskManager.SetStatusForSubtask | src/main/java/org/example/managers_types/InMemoryTaskManager.java:330-340 | the subtask gets the status and is stored; the parent lists its id once more; the parent's status is the rollup over its list; an add and a remove call for the parent are recorded |
| ManagersTypes.InMemoryTaskManager.SetStatusForEpic | src/main/java/org/example/managers_types/InMemoryTaskManager.java:346-364 | the epic's status becomes the rollup over its listed subtasks, and no other entity or store changes |
| ManagersTypes.InMemoryTaskManager.SetStartTimeEpic | src/main/java/org/example/managers_types/InMemoryTaskManager.java:369-382 | MaxTime without subtasks, otherwise the start of the last listed subtask |
| ManagersTypes.InMemoryTaskManager.SetEndTimeEpic | src/main/java/org/example/managers_types/InMemoryTaskManager.java:387-400 | MinTime without subtasks, otherwise the end of the last listed subtask |
| ManagersTypes.InMemoryTaskManager.SetDurationEpic | src/main/java/org/example/managers_types/InMemoryTaskManager.java:405-408 | the epic's duration becomes its end minus its start |
| ManagersTypes.InMemoryTaskManager.UpdateTimeEpic | src/main/java/org/example/managers_types/InMemoryTaskManager.java:413-431 | start, end and duration follow LastStartBefore, LastEndAfter and the old duration plus TotalDuration, each over the subtasks as they were before the call |
| ManagersTypes.InMemoryTaskManager.CheckTasksForIntersectionsByTime | src/main/java/org/example/managers_types/InMemoryTaskManager.java:436-454 | true iff every index entry has the task's id or a half-open interval that ends by the task's start or starts at or after its end; always true on an empty index |
| ManagersTypes.InMemoryTaskManager.AddTasksInPrioritizedList | src/main/java/org/example/managers_types/InMemoryTaskManager.java:459-467 | a non-epic that passes the check is indexed under its start, replacing any entry there; otherwise the index is unchanged; an overlap-free index stays overlap-free |
| ManagersTypes.NoOverlapShrinks | src/main/java/org/example/managers_types/InMemoryTaskManager.java:123-125 | removing keys from an overlap-free index leaves it overlap-free |
| ManagersTypes.InsertKeepsNoOverlap | src/main/java/org/example/managers_types/InMemoryTaskManager.java:459-463 | inserting an entity that passed the overlap check keeps every pair of entries with different ids non-overlapping |
| EpicRollup.Rollup | src/main/java/org/example/managers_types/InMemoryTaskManager.java:357-361 | the rollup never yields NEW |
| EpicRollup.AllClosedIffAllDone | src/main/java/org/example/managers_types/InMemoryTaskManager.java:347-355 | the loop's flag stays true iff every subtask seen is DONE |
| EpicRollup.RollupMeaning | src/main/java/org/example/managers_types/InMemoryTaskManager.java:346-364 | DONE iff every listed subtask is DONE, vacuously for none; IN_PROGRESS iff some listed subtask is NEW or IN_PROGRESS |
| EpicRollup.LastStartBeforeBounds | src/main/java/org/example/managers_types/InMemoryTaskManager.java:414-423 | the start left by updateTimeEpic never exceeds the captured start and is either that start or some subtask's start; it need not be the least |
| EpicRollup.LastEndAfterBounds | src/main/java/org/example/managers_types/InMemoryTaskManager.java:415-426 | the end left by updateTimeEpic is at least the captured end and is either that end or some subtask's end |
| EpicRollup.TotalDurationNonNegative | src/main/java/org/example/managers_types/InMemoryTaskManager.java:416-428 | with non-negative subtask durations, the amount updateTimeEpic adds is non-negative |
| SubtaskIds.IndexOf | src/main/java/org/example/managers_types/InMemoryTaskManager.java:308 | the position found holds the id and no earlier position does |
| SubtaskIds.RemoveFirst | src/main/java/org/example/managers_types/InMemoryTaskManager.java:308 | when the id is present, its first occurrence leaves the list and every other id keeps its position relative to the rest; when absent, the list is unchanged; the multiset of ids loses exactly that one id |
| SubtaskIds.RemoveFirstUndoesAppend | src/main/java/org/example/managers_types/InMemoryTaskManager.java:304-312 | deleting a subtask whose fresh id was appended at creation restores the epic's list exactly |
| SubtaskIds.RemoveFirstAfterDoubleAppend | src/main/java/org/example/managers_types/InMemoryTaskManager.java:335 | after setStatusForSubtask has appended the id a second time, one delete leaves the id listed once |
| OrderedKeys.SortedKeys | src/main/java/org/example/managers_types/InMemoryTaskManager.java:26 | every key exactly once: same size as the key set, same members |
| OrderedKeys.SortedKeysAscending | src/main/java/org/example/managers_types/InMemoryTaskManager.java:110-112 | the TreeMap order is strictly ascending |
| OrderedKeys.ValuesInKeyOrder | src/main/java/org/example/managers_types/InMemoryTaskManager.java:111 | one value per key, position i holding the value of the i-th key in ascending order |
| OrderedKeys.ValuesInKeyOrderCover | src/main/java/org/example/managers_types/InMemoryTaskManager.java:87 | a value is listed iff it is stored in the map |

## Left out

- The history manager's own behaviour is not part of this model: bounding, de-duplication
  and ordering of viewed entities. Its calls are recorded in the ghost `history` log only;
  its code is not available.
- `getHistoryManager` (lines 472-475) and `getCreatedID` (487-489) are plain field reads.
- `equals`, `hashCode` and `toString` (491-519) are not modelled: they have no effect on the
  manager's state.
- The console message printed when an entity fails the overlap check (464) is left out; the
  index is left unchanged, as modelled.
- Java `long` ids and the `LocalDateTime`/`Duration` arithmetic are unbounded integers here, so
  overflow of the id counter and time-arithmetic exceptions are not modelled.
- Times are integers on one time line. `LocalDateTime.MAX`/`MIN` are the stand-ins `MaxTime`/`MinTime`.
- The entity classes are not part of this model. Six assumptions are made about them:
  - a task or subtask ends at start plus duration;
  - each getter returns what its setter last stored: an epic reports the end time it stores,
    and `Epic.getStartTime()`/`getEndTime()` return the value just given to
    `setStartTime`/`setEndTime` (lines 375-376 and 393-394);
  - `getIdsOfSubtasksEpic()` returns the epic's own live list, not a copy, so the changes
    made through it at lines 75, 163, 308 and 335 change the epic's list;
  - `getNumberId` returns a primitive `long`, so the id comparison at line 442 compares values;
  - `getIdsOfSubtasksEpic()` returns a `List` that keeps duplicates, so the append at line 335
    lists an id a second time; its declared type is not part of this model;
  - start times and durations are never null, so the TreeMap calls at lines 124 and 462 and the
    end-time computation behind line 445 do not throw.
- HashMap iteration order is not specified in Java. The walks over store keys that call
  `historyManager.remove` (lines 119-121, 135-137 and 152-154) go in ascending key order
  here, as do the `getListOf*` copies. The walks over store values that remove start-time
  keys (123-125, 139-141, 156-158) and the walk over the epic keys at line 162 pick
  elements in an unspecified order. The ascending order only fixes the order of the history
  calls made by the `clearListOf*` methods; no other result depends on it.
- CreateEpic, SetStartTimeEpic, SetEndTimeEpic, UpdateTimeEpic: they require every listed
  subtask id to be stored, where Java would throw on a missing one.
- SetStatusForEpic, SetStatusForSubtask, CreateSubtask: they too require every id the epic lists
  to be stored (for SetStatusForSubtask, every id except the subtask's own), and a state that
  breaks this is reachable. Take createTask(Epic), then createTask(Subtask), then
  setStatusForSubtask, which lists the id a second time, then deleteSubtaskForID, which
  removes one copy. The epic still lists the deleted id, and the next rollup over it throws
  a NullPointerException at line 351. The model does not take that path;
  SubtaskIds.RemoveFirstAfterDoubleAppend states the list it leaves.
- SetStartTimeEpic, SetEndTimeEpic: each loop compares the subtask's time with the value it
  has just assigned (lines 376 and 394), which is never true. That dead branch is not written out.
- UpdateTask, UpdateSubtask: the overlap check runs on the stored entity's old interval. The
  model therefore does not claim that an update keeps the index free of overlaps, and it does not.
