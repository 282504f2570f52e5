/**
 * The entity model: plain tasks, epics and subtasks.
 *
 * The Java program has a class per kind (Task, Epic extends Task, Subtask extends Task)
 * and the manager tells them apart with `instanceof`. Here one class carries all the
 * fields, and the immutable `kind` says which Java class an object is an instance of.
 * Entities are objects, not values: the manager stores the very object the caller
 * passed in, the same object can sit in a store map and in the start-time index, and
 * the manager changes entities through their setters.
 *
 * Times (LocalDateTime) and durations (Duration) are integers on one time line
 * (minutes, say); the manager only compares, adds and subtracts them.
 */
module TaskTypes {

  datatype Status = NEW | IN_PROGRESS | DONE

  /** The dynamic class of an entity object. */
  datatype Kind = PlainTask | Epic | Subtask

  /** Stand-ins for LocalDateTime.MAX and LocalDateTime.MIN on the integer time line. */
  const MaxTime: int := 1_000_000_000_000_000
  const MinTime: int := -1_000_000_000_000_000

  class Task {
    const kind: Kind
    var id: int
    var name: string
    var description: string
    var status: Status
    var start: int
    var duration: int
    /** The end time an Epic stores for itself (Epic.setEndTime); unused by other kinds. */
    var endTime: int
    /** The ids of an Epic's subtasks, in insertion order, duplicates possible. */
    var subtaskIds: seq<int>
    /** The id of a Subtask's parent epic. */
    const epicId: int

    /** getEndTime(): an Epic answers its stored end; a task or subtask ends at start + duration. */
    function End(): int
      reads this
    {
      if kind == Epic then endTime else start + duration
    }

    constructor (kind: Kind, name: string, description: string, start: int, duration: int, epicId: int)
      ensures this.kind == kind && this.name == name && this.description == description
      ensures this.start == start && this.duration == duration && this.epicId == epicId
      ensures id == 0 && status == NEW && subtaskIds == [] && endTime == start + duration
    {
      this.kind := kind;
      this.name := name;
      this.description := description;
      this.start := start;
      this.duration := duration;
      this.epicId := epicId;
      id := 0;
      status := NEW;
      subtaskIds := [];
      endTime := start + duration;
    }
  }
}
