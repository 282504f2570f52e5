/**
 * What the manager derives for an epic from its subtasks: the status rollup and the
 * literal behaviour of the epic time helpers. Each function works on a snapshot of the
 * epic's subtasks (one Slot per listed id, in list order), so it is pure.
 */
module EpicRollup {
  import opened TaskTypes

  /** The parts of a subtask the epic helpers look at. */
  datatype Slot = Slot(start: int, end: int, duration: int, status: Status)

  /** The statuses that keep an epic open. */
  predicate Open(s: Status) {
    s == NEW || s == IN_PROGRESS
  }

  /**
   * The `isStatus` flag of the rollup loop after it has seen `slots`: it starts true
   * and drops to false at any open subtask.
   */
  function AllClosed(slots: seq<Slot>): bool {
    if slots == [] then true
    else AllClosed(slots[..|slots| - 1]) && !Open(slots[|slots| - 1].status)
  }

  /** The status the rollup gives an epic whose subtasks are `slots`. */
  function Rollup(slots: seq<Slot>): (r: Status)
    ensures r != NEW
  {
    if AllClosed(slots) then DONE else IN_PROGRESS
  }

  /** The flag stays true exactly when every subtask seen is DONE. */
  lemma {:induction false} AllClosedIffAllDone(slots: seq<Slot>)
    ensures AllClosed(slots) <==> forall i :: 0 <= i < |slots| ==> slots[i].status == DONE
  {
    if slots != [] {
      var init := slots[..|slots| - 1];
      AllClosedIffAllDone(init);
      assert forall i :: 0 <= i < |init| ==> init[i] == slots[i];
    }
  }

  /**
   * The rollup is DONE when every listed subtask is DONE, vacuously so for an epic
   * without subtasks, and IN_PROGRESS as soon as one of them is NEW or IN_PROGRESS.
   */
  lemma RollupMeaning(slots: seq<Slot>)
    ensures Rollup(slots) == DONE <==> forall i :: 0 <= i < |slots| ==> slots[i].status == DONE
    ensures Rollup(slots) == IN_PROGRESS <==> exists i :: 0 <= i < |slots| && Open(slots[i].status)
    ensures slots == [] ==> Rollup(slots) == DONE
  {
    AllClosedIffAllDone(slots);
  }

  /**
   * The start the time-update loop leaves: the start of the LAST subtask that begins
   * before `bound` (the epic's start captured before the loop), or `bound` when none does.
   */
  function LastStartBefore(slots: seq<Slot>, bound: int): int {
    if slots == [] then bound
    else if slots[|slots| - 1].start < bound then slots[|slots| - 1].start
    else LastStartBefore(slots[..|slots| - 1], bound)
  }

  /** Symmetrically, the end of the LAST subtask that ends after `bound`, or `bound`. */
  function LastEndAfter(slots: seq<Slot>, bound: int): int {
    if slots == [] then bound
    else if slots[|slots| - 1].end > bound then slots[|slots| - 1].end
    else LastEndAfter(slots[..|slots| - 1], bound)
  }

  /** The sum of the subtasks' durations. */
  function TotalDuration(slots: seq<Slot>): int {
    if slots == [] then 0
    else TotalDuration(slots[..|slots| - 1]) + slots[|slots| - 1].duration
  }

  /**
   * The start left by the loop never lies after the captured start, and it is either
   * the captured start or some subtask's start. It need not be the least start.
   */
  lemma {:induction false} LastStartBeforeBounds(slots: seq<Slot>, bound: int)
    ensures LastStartBefore(slots, bound) <= bound
    ensures LastStartBefore(slots, bound) == bound
      || exists i :: 0 <= i < |slots| && slots[i].start == LastStartBefore(slots, bound)
  {
    if slots != [] && slots[|slots| - 1].start >= bound {
      var init := slots[..|slots| - 1];
      LastStartBeforeBounds(init, bound);
      if LastStartBefore(init, bound) != bound {
        var i :| 0 <= i < |init| && init[i].start == LastStartBefore(init, bound);
        assert slots[i] == init[i];
      }
    }
  }

  /** Symmetrically, the end left by the loop is the captured end or some subtask's end, never less. */
  lemma {:induction false} LastEndAfterBounds(slots: seq<Slot>, bound: int)
    ensures LastEndAfter(slots, bound) >= bound
    ensures LastEndAfter(slots, bound) == bound
      || exists i :: 0 <= i < |slots| && slots[i].end == LastEndAfter(slots, bound)
  {
    if slots != [] && slots[|slots| - 1].end <= bound {
      var init := slots[..|slots| - 1];
      LastEndAfterBounds(init, bound);
      if LastEndAfter(init, bound) != bound {
        var i :| 0 <= i < |init| && init[i].end == LastEndAfter(init, bound);
        assert slots[i] == init[i];
      }
    }
  }

  /** Durations that are not negative add up to a total that is not negative. */
  lemma {:induction false} TotalDurationNonNegative(slots: seq<Slot>)
    requires forall i :: 0 <= i < |slots| ==> slots[i].duration >= 0
    ensures TotalDuration(slots) >= 0
  {
    if slots != [] {
      var init := slots[..|slots| - 1];
      assert forall i :: 0 <= i < |init| ==> init[i] == slots[i];
      TotalDurationNonNegative(init);
    }
  }

  /** One more subtask seen by the status loop: the flag drops if that subtask is open. */
  lemma AllClosedStep(slots: seq<Slot>, i: int)
    requires 0 <= i < |slots|
    ensures AllClosed(slots[..i + 1]) == (AllClosed(slots[..i]) && !Open(slots[i].status))
  {
    assert slots[..i + 1][..i] == slots[..i];
  }

  /** One more subtask seen by the start loop: its start wins if it lies before `bound`. */
  lemma LastStartBeforeStep(slots: seq<Slot>, i: int, bound: int)
    requires 0 <= i < |slots|
    ensures LastStartBefore(slots[..i + 1], bound)
      == if slots[i].start < bound then slots[i].start else LastStartBefore(slots[..i], bound)
  {
    assert slots[..i + 1][..i] == slots[..i];
  }

  /** One more subtask seen by the end loop: its end wins if it lies after `bound`. */
  lemma LastEndAfterStep(slots: seq<Slot>, i: int, bound: int)
    requires 0 <= i < |slots|
    ensures LastEndAfter(slots[..i + 1], bound)
      == if slots[i].end > bound then slots[i].end else LastEndAfter(slots[..i], bound)
  {
    assert slots[..i + 1][..i] == slots[..i];
  }

  /** One more subtask seen by the duration loop: its duration is added. */
  lemma TotalDurationStep(slots: seq<Slot>, i: int)
    requires 0 <= i < |slots|
    ensures TotalDuration(slots[..i + 1]) == TotalDuration(slots[..i]) + slots[i].duration
  {
    assert slots[..i + 1][..i] == slots[..i];
  }

}
