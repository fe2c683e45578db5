/**
 * The per-task view (components/TodoItem.tsx): which actions it offers, the
 * subtask progress counter and the open/closed state of the subtask section.
 */
module TodoItem {
  import opened Wrappers
  import opened Types
  import opened Seqs

  /** `task.subtasks?.length`, the dependency of the effect that opens the section. */
  function SubtaskCount(t: Task): (n: Option<nat>)
    ensures n.None? <==> t.subtasks.None?
    ensures n.Some? ==> n.value == |t.subtasks.value|
  {
    match t.subtasks
    case None => None
    case Some(ss) => Some(|ss|)
  }

  /**
   * The subtask section is rendered: subtasks present and non-empty, that is
   * a subtask count that is neither undefined nor zero.
   */
  function SubtaskSectionShown(t: Task): (shown: bool)
    ensures shown <==> SubtaskCount(t) != None && SubtaskCount(t) != Some(0)
  {
    t.subtasks.Some? && |t.subtasks.value| > 0
  }

  /**
   * The AI expand button is shown: not completed, and no subtasks yet (absent
   * or empty). So it never appears together with the subtask section.
   */
  function ExpandOffered(t: Task): (offered: bool)
    ensures offered <==> !t.completed && !SubtaskSectionShown(t)
  {
    !t.completed && (t.subtasks.None? || |t.subtasks.value| == 0)
  }

  /**
   * The expand button is disabled while a request is in flight: only an
   * `isExpanding` that is present and true disables it; absent means not loading.
   */
  function ExpandDisabled(t: Task): (disabled: bool)
    ensures disabled ==> t.isExpanding.Some?
    ensures t.isExpanding.None? ==> !disabled
    ensures t.isExpanding.Some? ==> (disabled <==> t.isExpanding.value)
  {
    t.isExpanding == Some(true)
  }

  /** `s => s.completed` */
  predicate IsDone(s: Subtask) { s.completed }

  /**
   * The first number of the "done/total Subtasks" counter: at most the total,
   * and equal to it exactly when every subtask is completed.
   */
  function CompletedSubtaskCount(ss: seq<Subtask>): (n: nat)
    ensures n <= |ss|
    ensures n == |ss| <==> forall i :: 0 <= i < |ss| ==> ss[i].completed
  {
    FilterFull(IsDone, ss);
    |Filter(IsDone, ss)|
  }

  /**
   * One mounted TodoItem: the task it last rendered and its `isDetailsOpen`
   * flag, which the header click flips and the effect may only set to true.
   */
  class SubtaskDetails {
    var task: Task
    var isDetailsOpen: bool

    /** The flag starts open exactly when there are subtasks to show; the mount effect keeps it so. */
    constructor (t: Task)
      ensures task == t
      ensures isDetailsOpen == SubtaskSectionShown(t)
    {
      task := t;
      isDetailsOpen := SubtaskSectionShown(t);
    }

    /**
     * A re-render with a new `task` prop. When the subtask count changed, the
     * effect runs and opens the section if there are subtasks; otherwise the
     * flag is kept. Either way it never closes.
     */
    method Rerender(t: Task)
      modifies this
      ensures task == t
      ensures SubtaskCount(t) != SubtaskCount(old(task)) && SubtaskSectionShown(t) ==> isDetailsOpen
      ensures !(SubtaskCount(t) != SubtaskCount(old(task)) && SubtaskSectionShown(t)) ==>
                isDetailsOpen == old(isDetailsOpen)
      ensures old(isDetailsOpen) ==> isDetailsOpen
    {
      var changed := SubtaskCount(t) != SubtaskCount(task);
      task := t;
      if changed && SubtaskSectionShown(t) {
        isDetailsOpen := true;
      }
    }

    /** A click on the section header flips the flag. */
    method ClickHeader()
      modifies this`isDetailsOpen
      ensures isDetailsOpen == !old(isDetailsOpen)
    {
      isDetailsOpen := !isDetailsOpen;
    }
  }
}
