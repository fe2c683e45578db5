/**
 * The application state (App.tsx): one cell holding the task list and one
 * holding the chosen filter. Every handler overwrites the list with a
 * transition of module TaskList applied to the current list; the AI
 * expansion does so twice, once when it starts and once when the
 * suggestion request settles.
 */
module App {
  import opened Wrappers
  import opened Types
  import TaskList
  import opened TodoItem

  class TaskStore {
    var tasks: seq<Task>
    var filter: FilterType

    /** Task ids are unique, and so are subtask ids within each task. */
    predicate Valid()
      reads this
    {
      TaskList.WellFormed(tasks)
    }

    /** The list starts empty and the filter at `all`. */
    constructor ()
      ensures Valid() && tasks == [] && filter == All
    {
      tasks := [];
      filter := All;
    }

    /** `addTask`, with `id` the fresh UUID and `now` the clock reading. */
    method AddTask(text: string, id: Id, now: int)
      requires Valid() && TaskList.Absent(tasks, id)
      modifies this
      ensures Valid()
      ensures tasks == TaskList.AddTask(old(tasks), id, text, now) && filter == old(filter)
    {
      TaskList.AddTaskWellFormed(tasks, id, text, now);
      tasks := TaskList.AddTask(tasks, id, text, now);
    }

    /** `toggleTask` */
    method ToggleTask(id: Id)
      requires Valid()
      modifies this
      ensures Valid()
      ensures tasks == TaskList.ToggleTask(old(tasks), id) && filter == old(filter)
    {
      TaskList.ToggleTaskWellFormed(tasks, id);
      tasks := TaskList.ToggleTask(tasks, id);
    }

    /** `deleteTask` */
    method DeleteTask(id: Id)
      requires Valid()
      modifies this
      ensures Valid()
      ensures tasks == TaskList.DeleteTask(old(tasks), id) && filter == old(filter)
    {
      TaskList.DeleteTaskWellFormed(tasks, id);
      tasks := TaskList.DeleteTask(tasks, id);
    }

    /**
     * The synchronous part of `handleAiExpand`: look the task up and, when it
     * exists, mark it as loading. `snapshot` is the task found (its text is
     * what is sent to the suggestion service); when none is found the handler
     * returns and nothing changes.
     */
    method BeginAiExpand(taskId: Id) returns (snapshot: Option<Task>)
      requires Valid()
      modifies this
      ensures Valid()
      ensures snapshot == TaskList.Find(old(tasks), taskId) && filter == old(filter)
      ensures snapshot.None? ==> tasks == old(tasks)
      ensures snapshot.Some? ==> tasks == TaskList.BeginExpand(old(tasks), taskId)
    {
      snapshot := TaskList.Find(tasks, taskId);
      if snapshot.Some? {
        TaskList.ExpandFlagWellFormed(tasks, taskId);
        tasks := TaskList.BeginExpand(tasks, taskId);
      }
    }

    /**
     * The part of `handleAiExpand` after the request settles, applied to the
     * list as it is then. `response` is the suggestions, or `None` when the
     * request threw; `ids` are the UUIDs generated for the subtasks.
     */
    method ResolveAiExpand(taskId: Id, response: Option<seq<string>>, ids: seq<Id>)
      requires Valid()
      requires response.Some? ==> |ids| == |response.value|
      requires forall i, j :: 0 <= i < j < |ids| ==> ids[i] != ids[j]
      modifies this
      ensures Valid() && filter == old(filter)
      ensures response.Some? ==> tasks == TaskList.CompleteExpand(old(tasks), taskId, response.value, ids)
      ensures response.None? ==> tasks == TaskList.FailExpand(old(tasks), taskId)
    {
      match response
      case Some(suggestions) =>
        TaskList.CompleteExpandWellFormed(tasks, taskId, suggestions, ids);
        tasks := TaskList.CompleteExpand(tasks, taskId, suggestions, ids);
      case None =>
        TaskList.ExpandFlagWellFormed(tasks, taskId);
        tasks := TaskList.FailExpand(tasks, taskId);
    }

    /** `toggleSubtask` */
    method ToggleSubtask(taskId: Id, subtaskId: Id)
      requires Valid()
      modifies this
      ensures Valid()
      ensures tasks == TaskList.ToggleSubtask(old(tasks), taskId, subtaskId) && filter == old(filter)
    {
      TaskList.ToggleSubtaskWellFormed(tasks, taskId, subtaskId);
      tasks := TaskList.ToggleSubtask(tasks, taskId, subtaskId);
    }

    /** A click on one of the three filter buttons. */
    method SetFilter(f: FilterType)
      requires Valid()
      modifies this
      ensures Valid()
      ensures filter == f && tasks == old(tasks)
    {
      filter := f;
    }

    /**
     * `filteredTasks`, the list that is rendered: exactly the tasks whose
     * status the current filter asks for, in list order.
     */
    function Visible(): (visible: seq<Task>)
      reads this
      ensures forall t :: t in visible <==>
                t in tasks && (filter == Active ==> !t.completed) && (filter == Completed ==> t.completed)
      ensures filter == All ==> visible == tasks
    {
      TaskList.FilteredAllIsEverything(tasks);
      TaskList.FilteredTasks(tasks, filter)
    }

    /**
     * `activeCount`, shown in the header: the length of the `active` view,
     * which is the number of tasks less the completed ones.
     */
    function ActiveCount(): (n: nat)
      reads this
      ensures n == |TaskList.FilteredTasks(tasks, Active)|
      ensures n == |tasks| - |TaskList.FilteredTasks(tasks, Completed)|
    {
      TaskList.ActiveCountIsActiveView(tasks);
      TaskList.ActiveCount(tasks)
    }
  }

  // ---------------------------------------------------------------------------
  // What the item view shows after each transition
  // ---------------------------------------------------------------------------

  /** A new task offers the expand action, enabled, and no subtask section. */
  lemma NewTaskOffersExpand(ts: seq<Task>, id: Id, text: string, now: int)
    ensures var t := TaskList.AddTask(ts, id, text, now)[0];
      ExpandOffered(t) && !ExpandDisabled(t) && !SubtaskSectionShown(t)
  {
  }

  /** Starting an expansion disables the button without hiding or showing anything. */
  lemma BeginExpandDisables(ts: seq<Task>, id: Id, k: nat)
    requires k < |ts| && ts[k].id == id
    ensures var t := TaskList.BeginExpand(ts, id)[k];
      ExpandDisabled(t) && ExpandOffered(t) == ExpandOffered(ts[k]) &&
      SubtaskSectionShown(t) == SubtaskSectionShown(ts[k])
  {
  }

  /**
   * A failed expansion returns the task to its state before the request, the
   * loading flag aside: same subtasks and completion, the expand action
   * offered as before and enabled again.
   */
  lemma FailedExpandRestores(ts: seq<Task>, id: Id, k: nat)
    requires k < |ts| && ts[k].id == id
    ensures var t := TaskList.FailExpand(TaskList.BeginExpand(ts, id), id)[k];
      !ExpandDisabled(t) && t == ts[k].(isExpanding := Some(false)) &&
      ExpandOffered(t) == ExpandOffered(ts[k]) && SubtaskSectionShown(t) == SubtaskSectionShown(ts[k])
  {
  }

  /**
   * A successful expansion with at least one suggestion shows the subtask
   * section with none of them done and withdraws the expand action.
   */
  lemma CompletedExpandShowsSection(ts: seq<Task>, id: Id, texts: seq<string>, ids: seq<Id>, k: nat)
    requires |ids| == |texts| && texts != [] && k < |ts| && ts[k].id == id
    ensures var t := TaskList.CompleteExpand(ts, id, texts, ids)[k];
      SubtaskSectionShown(t) && !ExpandOffered(t) && !ExpandDisabled(t) &&
      CompletedSubtaskCount(t.subtasks.value) == 0
  {
    // No new subtask is done, so the not-done filter keeps them all and the done filter none.
    var ss := TaskList.CompleteExpand(ts, id, texts, ids)[k].subtasks.value;
    Seqs.FilterKeepsAll(x => !IsDone(x), ss);
    Seqs.FilterPartition(IsDone, x => !IsDone(x), ss);
  }

  /** Toggling a subtask never shows, hides or re-offers anything in any item. */
  lemma ToggleSubtaskKeepsLayout(ts: seq<Task>, taskId: Id, subtaskId: Id, k: nat)
    requires k < |ts|
    ensures var t := TaskList.ToggleSubtask(ts, taskId, subtaskId)[k];
      SubtaskSectionShown(t) == SubtaskSectionShown(ts[k]) &&
      ExpandOffered(t) == ExpandOffered(ts[k]) && ExpandDisabled(t) == ExpandDisabled(ts[k])
  {
  }
}
