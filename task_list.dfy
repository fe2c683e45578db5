/**
 * The state transitions of the task list (App.tsx). Each handler of the
 * application replaces the whole list by a new one computed from the
 * previous list with `map`, `filter` or a prepend; here each is a function
 * from the previous list to the next. Generated ids and the clock are
 * parameters.
 */
module TaskList {
  import opened Wrappers
  import opened Types
  import opened Seqs

  // ---------------------------------------------------------------------------
  // The collection invariant: ids are unique
  // ---------------------------------------------------------------------------

  predicate DistinctTaskIds(a: Task, b: Task) { a.id != b.id }

  predicate DistinctSubtaskIds(a: Subtask, b: Subtask) { a.id != b.id }

  /** Subtask ids are unique within their parent's list (vacuous when absent). */
  predicate SubtaskIdsUnique(t: Task)
  {
    match t.subtasks
    case None => true
    case Some(ss) => Pairwise(DistinctSubtaskIds, ss)
  }

  /** Task ids are unique in the list, and subtask ids within each task. */
  predicate WellFormed(ts: seq<Task>)
  {
    Pairwise(DistinctTaskIds, ts) && forall t :: t in ts ==> SubtaskIdsUnique(t)
  }

  /** No task of `ts` carries `id`. */
  predicate Absent(ts: seq<Task>, id: Id)
  {
    forall i :: 0 <= i < |ts| ==> ts[i].id != id
  }

  /** `tasks.find(t => t.id === id)`: the first task with that id, if any. */
  function Find(ts: seq<Task>, id: Id): (r: Option<Task>)
    ensures r.None? <==> Absent(ts, id)
    ensures r.Some? ==> r.value.id == id && exists i :: 0 <= i < |ts| && ts[i] == r.value && Absent(ts[..i], id)
  {
    if ts == [] then None
    else if ts[0].id == id then
      assert ts[..0] == [];
      Some(ts[0])
    else
      var r := Find(ts[1..], id);
      if r.Some? then
        var i :| 0 <= i < |ts[1..]| && ts[1..][i] == r.value && Absent(ts[1..][..i], id);
        assert ts[i + 1] == r.value && Absent(ts[..i + 1], id) by {
          assert ts[..i + 1] == [ts[0]] + ts[1..][..i];
        }
        r
      else r
  }

  // ---------------------------------------------------------------------------
  // addTask
  // ---------------------------------------------------------------------------

  /**
   * `[newTask, ...prev]`: the new task, not completed, with no subtasks and no
   * loading flag, goes in front of the unchanged previous list.
   */
  function AddTask(ts: seq<Task>, id: Id, text: string, now: int): (r: seq<Task>)
    ensures |r| == |ts| + 1
    ensures r[0].id == id && r[0].text == text && r[0].createdAt == now
    ensures !r[0].completed && r[0].subtasks == None && r[0].isExpanding == None
    ensures r[1..] == ts
  {
    [Task(id, text, false, now, None, None)] + ts
  }

  lemma AddTaskWellFormed(ts: seq<Task>, id: Id, text: string, now: int)
    requires WellFormed(ts) && Absent(ts, id)
    ensures WellFormed(AddTask(ts, id, text, now))
  {
  }

  // ---------------------------------------------------------------------------
  // toggleTask
  // ---------------------------------------------------------------------------

  /** `t => t.id === id ? { ...t, completed: !t.completed } : t` */
  function Toggled(id: Id): Task -> Task
  {
    (t: Task) => if t.id == id then t.(completed := !t.completed) else t
  }

  /**
   * Same length and order; the tasks with the given id have `completed`
   * flipped and nothing else changed; every other task is untouched.
   */
  function ToggleTask(ts: seq<Task>, id: Id): (r: seq<Task>)
    ensures |r| == |ts|
    ensures forall i :: 0 <= i < |ts| && ts[i].id != id ==> r[i] == ts[i]
    ensures forall i :: 0 <= i < |ts| && ts[i].id == id ==>
              r[i].completed == !ts[i].completed && r[i] == ts[i].(completed := r[i].completed)
  {
    Map(Toggled(id), ts)
  }

  lemma ToggleTaskTwice(ts: seq<Task>, id: Id)
    ensures ToggleTask(ToggleTask(ts, id), id) == ts
  {
  }

  lemma ToggleTaskUnknownId(ts: seq<Task>, id: Id)
    requires Absent(ts, id)
    ensures ToggleTask(ts, id) == ts
  {
  }

  // ---------------------------------------------------------------------------
  // deleteTask
  // ---------------------------------------------------------------------------

  /** `t => t.id !== id` */
  function HasOtherId(id: Id): Task -> bool
  {
    (t: Task) => t.id != id
  }

  /** Keeps exactly the tasks whose id differs, so none left carries `id`. */
  function DeleteTask(ts: seq<Task>, id: Id): (r: seq<Task>)
    ensures |r| <= |ts|
    ensures forall t :: t in r <==> t in ts && t.id != id
    ensures Absent(r, id)
  {
    var r := Filter(HasOtherId(id), ts);
    assert forall i :: 0 <= i < |r| ==> r[i] in r;
    r
  }

  /** Deletion keeps the survivors in their original relative order. */
  lemma DeleteTaskKeepsOrder(a: seq<Task>, b: seq<Task>, id: Id)
    ensures DeleteTask(a + b, id) == DeleteTask(a, id) + DeleteTask(b, id)
  {
    FilterConcat(HasOtherId(id), a, b);
  }

  lemma DeleteTaskUnknownId(ts: seq<Task>, id: Id)
    requires Absent(ts, id)
    ensures DeleteTask(ts, id) == ts
  {
    FilterKeepsAll(HasOtherId(id), ts);
  }

  lemma DeleteTaskIdempotent(ts: seq<Task>, id: Id)
    ensures DeleteTask(DeleteTask(ts, id), id) == DeleteTask(ts, id)
  {
    FilterIdempotent(HasOtherId(id), ts);
  }

  /** In a list with unique ids, deleting a present id removes exactly one task. */
  lemma DeleteTaskRemovesOne(ts: seq<Task>, id: Id, k: nat)
    requires WellFormed(ts) && k < |ts| && ts[k].id == id
    ensures |DeleteTask(ts, id)| == |ts| - 1
  {
    forall i | 0 <= i < |ts| && i != k
      ensures HasOtherId(id)(ts[i])
    {
      if i < k {
        assert DistinctTaskIds(ts[i], ts[k]);
      } else {
        assert DistinctTaskIds(ts[k], ts[i]);
      }
    }
    FilterDropsOne(HasOtherId(id), ts, k);
  }

  lemma DeleteTaskWellFormed(ts: seq<Task>, id: Id)
    requires WellFormed(ts)
    ensures WellFormed(DeleteTask(ts, id))
  {
    FilterPairwise(HasOtherId(id), DistinctTaskIds, ts);
  }

  /**
   * Toggling and deleting commute, so applying them one after the other to
   * the latest list loses neither update, in either order.
   */
  lemma ToggleDeleteCommute(ts: seq<Task>, toggled: Id, deleted: Id)
    ensures DeleteTask(ToggleTask(ts, toggled), deleted) == ToggleTask(DeleteTask(ts, deleted), toggled)
  {
    FilterMapCommute(HasOtherId(deleted), Toggled(toggled), ts);
  }

  // ---------------------------------------------------------------------------
  // handleAiExpand: the three updates
  // ---------------------------------------------------------------------------

  /** `t => t.id === id ? { ...t, isExpanding: flag } : t` */
  function WithExpanding(id: Id, flag: bool): Task -> Task
  {
    (t: Task) => if t.id == id then t.(isExpanding := Some(flag)) else t
  }

  /** Sets `isExpanding` on the task with that id and changes nothing else. */
  function BeginExpand(ts: seq<Task>, id: Id): (r: seq<Task>)
    ensures |r| == |ts|
    ensures forall i :: 0 <= i < |ts| && ts[i].id != id ==> r[i] == ts[i]
    ensures forall i :: 0 <= i < |ts| && ts[i].id == id ==>
              r[i].isExpanding == Some(true) && r[i] == ts[i].(isExpanding := r[i].isExpanding)
  {
    Map(WithExpanding(id, true), ts)
  }

  /**
   * The failure path: clears `isExpanding` on the task with that id and keeps
   * its subtasks, completion and every other field.
   */
  function FailExpand(ts: seq<Task>, id: Id): (r: seq<Task>)
    ensures |r| == |ts|
    ensures forall i :: 0 <= i < |ts| && ts[i].id != id ==> r[i] == ts[i]
    ensures forall i :: 0 <= i < |ts| && ts[i].id == id ==>
              r[i].isExpanding == Some(false) && r[i] == ts[i].(isExpanding := r[i].isExpanding)
  {
    Map(WithExpanding(id, false), ts)
  }

  /**
   * `suggestions.map(text => ({ id: crypto.randomUUID(), text, completed: false }))`,
   * with the generated ids given in `ids`, one per suggestion.
   */
  function NewSubtasks(texts: seq<string>, ids: seq<Id>): (r: seq<Subtask>)
    requires |ids| == |texts|
    ensures |r| == |texts|
    ensures forall i :: 0 <= i < |r| ==> r[i].id == ids[i] && r[i].text == texts[i] && !r[i].completed
  {
    seq(|texts|, i requires 0 <= i < |texts| => Subtask(ids[i], texts[i], false))
  }

  /** Distinct generated ids make distinct subtask ids. */
  lemma NewSubtasksUniqueIds(texts: seq<string>, ids: seq<Id>)
    requires |ids| == |texts|
    requires forall i, j :: 0 <= i < j < |ids| ==> ids[i] != ids[j]
    ensures Pairwise(DistinctSubtaskIds, NewSubtasks(texts, ids))
  {
  }

  /** `t => t.id === id ? { ...t, subtasks, isExpanding: false } : t` */
  function WithSubtasks(id: Id, subtasks: seq<Subtask>): Task -> Task
  {
    (t: Task) => if t.id == id then t.(subtasks := Some(subtasks), isExpanding := Some(false)) else t
  }

  /**
   * The success path: the task with that id gets one fresh, uncompleted
   * subtask per suggestion, in order, and `isExpanding` cleared; all else
   * stays as it is in the current list.
   */
  function CompleteExpand(ts: seq<Task>, id: Id, texts: seq<string>, ids: seq<Id>): (r: seq<Task>)
    requires |ids| == |texts|
    ensures |r| == |ts|
    ensures forall i :: 0 <= i < |ts| && ts[i].id != id ==> r[i] == ts[i]
    ensures forall i :: 0 <= i < |ts| && ts[i].id == id ==>
              r[i].isExpanding == Some(false) && r[i].subtasks == Some(NewSubtasks(texts, ids)) &&
              r[i] == ts[i].(isExpanding := r[i].isExpanding, subtasks := r[i].subtasks)
  {
    Map(WithSubtasks(id, NewSubtasks(texts, ids)), ts)
  }

  /** What the expanded task holds afterwards, subtask by subtask. */
  lemma CompleteExpandSubtasks(ts: seq<Task>, id: Id, texts: seq<string>, ids: seq<Id>, k: nat)
    requires |ids| == |texts| && k < |ts| && ts[k].id == id
    ensures var t := CompleteExpand(ts, id, texts, ids)[k];
      t.subtasks.Some? && |t.subtasks.value| == |texts| &&
      (forall i :: 0 <= i < |texts| ==>
         t.subtasks.value[i].text == texts[i] && !t.subtasks.value[i].completed &&
         t.subtasks.value[i].id == ids[i])
  {
  }

  /** Completion and failure resolved against a list without the task change nothing. */
  lemma ResolveExpandUnknownId(ts: seq<Task>, id: Id, texts: seq<string>, ids: seq<Id>)
    requires |ids| == |texts| && Absent(ts, id)
    ensures CompleteExpand(ts, id, texts, ids) == ts
    ensures FailExpand(ts, id) == ts
  {
  }

  /**
   * A task deleted while its expansion is in flight stays deleted, and the
   * late response leaves the list as the deletion made it.
   */
  lemma ExpandResolvedAfterDelete(ts: seq<Task>, id: Id, texts: seq<string>, ids: seq<Id>)
    requires |ids| == |texts|
    ensures CompleteExpand(DeleteTask(BeginExpand(ts, id), id), id, texts, ids) == DeleteTask(ts, id)
    ensures FailExpand(DeleteTask(BeginExpand(ts, id), id), id) == DeleteTask(ts, id)
  {
    FilterMapCommute(HasOtherId(id), WithExpanding(id, true), ts);
    var d := DeleteTask(ts, id);
    assert BeginExpand(d, id) == d;
  }

  // ---------------------------------------------------------------------------
  // toggleSubtask
  // ---------------------------------------------------------------------------

  /** `s => s.id === subtaskId ? { ...s, completed: !s.completed } : s` */
  function SubtaskToggled(subtaskId: Id): Subtask -> Subtask
  {
    (s: Subtask) => if s.id == subtaskId then s.(completed := !s.completed) else s
  }

  /**
   * `{ ...t, subtasks: t.subtasks?.map(...) }`: only `subtasks` may change; an
   * absent list stays absent; a present one keeps its length and order, the
   * subtasks with that id have `completed` flipped and the others are unchanged.
   */
  function ToggleSubtaskOf(t: Task, subtaskId: Id): (r: Task)
    ensures r == t.(subtasks := r.subtasks)
    ensures r.subtasks.None? <==> t.subtasks.None?
    ensures t.subtasks.Some? ==>
              |r.subtasks.value| == |t.subtasks.value| &&
              forall j :: 0 <= j < |t.subtasks.value| ==>
                if t.subtasks.value[j].id == subtaskId
                then r.subtasks.value[j] == t.subtasks.value[j].(completed := !t.subtasks.value[j].completed)
                else r.subtasks.value[j] == t.subtasks.value[j]
  {
    match t.subtasks
    case None => t
    case Some(ss) => t.(subtasks := Some(Map(SubtaskToggled(subtaskId), ss)))
  }

  /** `t => t.id !== taskId ? t : ToggleSubtaskOf(t, subtaskId)` */
  function WithSubtaskToggled(taskId: Id, subtaskId: Id): Task -> Task
  {
    (t: Task) => if t.id != taskId then t else ToggleSubtaskOf(t, subtaskId)
  }

  /** Only the targeted task may change, and in it only the targeted subtask. */
  function ToggleSubtask(ts: seq<Task>, taskId: Id, subtaskId: Id): (r: seq<Task>)
    ensures |r| == |ts|
    ensures forall i :: 0 <= i < |ts| && ts[i].id != taskId ==> r[i] == ts[i]
    ensures forall i :: 0 <= i < |ts| && ts[i].id == taskId ==> r[i] == ToggleSubtaskOf(ts[i], subtaskId)
  {
    Map(WithSubtaskToggled(taskId, subtaskId), ts)
  }

  lemma ToggleSubtaskOfTwice(t: Task, subtaskId: Id)
    ensures ToggleSubtaskOf(ToggleSubtaskOf(t, subtaskId), subtaskId) == t
  {
    if t.subtasks.Some? {
      var ss := t.subtasks.value;
      var back := ToggleSubtaskOf(ToggleSubtaskOf(t, subtaskId), subtaskId).subtasks.value;
      assert back == ss;
    }
  }

  lemma ToggleSubtaskTwice(ts: seq<Task>, taskId: Id, subtaskId: Id)
    ensures ToggleSubtask(ToggleSubtask(ts, taskId, subtaskId), taskId, subtaskId) == ts
  {
    forall i | 0 <= i < |ts| && ts[i].id == taskId {
      ToggleSubtaskOfTwice(ts[i], subtaskId);
    }
  }

  // ---------------------------------------------------------------------------
  // Every transition keeps the ids unique
  // ---------------------------------------------------------------------------

  /**
   * A list obtained position by position from a well-formed one, keeping
   * every task id and either the subtasks or the uniqueness of their ids,
   * is well-formed.
   */
  lemma {:induction false} SameIdsWellFormed(ts: seq<Task>, r: seq<Task>)
    requires WellFormed(ts) && |r| == |ts|
    requires forall i :: 0 <= i < |ts| ==> r[i].id == ts[i].id
    requires forall i :: 0 <= i < |ts| ==> r[i].subtasks == ts[i].subtasks || SubtaskIdsUnique(r[i])
    ensures WellFormed(r)
  {
    forall i, j | 0 <= i < j < |r|
      ensures DistinctTaskIds(r[i], r[j])
    {
      assert DistinctTaskIds(ts[i], ts[j]);
    }
    forall t | t in r
      ensures SubtaskIdsUnique(t)
    {
      var i :| 0 <= i < |r| && r[i] == t;
      assert ts[i] in ts;
    }
  }

  lemma ToggleTaskWellFormed(ts: seq<Task>, id: Id)
    requires WellFormed(ts)
    ensures WellFormed(ToggleTask(ts, id))
  {
    SameIdsWellFormed(ts, ToggleTask(ts, id));
  }

  lemma ExpandFlagWellFormed(ts: seq<Task>, id: Id)
    requires WellFormed(ts)
    ensures WellFormed(BeginExpand(ts, id)) && WellFormed(FailExpand(ts, id))
  {
    SameIdsWellFormed(ts, BeginExpand(ts, id));
    SameIdsWellFormed(ts, FailExpand(ts, id));
  }

  lemma CompleteExpandWellFormed(ts: seq<Task>, id: Id, texts: seq<string>, ids: seq<Id>)
    requires WellFormed(ts) && |ids| == |texts|
    requires forall i, j :: 0 <= i < j < |ids| ==> ids[i] != ids[j]
    ensures WellFormed(CompleteExpand(ts, id, texts, ids))
  {
  }

  lemma ToggleSubtaskWellFormed(ts: seq<Task>, taskId: Id, subtaskId: Id)
    requires WellFormed(ts)
    ensures WellFormed(ToggleSubtask(ts, taskId, subtaskId))
  {
    var r := ToggleSubtask(ts, taskId, subtaskId);
    forall i | 0 <= i < |ts| && ts[i].id == taskId && ts[i].subtasks.Some?
      ensures SubtaskIdsUnique(r[i])
    {
      assert ts[i] in ts;
      var ss, rs := ts[i].subtasks.value, r[i].subtasks.value;
      forall a, b | 0 <= a < b < |rs|
        ensures DistinctSubtaskIds(rs[a], rs[b])
      {
        assert DistinctSubtaskIds(ss[a], ss[b]);
      }
    }
    SameIdsWellFormed(ts, r);
  }

  // ---------------------------------------------------------------------------
  // The derived views: filteredTasks and activeCount
  // ---------------------------------------------------------------------------

  /** The callback of `tasks.filter(...)` for the chosen filter. */
  function Shows(f: FilterType): Task -> bool
  {
    (t: Task) => match f
         case Active => !t.completed
         case Completed => t.completed
         case All => true
  }

  /** The tasks the filter shows: exactly those of the list with the wanted status. */
  function FilteredTasks(ts: seq<Task>, f: FilterType): (r: seq<Task>)
    ensures forall t :: t in r <==> t in ts && (f == Active ==> !t.completed) && (f == Completed ==> t.completed)
  {
    Filter(Shows(f), ts)
  }

  lemma FilteredAllIsEverything(ts: seq<Task>)
    ensures FilteredTasks(ts, All) == ts
  {
    FilterKeepsAll(Shows(All), ts);
  }

  /** Every view keeps the underlying order. */
  lemma FilteredTasksKeepsOrder(a: seq<Task>, b: seq<Task>, f: FilterType)
    ensures FilteredTasks(a + b, f) == FilteredTasks(a, f) + FilteredTasks(b, f)
  {
    FilterConcat(Shows(f), a, b);
  }

  /**
   * The active and completed views partition the whole list: every task is in
   * exactly one, and together they hold every task as often as the list does.
   */
  lemma ActiveCompletedPartition(ts: seq<Task>)
    ensures multiset(FilteredTasks(ts, Active)) + multiset(FilteredTasks(ts, Completed)) == multiset(FilteredTasks(ts, All))
    ensures |FilteredTasks(ts, Active)| + |FilteredTasks(ts, Completed)| == |ts|
    ensures forall t :: t in ts ==> (t in FilteredTasks(ts, Active) <==> t !in FilteredTasks(ts, Completed))
  {
    FilteredAllIsEverything(ts);
    FilterPartition(Shows(Active), Shows(Completed), ts);
  }

  /** `t => !t.completed`, the callback of `activeCount`. */
  predicate IsActive(t: Task) { !t.completed }

  /** `tasks.filter(t => !t.completed).length`. */
  function ActiveCount(ts: seq<Task>): (n: nat)
    ensures n <= |ts|
  {
    |Filter(IsActive, ts)|
  }

  /** The count shown in the header is the length of the active view. */
  lemma ActiveCountIsActiveView(ts: seq<Task>)
    ensures ActiveCount(ts) == |FilteredTasks(ts, Active)|
    ensures ActiveCount(ts) == |ts| - |FilteredTasks(ts, Completed)|
  {
    FilterAgree(IsActive, Shows(Active), ts);
    ActiveCompletedPartition(ts);
  }
}
