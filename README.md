# Gemini Smart To-Do: the task-list state model in Dafny

The application is a single-page to-do list. It holds one ordered list of tasks, newest first. Users add, toggle and delete tasks, filter the list by status, and can ask a remote text-generation service to break a task into subtasks. This project models the part of the application that carries logic:

- the records (`types.ts`): `Types.Subtask`, `Types.Task` and `Types.FilterType`. Optional fields are `Option`s, so an absent subtask list is a different value from an empty one, and an absent `isExpanding` is a third state beside `false` and `true`;
- every handler of `App.tsx`, each a pure function from the previous list to the next (module `TaskList`), built from JavaScript's `map` and `filter` (module `Seqs`);
- the state cell those handlers overwrite, as the class `App.TaskStore`. The AI expansion is two separate steps on it: `BeginAiExpand` when the button is pressed and `ResolveAiExpand` when the request settles. Any other operation may run in between;
- the display rules of `components/TodoItem.tsx` (module `TodoItem`): when the expand action is offered or disabled, when the subtask section is shown, the progress counter, and the `isDetailsOpen` flag (class `TodoItem.SubtaskDetails`);
- the new-task form of `components/AddTodo.tsx` (class `AddTodo.AddTodoForm`), with JavaScript's `String.prototype.trim` in module `JsString`.

Generated UUIDs and the clock are parameters. A fresh id is a precondition: a new task id is absent from the list, and the ids generated for one batch of subtasks are pairwise distinct. Under those preconditions every transition keeps the store invariant `TaskStore.Valid()`: task ids are unique, and subtask ids are unique within their task.

Notes on behaviour:

- `addTask` does not reject empty text. Only the form guards against it, so `TaskList.AddTask` accepts any text.
- A failed expansion sets `isExpanding` to `false` rather than removing the field. For the view the two states are the same (`App.FailedExpandRestores`).
- A successful expansion stores whatever the service returned, including an empty list. An empty list is `Some([])`, which offers the expand action again.

## Model

| member | source | states |
|---|---|---|
| `Seqs.Map` | App.tsx:44-46 | `map` keeps the length, and position i of the result is the callback applied to position i of the input |
| `Seqs.Filter` | App.tsx:50 | `filter` keeps exactly the elements its callback accepts and never grows the list |
| `TaskList.Find` | App.tsx:54-55 | `tasks.find` is absent exactly when no task has the id; otherwise it returns the first task with that id |
| `TaskList.AddTask` | App.tsx:33-40 | the list grows by one; the new head has the given id, text and time, is not completed, and has neither subtasks nor a loading flag; the tail is the previous list unchanged |
| `TaskList.AddTaskWellFormed` | App.tsx:33-40 | prepending a task whose id is fresh keeps ids unique |
| `TaskList.ToggleTask` | App.tsx:43-47 | same length and order; tasks with the id have `completed` flipped and every other field kept; all other tasks untouched |
| `TaskList.ToggleTaskTwice` | App.tsx:43-47 | toggling the same id twice gives back the original list |
| `TaskList.ToggleTaskUnknownId` | App.tsx:43-47 | toggling an id no task has leaves the list unchanged |
| `TaskList.ToggleTaskWellFormed` | App.tsx:43-47 | toggling keeps ids unique |
| `TaskList.DeleteTask` | App.tsx:49-51 | the result holds exactly the tasks whose id differs, so no remaining task has the id |
| `TaskList.DeleteTaskKeepsOrder` | App.tsx:49-51 | deletion commutes with concatenation, so survivors keep their original order |
| `TaskList.DeleteTaskUnknownId` | App.tsx:49-51 | deleting an id no task has leaves the list unchanged |
| `TaskList.DeleteTaskIdempotent` | App.tsx:49-51 | deleting the same id twice is the same as deleting it once |
| `TaskList.DeleteTaskRemovesOne` | App.tsx:49-51 | with unique ids, deleting a present id removes exactly one task |
| `TaskList.DeleteTaskWellFormed` | App.tsx:49-51 | deletion keeps ids unique |
| `TaskList.ToggleDeleteCommute` | App.tsx:43-51 | toggle and delete, each applied to the latest list, commute, so neither update is lost |
| `TaskList.BeginExpand` | App.tsx:58 | the task with the id gets `isExpanding = true` and nothing else changes |
| `TaskList.FailExpand` | App.tsx:72-75 | the task with the id gets `isExpanding = false`; its subtasks, completion and other fields are kept; all other tasks are untouched |
| `TaskList.NewSubtasks` | App.tsx:63-67 | one subtask per suggestion, in order: the i-th has the i-th text, the i-th generated id and is not completed |
| `TaskList.NewSubtasksUniqueIds` | App.tsx:63-67 | distinct generated ids give subtasks with distinct ids |
| `TaskList.CompleteExpand` | App.tsx:69-71 | the task with the id gets the new subtasks and `isExpanding = false`, with every other field kept; all other tasks are untouched |
| `TaskList.CompleteExpandSubtasks` | App.tsx:63-71 | the expanded task's subtask list has the suggestions' length; the i-th subtask has the i-th suggestion as text, is not completed and has the i-th fresh id |
| `TaskList.ResolveExpandUnknownId` | App.tsx:69-75 | completion and failure against a list without the task leave it unchanged |
| `TaskList.ExpandResolvedAfterDelete` | App.tsx:53-75 | begin, delete, then complete or fail gives the same list as the deletion alone, because the response is resolved against the current list |
| `TaskList.ExpandFlagWellFormed` | App.tsx:58-75 | setting the loading flag either way keeps ids unique |
| `TaskList.CompleteExpandWellFormed` | App.tsx:63-71 | installing subtasks with distinct fresh ids keeps all ids unique |
| `TaskList.ToggleSubtaskOf` | App.tsx:81-89 | only `subtasks` changes; absent stays absent; a present list keeps length and order, the subtasks with the id have `completed` flipped and their siblings are unchanged |
| `TaskList.ToggleSubtask` | App.tsx:80-90 | only the task with the task id changes, and it changes as `ToggleSubtaskOf` says; all other tasks are untouched; length is kept |
| `TaskList.ToggleSubtaskOfTwice` | App.tsx:81-89 | toggling the same subtask twice gives back the task |
| `TaskList.ToggleSubtaskTwice` | App.tsx:80-90 | toggling the same subtask twice gives back the list |
| `TaskList.ToggleSubtaskWellFormed` | App.tsx:80-90 | toggling a subtask keeps all ids unique |
| `TaskList.FilteredTasks` | App.tsx:92-96 | the view holds exactly the tasks with the wanted status: all of them, the uncompleted ones, or the completed ones |
| `TaskList.FilteredAllIsEverything` | App.tsx:92-96 | the `all` view is the list itself |
| `TaskList.FilteredTasksKeepsOrder` | App.tsx:92-96 | every view commutes with concatenation, so it keeps the underlying order |
| `TaskList.ActiveCompletedPartition` | App.tsx:92-96 | the `active` and `completed` views partition the `all` view: every task is in exactly one, and the multiset union and the lengths add up |
| `TaskList.ActiveCount` | App.tsx:98 | the active count is at most the number of tasks |
| `TaskList.ActiveCountIsActiveView` | App.tsx:92-98 | the active count equals the length of the `active` view, and the number of tasks minus the length of the `completed` view |
| `App.TaskStore.constructor` | App.tsx:9-10 | the list starts empty, the filter at `all`, and the invariant holds |
| `App.TaskStore.AddTask` | App.tsx:33-41 | with a fresh id, the list becomes `TaskList.AddTask` of the previous list; the invariant is kept and the filter is unchanged |
| `App.TaskStore.ToggleTask` | App.tsx:43-47 | the list becomes `TaskList.ToggleTask` of the previous list; the invariant is kept |
| `App.TaskStore.DeleteTask` | App.tsx:49-51 | the list becomes `TaskList.DeleteTask` of the previous list; the invariant is kept |
| `App.TaskStore.BeginAiExpand` | App.tsx:53-58 | returns the task found by id; if there is none, nothing changes, otherwise the list becomes `TaskList.BeginExpand` of it |
| `App.TaskStore.ResolveAiExpand` | App.tsx:60-77 | on a response, the current list becomes `TaskList.CompleteExpand` with it; on failure, `TaskList.FailExpand`; the invariant is kept |
| `App.TaskStore.ToggleSubtask` | App.tsx:80-90 | the list becomes `TaskList.ToggleSubtask` of the previous list; the invariant is kept |
| `App.TaskStore.SetFilter` | App.tsx:129 | the filter takes the clicked value, the list is unchanged and the invariant is kept |
| `App.TaskStore.Visible` | App.tsx:92-96 | the rendered list holds exactly the tasks whose status the current filter asks for, and under `all` it is the whole list |
| `App.TaskStore.ActiveCount` | App.tsx:98 | the header count is the length of the `active` view, which is the number of tasks less the completed ones |
| `App.NewTaskOffersExpand` | components/TodoItem.tsx:56-59 | a new task offers the expand action, enabled, and shows no subtask section |
| `App.BeginExpandDisables` | components/TodoItem.tsx:56-59 | after the begin step the task's expand button is disabled, and whether it is offered and whether the section is shown are unchanged |
| `App.FailedExpandRestores` | App.tsx:72-75 | begin followed by failure leaves the task as it was except `isExpanding = false`: subtasks and completion kept, the expand action offered as before and enabled again |
| `App.CompletedExpandShowsSection` | components/TodoItem.tsx:82-89 | after a successful, non-empty expansion the section is shown, the expand action is withdrawn and enabled, and the counter reads 0 done |
| `App.ToggleSubtaskKeepsLayout` | components/TodoItem.tsx:56-89 | toggling a subtask changes neither whether the section is shown nor whether expand is offered or disabled, in any item |
| `TodoItem.ExpandOffered` | components/TodoItem.tsx:56 | expand is offered exactly when the task is not completed and its subtasks are absent or empty, that is when the subtask section is not shown |
| `TodoItem.ExpandDisabled` | components/TodoItem.tsx:59 | the expand button is disabled exactly while `isExpanding` is present and true; an absent flag means not loading |
| `TodoItem.SubtaskSectionShown` | components/TodoItem.tsx:82 | the subtask section is shown exactly when subtasks are present and non-empty, that is when the subtask count is neither undefined nor zero |
| `TodoItem.SubtaskCount` | components/TodoItem.tsx:27 | the effect's dependency `task.subtasks?.length` is undefined exactly when subtasks are absent, otherwise their number |
| `TodoItem.CompletedSubtaskCount` | components/TodoItem.tsx:89 | the number of completed subtasks is at most the total, and equals it exactly when every subtask is completed |
| `TodoItem.SubtaskDetails.constructor` | components/TodoItem.tsx:20 | the details flag starts open exactly when subtasks are present and non-empty |
| `TodoItem.SubtaskDetails.Rerender` | components/TodoItem.tsx:23-27 | when the subtask count changes and there are subtasks, the flag opens; otherwise it is kept; it never closes |
| `TodoItem.SubtaskDetails.ClickHeader` | components/TodoItem.tsx:86 | a header click flips the flag |
| `JsString.Trim` | components/AddTodo.tsx:13-14 | trim is empty exactly when the text is all white space; otherwise it starts and ends with non-white-space; it is the text without its leading white-space run, and everything after it is white space |
| `JsString.TrimIdempotent` | components/AddTodo.tsx:14 | the trimmed text is a fixed point of trim |
| `AddTodo.AddTodoForm.constructor` | components/AddTodo.tsx:9 | the field starts empty |
| `AddTodo.AddTodoForm.Change` | components/AddTodo.tsx:27 | typing stores the input's value |
| `AddTodo.AddTodoForm.SubmitDisabled` | components/AddTodo.tsx:33 | the Add button is disabled exactly when the trimmed text is empty, that is when the field holds only white space |
| `AddTodo.AddTodoForm.Submit` | components/AddTodo.tsx:11-17 | `onAdd` is called exactly when the Add button is enabled (trimmed text non-empty), with the trimmed text, which is non-empty and free of white space at both ends; then the field is empty; otherwise the field is unchanged and `onAdd` is not called |

## Left out

- `services/gemini.ts`: the network call, the prompt and the parsing of the reply are not part of this model. Its outcome is the `response` parameter of `TaskStore.ResolveAiExpand`: the list of suggestions, or `None` when the call throws. A reply that parses to something other than an array of strings is not modelled.
- Loading the list from local storage and saving it after each change (App.tsx:14-31), with the `isLoading` flag, are not modelled. They are browser I/O plus JSON parsing and printing. In particular, a loaded list is not checked against `TaskStore.Valid()`, and an `isExpanding = true` persisted across a reload is not modelled.
- `crypto.randomUUID()` and `Date.now()` are parameters (`id`, `ids`, `now`). Their freshness is a precondition.
- `TaskStore.AddTask`: requires a fresh id and `TaskStore.ResolveAiExpand` requires distinct subtask ids. The source relies on UUIDs being unique and never checks this.
- The `await` between the two expansion steps is not modelled as concurrency. Each step is an operation on the current state, and any sequence of other operations may come between them. `alert` and `console.error` are output only.
- `Types.Task`: `createdAt` is an unbounded integer. JavaScript's floating-point `number` is not modelled.
- `JsString.Trim`: works on Unicode scalar values rather than UTF-16 code units. Every code point that trim removes is a single code unit, so the result is the same.
- `TaskList.ToggleSubtaskOf`: for a task without subtasks, the source writes an explicit `subtasks: undefined` key. The model keeps the field absent. Neither truthiness nor JSON serialisation can tell the two apart.
- `TodoItem.SubtaskDetails.ClickHeader`: the header exists only while the subtask section is shown. The model lets it be clicked at any time.
- Rendering is not modelled: JSX, CSS classes, icons, hover styling, and the empty-list messages (App.tsx:143-156). The shape of the `useEffect` dependency is modelled only as far as `Rerender` compares `task.subtasks?.length`.
