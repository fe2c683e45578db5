/** The records of the task list and the status filter. */
module Types {
  import opened Wrappers

  /** An opaque identifier (a UUID string in the application). */
  type Id = string

  /** A subtask has exactly an id, a text and a completion flag. */
  datatype Subtask = Subtask(id: Id, text: string, completed: bool)

  /**
   * A task always has an id, a text, a completion flag and a creation time in
   * milliseconds; `subtasks` and `isExpanding` are optional fields, so an absent
   * subtask list (`None`) is a different value from an empty one (`Some([])`),
   * and an absent `isExpanding` is a third state beside `Some(false)` and
   * `Some(true)`.
   */
  datatype Task = Task(
    id: Id,
    text: string,
    completed: bool,
    createdAt: int,
    subtasks: Option<seq<Subtask>>,
    isExpanding: Option<bool>)

  /** The three values of the status filter. */
  datatype FilterType = All | Active | Completed
}
