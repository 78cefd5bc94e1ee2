/**
 * The task record and the filter and sort modes of the task store
 * (types/todo.ts). Timestamps are milliseconds since the epoch.
 */
module TodoTypes {

  /** A value that may be absent (`undefined` in the source). */
  datatype Option<+T> = None | Some(value: T)

  datatype Priority = Low | Medium | High

  /** One task. `description` is `None` when the key is absent. */
  datatype Todo = Todo(
    id: string,
    title: string,
    description: Option<string>,
    completed: bool,
    priority: Priority,
    createdAt: int,
    updatedAt: int)

  /** Which tasks a view shows. */
  datatype Filter = All | Active | Completed

  /** How a view orders the tasks within each completion group. */
  datatype SortMode = Created | ByPriority | Alphabetical

  /**
   * The partial record passed to an update: `None` means the key is
   * absent. A description may be given explicitly as `undefined`, which
   * the user interface does to clear it, hence the nested option.
   * `updatedAt` may be supplied but is always overridden by the clock.
   */
  datatype Update = Update(
    title: Option<string>,
    description: Option<Option<string>>,
    completed: Option<bool>,
    priority: Option<Priority>,
    updatedAt: Option<int>)
}
