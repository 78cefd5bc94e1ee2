# Planit task store, modelled in Dafny

Planit is a to-do application. Its state lives in one `TodoStore` object
(lib/todo-store.ts) that holds the tasks in a manual order, a set of change
listeners and the browser's `localStorage`. Every change to the list works
the same way: update the list, save it under the key `todos`, write a
time-stamped backup under `todos_backup_<ms>`, delete all but the five
greatest backup keys, and call every listener. The read side gives a
filtered and sorted view of the list and counts of all, active and
completed tasks.

This project models that store and proves what it does:

- `todo_types.dfy` (module `TodoTypes`): the task record, priorities, the
  filter and sort modes, and the partial record an update carries
  (types/todo.ts).
- `strings.dfy` (module `Strings`): JavaScript's `trim`, the code-point
  string order standing in for `sort()`'s order and for `localeCompare`,
  `startsWith`, and the decimal rendering of a clock reading.
- `todo_list.dfy` (module `TodoList`): the list operations the store uses,
  each written as a function. These are lookup by id (`findIndex`), the
  merge of a partial update, the `splice` removal, the reorder splice and
  the completion filters.
- `todo_view.dfy` (module `TodoView`): `getFilteredTodos` as a filter
  followed by a stable sort under the source's comparators, and
  `getStats`.
- `backups.dfy` (module `Backups`): `localStorage` as a map from keys to
  parsed entries. It specifies saving (`Persisted`), rotation (`Rotate`)
  and loading (`Load`). It also holds the steps of the clean-up pipeline
  (enumerate, filter, sort, reverse, `slice(5)`), each with its contract.
- `todo_store.dfy` (module `Store`): the `TodoStore` class. Its fields
  `todos`, `listeners` and `storage` are updated in place by its methods,
  and a ghost log `events` records each save and each round of listener
  calls.

Each mutating method states its complete new state. That state is given in
terms of the list functions and `Persisted`. The unknown-id paths leave the
list, the storage and the event log unchanged. The functions in turn carry
the properties proved about them:

- every mutation keeps the store invariant `Inv`: unique ids and
  `createdAt <= updatedAt` for every task (given a fresh id for an add and
  a clock that has not gone back for an update);
- filtering keeps the stored order;
- a reorder is a permutation that an opposite reorder undoes;
- an update keeps ids unique and keeps the timestamps ordered;
- the view is a permutation of the selected tasks, lists completed tasks
  last, is ordered by the mode's key and is stable;
- rotation keeps exactly the five greatest backup keys;
- what was saved loads back unchanged.

The clock (`Date.now()`, `new Date()`) and the fresh id
(`crypto.randomUUID()`) are parameters of the operations that use them.
Listeners are opaque tokens: the callbacks are foreign code, so the model
records whom it calls instead of running them.

## Model

| member | source | states |
|---|---|---|
| Strings.Trim | lib/todo-store.ts:81-82 | the trimmed text is a slice of the input with only white space before and after it, and it neither starts nor ends with white space |
| Strings.TrimIdempotent | lib/todo-store.ts:81 | trimming an already trimmed title changes nothing |
| Strings.TrimBlank | lib/todo-store.ts:81-82 | a title or description of white space only trims to the empty string |
| Strings.LessIrreflexive | lib/todo-store.ts:37 | no key sorts strictly before itself |
| Strings.LessAsymmetric | lib/todo-store.ts:37 | two keys never each sort before the other |
| Strings.LessTransitive | lib/todo-store.ts:37 | the code-point order standing in for `sort()`'s order and for `localeCompare` is transitive |
| Strings.LessTotal | lib/todo-store.ts:37 | any two distinct strings are ordered one way or the other |
| Strings.Digits | lib/todo-store.ts:25 | the clock reading in a backup key is written with decimal digits only, and with one digit exactly when it is below ten |
| Strings.DigitsOrdered | lib/todo-store.ts:25 | for readings with the same number of digits, string order agrees with numeric order |
| TodoList.IndexOf | lib/todo-store.ts:96 | `findIndex`: -1 exactly when no task has the id, otherwise the first index holding it |
| TodoList.PrependKeepsInvariants | lib/todo-store.ts:89 | `unshift` of a task with a fresh id keeps ids unique, and of a task updated no earlier than created keeps timestamps ordered |
| TodoList.Merge | lib/todo-store.ts:99-103 | the spread update: every field the update carries replaces the stored one, the others stay, `id` and `createdAt` are kept and `updatedAt` is the clock reading |
| TodoList.MergeIgnoresSuppliedUpdatedAt | lib/todo-store.ts:99-103 | an `updatedAt` inside the update is overridden by the clock |
| TodoList.MergeIdempotent | lib/todo-store.ts:99-103 | applying the same update twice at one instant equals applying it once |
| TodoList.ToggleFlipsOnlyCompleted | lib/todo-store.ts:120-125 | the toggle update negates `completed`, sets `updatedAt` and changes nothing else; toggling twice restores `completed` |
| TodoList.UpdateAtKeepsInvariants | lib/todo-store.ts:99-103 | replacing the task at an index keeps the length, every other task and unique ids, and keeps timestamps ordered when the clock has not gone back |
| TodoList.RemoveAt | lib/todo-store.ts:114 | `splice(i, 1)`: the tasks before `i` stay in place and the ones after move up by one |
| TodoList.RemoveAtMultiset | lib/todo-store.ts:114 | the removal takes exactly that one task out |
| TodoList.RemoveAtKeepsUniqueIds | lib/todo-store.ts:114 | with unique ids, the removal keeps ids unique and the removed id no longer occurs |
| TodoList.RemoveAtKeepsTimes | lib/todo-store.ts:114 | the removal keeps every task's `createdAt <= updatedAt` |
| TodoList.RemoveFirstById | lib/todo-store.ts:110-117 | after deleting an id from a list with unique ids, looking it up gives -1 |
| TodoList.Move | lib/todo-store.ts:193-195 | the moved task lands at the target index, and removing it again gives the list with the moved task taken out |
| TodoList.MoveIsPermutation | lib/todo-store.ts:193-197 | a reorder keeps exactly the same tasks, as often as before |
| TodoList.MoveKeepsUniqueIds | lib/todo-store.ts:193-197 | a reorder keeps ids unique |
| TodoList.MoveKeepsTimes | lib/todo-store.ts:193-197 | a reorder keeps every task's `createdAt <= updatedAt` |
| TodoList.MoveInPlace | lib/todo-store.ts:193-195 | dropping a task on its own position leaves the list as it was |
| TodoList.MoveUndo | lib/todo-store.ts:193-195 | the reverse reorder restores the list |
| TodoList.Select | lib/todo-store.ts:143-151 | the filter keeps exactly the tasks that pass, and never lengthens the list |
| TodoList.SelectConcat | lib/todo-store.ts:129 | `filter` keeps the stored order: filtering a concatenation concatenates the filtered parts, so the kept tasks keep their relative order and multiplicity |
| TodoList.SelectCons | lib/todo-store.ts:145-148 | a task in front is kept, in front, exactly when it passes; the rest is filtered the same way |
| TodoList.SelectOne | lib/todo-store.ts:145-148 | a single task is kept exactly when it passes the filter |
| TodoList.SelectKeepsTimes | lib/todo-store.ts:129 | filtering keeps every task's `createdAt <= updatedAt` |
| TodoList.SelectAll | lib/todo-store.ts:150 | the `all` filter returns the list unchanged |
| TodoList.SelectPartition | lib/todo-store.ts:129 | the active and completed filters split the list: their lengths add up to its length and their tasks make up its tasks |
| TodoList.SelectSplits | lib/todo-store.ts:204-205 | the active and the completed tasks together are all the tasks, counted with repeats |
| TodoList.SelectKeepsUniqueIds | lib/todo-store.ts:129 | filtering keeps ids unique |
| TodoView.LocaleCompare | lib/todo-store.ts:169 | negative, zero or positive exactly when the first title sorts before, equals or sorts after the second |
| TodoView.CompareAntisymmetric | lib/todo-store.ts:157-179 | swapping the arguments of a comparator flips its sign |
| TodoView.CompareTotalPreorder | lib/todo-store.ts:157-179 | each of the three comparators is total and transitive, so sorting by it is well defined |
| TodoView.Insert | lib/todo-store.ts:157-179 | one insertion step of the stable sort adds exactly the inserted task |
| TodoView.InsertSorted | lib/todo-store.ts:157-179 | inserting into a sorted list keeps it sorted |
| TodoView.Sort | lib/todo-store.ts:157-179 | the sort returns a permutation of its input that is ordered by the comparator |
| TodoView.ViewIsSelection | lib/todo-store.ts:139-151 | the view holds exactly the stored tasks that pass the filter, as often as they occur |
| TodoView.ViewCompletedLast | lib/todo-store.ts:158-160 | in every sort mode no completed task comes before an active one |
| TodoView.ViewKeyOrdered | lib/todo-store.ts:155-180 | within each completion group: newest first, higher priority first, or titles ascending |
| TodoView.InsertBeforeTies | lib/todo-store.ts:157-179 | an insertion step puts the inserted task before every task it ties with |
| TodoView.SortStable | lib/todo-store.ts:157-179 | tasks that tie under the comparator keep their input order |
| TodoView.ViewStable | lib/todo-store.ts:140-183 | ties in the view keep the stored manual order |
| TodoView.StatsOf | lib/todo-store.ts:202-208 | `total` is the list length, `completed` counts the completed tasks, `active` counts the active ones, and `active + completed == total` |
| TodoView.ViewPartition | lib/todo-store.ts:139-151 | the active and completed views together are as long as the full view, which is as long as `total` |
| Backups.BackupKey | lib/todo-store.ts:25 | a backup key starts with the backup prefix and is never the primary key |
| Backups.Rotate | lib/todo-store.ts:33-43 | rotation removes only backup keys and changes no value it keeps |
| Backups.SaveThenLoad | lib/todo-store.ts:15-21 | loading right after a save gives back the saved list in its order |
| Backups.StaleIsTail | lib/todo-store.ts:35-43 | in the newest-first list of backup keys, the ones rotation removes are exactly those from position five on |
| Backups.RotateKeepsGreatestFive | lib/todo-store.ts:40-43 | rotation keeps min(5, n) of the n backup keys, and each kept key is greater than every removed one |
| Backups.NewestBackupSurvives | lib/todo-store.ts:23-45 | when its key sorts after every existing backup key, the backup just written is kept with the current list |
| Backups.BackupKeyOrdered | lib/todo-store.ts:25 | a later clock reading with the same number of digits gives a backup key that sorts later |
| Backups.EnumerateKeys | lib/todo-store.ts:34 | `Object.keys`: every key of the store, each exactly once |
| Backups.FilterBackupKeys | lib/todo-store.ts:36 | keeps exactly the keys with the backup prefix, adding none |
| Backups.InsertKey | lib/todo-store.ts:37 | one insertion step of the key sort adds exactly the inserted key |
| Backups.InsertKeyAscending | lib/todo-store.ts:37 | inserting into an ascending list keeps it ascending |
| Backups.SortKeys | lib/todo-store.ts:37 | `sort()` returns an ascending permutation of the keys |
| Backups.Reverse | lib/todo-store.ts:38 | `reverse()` puts the element at `i` at position `n - 1 - i` |
| Backups.ReverseOfAscending | lib/todo-store.ts:37-38 | reversing an ascending list without repeats gives a strictly descending one |
| Backups.NewestFirst | lib/todo-store.ts:34-38 | the filtered, sorted, reversed key list is strictly descending and holds exactly the store's backup keys |
| Backups.AfterFirstFive | lib/todo-store.ts:41 | `slice(5)`: empty for up to five keys, otherwise the keys from position five on |
| Backups.RemovingTailRotates | lib/todo-store.ts:41-43 | deleting the keys after the first five of the newest-first list is exactly the rotation |
| Store.TodoStore.constructor | lib/todo-store.ts:9-13 | a new store has no listeners and loads the saved list when storage exists, the empty list otherwise |
| Store.TodoStore.LoadFromStorage | lib/todo-store.ts:47-63 | an entry under `todos` that parses as an array replaces the list; a missing, empty or unparsable entry leaves it unchanged; storage is not written |
| Store.TodoStore.CreateAutoBackup | lib/todo-store.ts:23-45 | the store afterwards is the old one with the snapshot for `now` written and then rotated; list, listeners and log unchanged |
| Store.TodoStore.RemoveKeys | lib/todo-store.ts:41-43 | the loop removes exactly the listed keys and nothing else |
| Store.TodoStore.SaveToStorage | lib/todo-store.ts:15-21 | storage becomes `Persisted`: the list under `todos`, the backup for `now`, then rotation; one save is logged; without storage nothing is written |
| Store.TodoStore.Notify | lib/todo-store.ts:65-67 | one notification of exactly the registered listeners is logged; nothing else changes |
| Store.TodoStore.SaveAndNotify | lib/todo-store.ts:90-91 | a save and then a notification, in that order |
| Store.TodoStore.Subscribe | lib/todo-store.ts:69-70 | the listener is registered, at most once |
| Store.TodoStore.Unsubscribe | lib/todo-store.ts:71 | removes only that listener and reports whether it was registered |
| Store.TodoStore.AddTodo | lib/todo-store.ts:78-93 | the new task has the given id, the trimmed title and description, is not completed and is created and updated at `now`; it goes in front of the unchanged list; then one save and one notification; with a fresh id the store invariant (unique ids, `createdAt <= updatedAt`) is kept |
| Store.TodoStore.UpdateTodo | lib/todo-store.ts:95-108 | an unknown id returns None and changes, saves and notifies nothing; otherwise the first task with the id is merged with the update and returned, all other tasks stay, then one save and one notification; the store invariant is kept when the clock is not before any task's creation |
| Store.TodoStore.ToggleTodo | lib/todo-store.ts:120-125 | an unknown id returns None with no effect; otherwise that task's `completed` is negated and `updatedAt` set, nothing else, then save and notify; the store invariant is kept when the clock is not before any task's creation |
| Store.TodoStore.DeleteTodo | lib/todo-store.ts:110-118 | returns whether the id was present; if so the first task with it is spliced out, the others keep their order, then save and notify; otherwise nothing changes; the store invariant is kept |
| Store.TodoStore.ClearCompleted | lib/todo-store.ts:127-137 | the new list is the active tasks, in their stored order (with `SelectConcat`), and the result is how many completed tasks were removed; saves and notifies only when that number is positive; the store invariant is kept |
| Store.TodoStore.ReorderTodos | lib/todo-store.ts:186-200 | if either id is unknown nothing happens; otherwise the moved task is spliced out and reinserted at the target's old index, then save and notify, even when both ids are the same; the store invariant is kept |
| Store.TodoStore.GetFilteredTodos | lib/todo-store.ts:139-184 | a permutation of the stored tasks that pass the filter, completed tasks last, each completion group ordered by the sort mode's key; reads only |
| Store.TodoStore.GetStats | lib/todo-store.ts:202-208 | `total`, `completed` and `active` count the list, the completed and the active tasks, and `active + completed == total` |

Specification functions carry no contract of their own. The rows above
state their properties, and each one models these source lines:

- `TodoTypes` datatypes: types/todo.ts:1-12.
- `TodoList.NewTodo`: the task literal of lib/todo-store.ts:79-87.
- `TodoList.ToggleUpdate`: the update `toggleTodo` passes, lib/todo-store.ts:124.
- `TodoList.Shows`: the filter predicates, lib/todo-store.ts:145-148.
- `TodoList.UniqueIds`, `TodoList.TimesOrdered`, `Store.TodoStore.Inv`: the data invariants of the task list (ids from `crypto.randomUUID()` at lib/todo-store.ts:80, timestamps set at :85-86 and :102).
- `Store.TodoStore.NotBefore`: the clock reading is no earlier than any task's creation.
- `TodoView.Rank`: `priorityOrder`, lib/todo-store.ts:156.
- `TodoView.Compare`, `TodoView.Precedes`: the three comparators, lib/todo-store.ts:157-179.
- `TodoView.KeyOrdered`: the key each sort mode orders a completion group by, lib/todo-store.ts:155-180.
- `TodoView.View`: `getFilteredTodos`, lib/todo-store.ts:139-183, with `Select` for the filter and `Sort` for the stable sort.
- `Strings.IsSpace`: the white-space and line-terminator characters `trim` removes, lib/todo-store.ts:81-82.
- `Strings.TrimStart`, `Strings.TrimEnd`: the two halves of `trim`, lib/todo-store.ts:81-82.
- `Strings.StartsWith`: `startsWith`, lib/todo-store.ts:36.
- `Strings.Less`: the order of `sort()` at lib/todo-store.ts:37 and of `localeCompare` at :169.
- `Backups.Persisted`: `saveToStorage` with `createAutoBackup`, lib/todo-store.ts:15-45.
- `Backups.Load`: the list `loadFromStorage` reads, lib/todo-store.ts:47-63.
- `Backups.Members`: the keys the `forEach` at lib/todo-store.ts:41-43 visits.
- `Backups.BackupKeys`, `Backups.IsBackupKey`, `Backups.Stale`: the backup keys and those beyond the five greatest, lib/todo-store.ts:34-43.
- `Store.TodoStore.GetTodos`: `getTodos`, lib/todo-store.ts:74-76. It returns the list itself, a copy in the source.
- `Store.ScenarioNewestFirst`, `Store.ScenarioToggle`, `Store.ScenarioUnknownId`, `Store.ScenarioClear`, `Store.ScenarioCorruptStorage`: concrete runs of add and the created-order view, toggle and the statistics, an update of an unknown id, clearCompleted, and loading a `todos` entry that is not an array (lib/todo-store.ts:47-63, 78-137, 139-208). Their assertions state the expected outcome of each run.

## Left out

- JSON text: storage entries are kept in parsed form. The serializer, the parser and the lax parse are not modelled. That parse accepts any JSON array of objects as a task list without checking their fields.
- Date revival: timestamps are integer milliseconds. Turning ISO strings back into `Date` objects, and invalid dates, are not modelled.
- A backup snapshot's `timestamp` is the clock reading, not its ISO-8601 rendering.
- Clock and id: the current time and the fresh id are parameters. Each operation uses one clock reading, while the source reads the clock separately for `createdAt`, `updatedAt`, the backup key and the snapshot. Uniqueness of `crypto.randomUUID()` is a precondition of the invariant lemmas, not a proved fact.
- `localeCompare` uses the locale's collation. The model replaces it with plain code-point order, the same order `sort()` uses.
- Strings are sequences of code points. JavaScript compares UTF-16 code units, and the two orders differ only above U+FFFF.
- Listener callbacks are foreign code and are not run. The model does not cover a callback that throws, subscribes or unsubscribes while being notified.
- `localStorage` failures, such as a full quota or access denied, are not modelled. Neither are writes by other tabs or the `console.error` on a failed load.
- Updates carry optional fields. An explicit `undefined` is modelled only for `description`, which the user interface uses to clear it. An explicit `undefined` for `title`, `completed` or `priority` is not modelled.
- Live references: `addTodo` and `updateTodo` return the stored task object itself, and `getTodos` and `getFilteredTodos` copy only the array, not the tasks. A caller that changes a returned task changes the store without a save or a notification. The model's tasks are values, so it does not capture this aliasing.
- A blank description is kept as the empty string, as the code does. `description?.trim()` yields `""`, not an absent key.
- The module-level singleton `todoStore` is not modelled. Neither are the user interface components, the React hook, the service worker, or the backup import and export screen.
- Backups.NewestBackupSurvives: holds only when the new backup key sorts after every existing one. The source sorts keys as strings, so this holds while clock readings have the same number of digits (BackupKeyOrdered), which is until the year 2286.
