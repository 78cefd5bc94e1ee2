/**
 * The task store of lib/todo-store.ts: the manual order of tasks, the
 * registered change listeners and the `localStorage` surface, updated in
 * place by the mutating operations, each of which ends, when it changes
 * anything, with one save step followed by one notification.
 *
 * The clock reading (`new Date()`, `Date.now()`) and the fresh id
 * (`crypto.randomUUID()`) are parameters. Listeners are tokens: the
 * callbacks are foreign code, so the store records a `Notified` event
 * naming the listeners it calls instead of running them.
 */
module Store {
  import opened TodoTypes
  import opened TodoList
  import opened TodoView
  import opened Backups

  /** A registered change callback, by identity. */
  type Listener = nat

  /** What the store has done, in order: a save step, or a call of every registered listener. */
  datatype Event = Saved | Notified(called: set<Listener>)

  class TodoStore {
    var todos: seq<Todo>
    var listeners: set<Listener>
    var storage: Storage
    /** Whether `window` (and with it `localStorage`) exists. */
    const storageAvailable: bool
    ghost var events: seq<Event>

    /** The list's data invariants: ids are unique and no task was updated before it was created. */
    ghost predicate Inv()
      reads this
    {
      UniqueIds(todos) && TimesOrdered(todos)
    }

    /** The clock reading `now` is no earlier than the creation of any stored task. */
    ghost predicate NotBefore(now: int)
      reads this
    {
      forall k :: 0 <= k < |todos| ==> todos[k].createdAt <= now
    }

    /** A new store loads the persisted list when storage is available. */
    constructor (available: bool, initial: Storage)
      ensures storageAvailable == available && storage == initial
      ensures listeners == {} && events == []
      ensures todos == if available then Load(initial) else []
    {
      storageAvailable := available;
      storage := initial;
      listeners := {};
      events := [];
      todos := [];
      new;
      if available {
        LoadFromStorage();
      }
    }

    /**
     * `loadFromStorage`: an entry under `todos` that is an array of tasks
     * replaces the list; a missing, empty or unparsable entry leaves it as
     * it was.
     */
    method LoadFromStorage()
      modifies this
      ensures storage == old(storage) && listeners == old(listeners) && events == old(events)
      ensures todos == if storageAvailable && TodosKey in storage && storage[TodosKey].TodoArray?
                       then storage[TodosKey].todos else old(todos)
    {
      if storageAvailable && TodosKey in storage {
        match storage[TodosKey] {
          case TodoArray(stored) => todos := stored;
          case Snapshot(_, _) =>  // parses, but is not an array
          case Other(_) =>        // empty, or not an array of tasks
        }
      }
    }

    /**
     * `createAutoBackup`: write the backup for `now`, list every key, keep
     * the backup keys, sort them, reverse them and remove all after the
     * first five.
     */
    method CreateAutoBackup(now: nat)
      modifies this
      ensures todos == old(todos) && listeners == old(listeners) && events == old(events)
      ensures storage == if storageAvailable
                         then Rotate(old(storage)[BackupKey(now) := Snapshot(todos, now)])
                         else old(storage)
    {
      if storageAvailable {
        var backupKey := BackupKey(now);
        storage := storage[backupKey := Snapshot(todos, now)];
        var allKeys := EnumerateKeys(storage.Keys);
        var backupKeys := Reverse(SortKeys(FilterBackupKeys(allKeys)));
        NewestFirst(allKeys, storage);
        RemovingTailRotates(backupKeys, storage);
        RemoveKeys(AfterFirstFive(backupKeys));
      }
    }

    /** `forEach(key => localStorage.removeItem(key))`. */
    method RemoveKeys(keys: seq<string>)
      modifies this
      ensures storage == old(storage) - Members(keys)
      ensures todos == old(todos) && listeners == old(listeners) && events == old(events)
    {
      var i := 0;
      while i < |keys|
        invariant 0 <= i <= |keys|
        invariant storage == old(storage) - Members(keys[..i])
        invariant todos == old(todos) && listeners == old(listeners) && events == old(events)
      {
        assert Members(keys[..i + 1]) == Members(keys[..i]) + {keys[i]} by {
          assert keys[..i + 1] == keys[..i] + [keys[i]];
        }
        storage := storage - {keys[i]};
        i := i + 1;
      }
      assert keys[..i] == keys;
    }

    /** `saveToStorage`: overwrite `todos`, then back up and rotate; nothing without storage. */
    method SaveToStorage(now: nat)
      modifies this
      ensures todos == old(todos) && listeners == old(listeners)
      ensures storage == Persisted(old(storage), storageAvailable, todos, now)
      ensures events == old(events) + [Saved]
    {
      if storageAvailable {
        storage := storage[TodosKey := TodoArray(todos)];
        CreateAutoBackup(now);
      }
      events := events + [Saved];
    }

    /** `notify`: every registered listener is called once. */
    method Notify()
      modifies this
      ensures todos == old(todos) && listeners == old(listeners) && storage == old(storage)
      ensures events == old(events) + [Notified(listeners)]
    {
      events := events + [Notified(listeners)];
    }

    /** The two steps every change ends with: save, then notify. */
    method SaveAndNotify(now: nat)
      modifies this
      ensures todos == old(todos) && listeners == old(listeners)
      ensures storage == Persisted(old(storage), storageAvailable, todos, now)
      ensures events == old(events) + [Saved, Notified(listeners)]
    {
      SaveToStorage(now);
      Notify();
    }

    /** `subscribe`: registering the same listener twice registers it once. */
    method Subscribe(listener: Listener)
      modifies this
      ensures listeners == old(listeners) + {listener}
      ensures todos == old(todos) && storage == old(storage) && events == old(events)
    {
      listeners := listeners + {listener};
    }

    /** The handle `subscribe` returns: removes only that listener and says whether it was registered. */
    method Unsubscribe(listener: Listener) returns (removed: bool)
      modifies this
      ensures removed == (listener in old(listeners))
      ensures listeners == old(listeners) - {listener}
      ensures todos == old(todos) && storage == old(storage) && events == old(events)
    {
      removed := listener in listeners;
      listeners := listeners - {listener};
    }

    /** `getTodos`: a copy of the manual order. */
    function GetTodos(): seq<Todo>
      reads this
    {
      todos
    }

    /**
     * `addTodo`: the new task, with trimmed title and description, not
     * completed and created and updated at `now`, goes in front of every
     * existing task, which all keep their order.
     */
    method AddTodo(id: string, now: nat, title: string, description: Option<string> := None,
                   priority: Priority := Medium)
      returns (todo: Todo)
      modifies this
      ensures todo == NewTodo(id, title, description, priority, now)
      ensures todos == [todo] + old(todos)
      ensures listeners == old(listeners)
      ensures storage == Persisted(old(storage), storageAvailable, todos, now)
      ensures events == old(events) + [Saved, Notified(listeners)]
      ensures old(Inv()) && IndexOf(old(todos), id) == -1 ==> Inv()
    {
      todo := NewTodo(id, title, description, priority, now);
      PrependKeepsInvariants(todos, todo);
      todos := [todo] + todos;
      SaveAndNotify(now);
    }

    /**
     * `updateTodo`: an unknown id gives `None` and changes nothing, saves
     * nothing and notifies no one. Otherwise the first task with that id
     * takes the update's fields and `updatedAt = now`, everything else
     * stays, and the updated task is returned.
     */
    method UpdateTodo(id: string, updates: Update, now: nat) returns (r: Option<Todo>)
      modifies this
      ensures listeners == old(listeners)
      ensures var i := IndexOf(old(todos), id);
        if i == -1 then
          r == None && todos == old(todos) && storage == old(storage) && events == old(events)
        else
          && todos == old(todos)[i := Merge(old(todos)[i], updates, now)]
          && r == Some(todos[i])
          && storage == Persisted(old(storage), storageAvailable, todos, now)
          && events == old(events) + [Saved, Notified(listeners)]
      ensures old(Inv()) && old(NotBefore(now)) ==> Inv()
    {
      var index := IndexOf(todos, id);
      if index == -1 {
        return None;
      }
      UpdateAtKeepsInvariants(todos, index, updates, now);
      todos := todos[index := Merge(todos[index], updates, now)];
      SaveAndNotify(now);
      r := Some(todos[index]);
    }

    /**
     * `toggleTodo`: an unknown id gives `None` with no effect; otherwise
     * the task's `completed` is negated and `updatedAt` set, nothing else.
     */
    method ToggleTodo(id: string, now: nat) returns (r: Option<Todo>)
      modifies this
      ensures listeners == old(listeners)
      ensures var i := IndexOf(old(todos), id);
        if i == -1 then
          r == None && todos == old(todos) && storage == old(storage) && events == old(events)
        else
          && todos == old(todos)[i := old(todos)[i].(completed := !old(todos)[i].completed, updatedAt := now)]
          && r == Some(todos[i])
          && storage == Persisted(old(storage), storageAvailable, todos, now)
          && events == old(events) + [Saved, Notified(listeners)]
      ensures old(Inv()) && old(NotBefore(now)) ==> Inv()
    {
      var index := IndexOf(todos, id);
      if index == -1 {
        return None;
      }
      ToggleFlipsOnlyCompleted(todos[index], now, now);
      r := UpdateTodo(id, ToggleUpdate(todos[index]), now);
    }

    /**
     * `deleteTodo`: an unknown id gives false and changes nothing;
     * otherwise the first task with that id is spliced out, the others keep
     * their order, and the result is true.
     */
    method DeleteTodo(id: string, now: nat) returns (deleted: bool)
      modifies this
      ensures listeners == old(listeners)
      ensures var i := IndexOf(old(todos), id);
        && deleted == (i != -1)
        && if i == -1 then
             todos == old(todos) && storage == old(storage) && events == old(events)
           else
             && todos == RemoveAt(old(todos), i)
             && storage == Persisted(old(storage), storageAvailable, todos, now)
             && events == old(events) + [Saved, Notified(listeners)]
      ensures old(Inv()) ==> Inv()
    {
      var index := IndexOf(todos, id);
      if index == -1 {
        return false;
      }
      if Inv() {
        RemoveAtKeepsUniqueIds(todos, index);
        RemoveAtKeepsTimes(todos, index);
      }
      todos := RemoveAt(todos, index);
      SaveAndNotify(now);
      deleted := true;
    }

    /**
     * `clearCompleted`: keep the active tasks in their order (a filter
     * keeps the stored order, SelectConcat) and return how many were
     * removed: the number of completed tasks. Save and notify only when
     * that number is positive.
     */
    method ClearCompleted(now: nat) returns (removed: int)
      modifies this
      ensures todos == Select(old(todos), Active)
      ensures removed == |old(todos)| - |todos| == |Select(old(todos), Completed)|
      ensures listeners == old(listeners)
      ensures if removed > 0 then
                && storage == Persisted(old(storage), storageAvailable, todos, now)
                && events == old(events) + [Saved, Notified(listeners)]
              else storage == old(storage) && events == old(events)
      ensures old(Inv()) ==> Inv()
    {
      SelectPartition(todos);
      if Inv() {
        SelectKeepsUniqueIds(todos, Active);
        SelectKeepsTimes(todos, Active);
      }
      var initialLength := |todos|;
      todos := Select(todos, Active);
      if |todos| != initialLength {
        SaveAndNotify(now);
      }
      removed := initialLength - |todos|;
    }

    /**
     * `reorderTodos`: when either id is unknown nothing happens. Otherwise
     * the moved task is spliced out and reinserted at the target's index,
     * then saved and notified, even when the two ids are the same.
     */
    method ReorderTodos(activeId: string, overId: string, now: nat)
      modifies this
      ensures listeners == old(listeners)
      ensures var from, to := IndexOf(old(todos), activeId), IndexOf(old(todos), overId);
        if from == -1 || to == -1 then
          todos == old(todos) && storage == old(storage) && events == old(events)
        else
          && todos == Move(old(todos), from, to)
          && storage == Persisted(old(storage), storageAvailable, todos, now)
          && events == old(events) + [Saved, Notified(listeners)]
      ensures old(Inv()) ==> Inv()
    {
      var oldIndex := IndexOf(todos, activeId);
      var newIndex := IndexOf(todos, overId);
      if oldIndex == -1 || newIndex == -1 {
        return;
      }
      if Inv() {
        MoveKeepsUniqueIds(todos, oldIndex, newIndex);
        MoveKeepsTimes(todos, oldIndex, newIndex);
      }
      todos := Move(todos, oldIndex, newIndex);
      SaveAndNotify(now);
    }

    /**
     * `getFilteredTodos`: reads the store and changes nothing. The result
     * is a permutation of the tasks the filter selects, with no completed
     * task before an active one, and each completion group ordered by the
     * sort mode's key.
     */
    function GetFilteredTodos(filter: Filter, sort: SortMode := Created): (r: seq<Todo>)
      reads this
      ensures multiset(r) == multiset(Select(todos, filter))
      ensures forall t :: t in r <==> t in todos && Shows(filter, t)
      ensures forall i, j :: 0 <= i < j < |r| && r[i].completed ==> r[j].completed
      ensures forall i, j :: 0 <= i < j < |r| && r[i].completed == r[j].completed ==> KeyOrdered(sort, r[i], r[j])
    {
      ViewIsSelection(todos, filter, sort);
      ViewCompletedLast(todos, filter, sort);
      ViewKeyOrdered(todos, filter, sort);
      View(todos, filter, sort)
    }

    /** `getStats`: `total` is the length and `active + completed == total`. */
    function GetStats(): (r: Stats)
      reads this
      ensures r.total == |todos| && r.active + r.completed == r.total
      ensures r.completed == |Select(todos, Completed)| && r.active == |Select(todos, Active)|
    {
      StatsOf(todos)
    }
  }

  /** Two adds: the later one is listed first by creation time. */
  method ScenarioNewestFirst(title1: string, title2: string) {
    var store := new TodoStore(false, map[]);
    var older := store.AddTodo("m", 1, title1);
    var newer := store.AddTodo("d", 2, title2);
    assert store.todos == [newer, older];
    SelectAll(store.todos);
    assert Sort(Created, [older]) == [older];
    var view := store.GetFilteredTodos(All, Created);
    assert view == [newer, older];
  }

  /** After toggling one of two tasks the statistics count one completed and one active. */
  method ScenarioToggle(title1: string, title2: string) {
    var store := new TodoStore(false, map[]);
    var first := store.AddTodo("1", 1, title1);
    var second := store.AddTodo("2", 2, title2);
    assert IndexOf(store.todos, "1") == 1;
    var toggled := store.ToggleTodo("1", 3);
    assert toggled.Some? && toggled.value.completed;
    var done := toggled.value;
    assert store.todos == [second, done];
    assert Select([done], Completed) == [done] + Select([], Completed);
    assert Select(store.todos, Completed) == [] + Select([done], Completed);
    assert store.GetStats() == Stats(2, 1, 1);
  }

  /** Updating an unknown id returns nothing and notifies no one. */
  method ScenarioUnknownId(title: string) {
    var store := new TodoStore(false, map[]);
    var only := store.AddTodo("1", 1, title);
    ghost var before := store.events;
    var missing := store.UpdateTodo("nonexistent-id", Update(Some("x"), None, None, None, None), 4);
    assert missing == None && store.todos == [only] && store.events == before;
  }

  /** Clearing the completed tasks removes exactly the completed one. */
  method ScenarioClear(title1: string, title2: string) {
    var store := new TodoStore(false, map[]);
    var first := store.AddTodo("1", 1, title1);
    var second := store.AddTodo("2", 2, title2);
    assert IndexOf(store.todos, "1") == 1;
    var toggled := store.ToggleTodo("1", 3);
    var done := toggled.value;
    assert store.todos == [second, done];
    assert Select([done], Active) == [] + Select([], Active);
    assert Select(store.todos, Active) == [second] + Select([done], Active);
    var removed := store.ClearCompleted(5);
    assert removed == 1 && store.todos == [second];
  }

  /** A stored `todos` entry that is not an array loads as an empty store. */
  method ScenarioCorruptStorage() {
    var store := new TodoStore(true, map[TodosKey := Other("\"not an array\"")]);
    assert store.todos == [];
  }
}
