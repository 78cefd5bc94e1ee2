/**
 * The list surgery the task store performs on its manual order
 * (lib/todo-store.ts): lookup by id, merge of a partial update, removal,
 * the single-item splice of a reorder, and the completion filters.
 * The store's methods are specified by these functions.
 */
module TodoList {
  import opened TodoTypes
  import Strings

  /** `findIndex(todo => todo.id === id)`: the first index holding `id`, or -1. */
  function IndexOf(s: seq<Todo>, id: string): (r: int)
    ensures -1 <= r < |s|
    ensures r == -1 <==> forall k :: 0 <= k < |s| ==> s[k].id != id
    ensures 0 <= r ==> s[r].id == id && forall k :: 0 <= k < r ==> s[k].id != id
  {
    if s == [] then -1
    else if s[0].id == id then 0
    else
      var r := IndexOf(s[1..], id);
      if r == -1 then -1 else r + 1
  }

  /** No two tasks share an id. */
  ghost predicate UniqueIds(s: seq<Todo>) {
    forall i, j :: 0 <= i < j < |s| ==> s[i].id != s[j].id
  }

  /** Every task was last updated no earlier than it was created. */
  ghost predicate TimesOrdered(s: seq<Todo>) {
    forall i :: 0 <= i < |s| ==> s[i].createdAt <= s[i].updatedAt
  }

  /** The task `addTodo` builds: trimmed title and description, not completed. */
  function NewTodo(id: string, title: string, description: Option<string>, priority: Priority, now: int): Todo {
    Todo(id, Strings.Trim(title), if description.Some? then Some(Strings.Trim(description.value)) else None,
         false, priority, now, now)
  }

  /**
   * Front insertion of a task with a fresh id keeps the ids unique, and a
   * task updated no earlier than it was created keeps the timestamps
   * ordered.
   */
  lemma PrependKeepsInvariants(s: seq<Todo>, t: Todo)
    ensures UniqueIds(s) && IndexOf(s, t.id) == -1 ==> UniqueIds([t] + s)
    ensures TimesOrdered(s) && t.createdAt <= t.updatedAt ==> TimesOrdered([t] + s)
  {
    var r := [t] + s;
    if UniqueIds(s) && IndexOf(s, t.id) == -1 {
      forall i, j | 0 <= i < j < |r| ensures r[i].id != r[j].id {
        if i == 0 {
          assert r[j] == s[j - 1];
        } else {
          assert r[i] == s[i - 1] && r[j] == s[j - 1];
        }
      }
    }
  }

  /**
   * The object spread `{ ...todo, ...updates, updatedAt: new Date() }`:
   * every field the update carries replaces the stored one, `id` and
   * `createdAt` cannot be updated, and `updatedAt` is the clock reading
   * whatever the update carries.
   */
  function Merge(t: Todo, u: Update, now: int): (r: Todo)
    ensures r.id == t.id && r.createdAt == t.createdAt && r.updatedAt == now
    ensures u.title.Some? ==> r.title == u.title.value
    ensures u.title.None? ==> r.title == t.title
    ensures u.description.Some? ==> r.description == u.description.value
    ensures u.description.None? ==> r.description == t.description
    ensures u.completed.Some? ==> r.completed == u.completed.value
    ensures u.completed.None? ==> r.completed == t.completed
    ensures u.priority.Some? ==> r.priority == u.priority.value
    ensures u.priority.None? ==> r.priority == t.priority
  {
    Todo(
      t.id,
      if u.title.Some? then u.title.value else t.title,
      if u.description.Some? then u.description.value else t.description,
      if u.completed.Some? then u.completed.value else t.completed,
      if u.priority.Some? then u.priority.value else t.priority,
      t.createdAt,
      now)
  }

  /** An `updatedAt` inside the update has no effect. */
  lemma MergeIgnoresSuppliedUpdatedAt(t: Todo, u: Update, now: int, stamp: Option<int>)
    ensures Merge(t, u.(updatedAt := stamp), now) == Merge(t, u, now)
  {
  }

  /** Applying the same update twice at the same instant is the same as once. */
  lemma MergeIdempotent(t: Todo, u: Update, now: int)
    ensures Merge(Merge(t, u, now), u, now) == Merge(t, u, now)
  {
  }

  /** The update `toggleTodo` issues: `{ completed: !todo.completed }`. */
  function ToggleUpdate(t: Todo): Update {
    Update(None, None, Some(!t.completed), None, None)
  }

  /** Toggling changes only `completed` (negated) and `updatedAt`; toggling twice restores `completed`. */
  lemma ToggleFlipsOnlyCompleted(t: Todo, now: int, later: int)
    ensures Merge(t, ToggleUpdate(t), now) == t.(completed := !t.completed, updatedAt := now)
    ensures var once := Merge(t, ToggleUpdate(t), now);
            Merge(once, ToggleUpdate(once), later) == t.(updatedAt := later)
  {
  }

  /**
   * The update at index `i` keeps the length, every other position and all
   * ids; it keeps the timestamps ordered when the clock has not gone back
   * past the task's creation.
   */
  lemma UpdateAtKeepsInvariants(s: seq<Todo>, i: nat, u: Update, now: int)
    requires i < |s|
    ensures var r := s[i := Merge(s[i], u, now)];
      && |r| == |s|
      && (forall k :: 0 <= k < |s| && k != i ==> r[k] == s[k])
      && (UniqueIds(s) ==> UniqueIds(r))
      && (TimesOrdered(s) && s[i].createdAt <= now ==> TimesOrdered(r))
  {
    var r := s[i := Merge(s[i], u, now)];
    assert forall k :: 0 <= k < |s| ==> r[k].id == s[k].id;
  }

  /** `splice(i, 1)`: the list without the entry at `i`. */
  function RemoveAt(s: seq<Todo>, i: nat): (r: seq<Todo>)
    requires i < |s|
    ensures |r| == |s| - 1
    ensures forall k :: 0 <= k < i ==> r[k] == s[k]
    ensures forall k :: i <= k < |r| ==> r[k] == s[k + 1]
  {
    s[..i] + s[i + 1..]
  }

  /** Removing an entry takes exactly that one task out of the multiset of tasks. */
  lemma RemoveAtMultiset(s: seq<Todo>, i: nat)
    requires i < |s|
    ensures multiset(RemoveAt(s, i)) == multiset(s) - multiset{s[i]}
  {
    assert s == s[..i] + [s[i]] + s[i + 1..];
    assert RemoveAt(s, i) == s[..i] + s[i + 1..];
  }

  /**
   * Removing an entry from a list with unique ids keeps them unique, and
   * the removed id no longer occurs.
   */
  lemma RemoveAtKeepsUniqueIds(s: seq<Todo>, i: nat)
    requires i < |s| && UniqueIds(s)
    ensures UniqueIds(RemoveAt(s, i))
    ensures forall k :: 0 <= k < |s| - 1 ==> RemoveAt(s, i)[k].id != s[i].id
  {
    var r := RemoveAt(s, i);
    forall a, b | 0 <= a < b < |r| ensures r[a].id != r[b].id {
      var a' := if a < i then a else a + 1;
      var b' := if b < i then b else b + 1;
      assert r[a] == s[a'] && r[b] == s[b'];
    }
    forall k | 0 <= k < |r| ensures r[k].id != s[i].id {
      var k' := if k < i then k else k + 1;
      assert r[k] == s[k'];
    }
  }

  /** Removing an entry keeps every task's timestamps ordered. */
  lemma RemoveAtKeepsTimes(s: seq<Todo>, i: nat)
    requires i < |s| && TimesOrdered(s)
    ensures TimesOrdered(RemoveAt(s, i))
  {
  }

  /**
   * `deleteTodo`: deleting the first entry with an id from a list with
   * unique ids leaves no entry with that id.
   */
  lemma RemoveFirstById(s: seq<Todo>, id: string)
    requires IndexOf(s, id) >= 0 && UniqueIds(s)
    ensures IndexOf(RemoveAt(s, IndexOf(s, id)), id) == -1
  {
    RemoveAtKeepsUniqueIds(s, IndexOf(s, id));
  }

  /**
   * The reorder splice: take the entry at `from` out, then insert it at
   * index `to` of what is left. The moved task lands at `to`, and taking it
   * out again leaves the other tasks in their old relative order.
   */
  function Move(s: seq<Todo>, from: nat, to: nat): (r: seq<Todo>)
    requires from < |s| && to < |s|
    ensures |r| == |s| && r[to] == s[from]
    ensures RemoveAt(r, to) == RemoveAt(s, from)
  {
    var rest := RemoveAt(s, from);
    var r := rest[..to] + [s[from]] + rest[to..];
    assert RemoveAt(r, to) == rest;
    r
  }

  /** A reorder is a permutation: the same tasks, as often as before. */
  lemma MoveIsPermutation(s: seq<Todo>, from: nat, to: nat)
    requires from < |s| && to < |s|
    ensures multiset(Move(s, from, to)) == multiset(s)
  {
    var r := Move(s, from, to);
    var rest := RemoveAt(s, from);
    var x := s[from];
    var before, after := rest[..to], rest[to..];
    assert r == before + [x] + after;
    assert rest == before + after;
    calc {
      multiset(r);
      multiset(before) + multiset{x} + multiset(after);
      multiset(rest) + multiset{x};
      { RemoveAtMultiset(s, from); }
      multiset(s) - multiset{x} + multiset{x};
      multiset(s);
    }
  }

  /** A reorder keeps unique ids unique. */
  lemma MoveKeepsUniqueIds(s: seq<Todo>, from: nat, to: nat)
    requires from < |s| && to < |s| && UniqueIds(s)
    ensures UniqueIds(Move(s, from, to))
  {
    var r := Move(s, from, to);
    var rest := RemoveAt(s, from);
    RemoveAtKeepsUniqueIds(s, from);
    forall i, j | 0 <= i < j < |r| ensures r[i].id != r[j].id {
      var i' := if i < to then i else i - 1;
      var j' := if j < to then j else j - 1;
      if i != to && j != to {
        assert r[i] == RemoveAt(r, to)[i'] && r[j] == RemoveAt(r, to)[j'];
      } else if i == to {
        assert r[j] == RemoveAt(r, to)[j'];
      } else {
        assert r[i] == RemoveAt(r, to)[i'];
      }
    }
  }

  /** A reorder keeps every task's timestamps ordered. */
  lemma MoveKeepsTimes(s: seq<Todo>, from: nat, to: nat)
    requires from < |s| && to < |s| && TimesOrdered(s)
    ensures TimesOrdered(Move(s, from, to))
  {
    var r := Move(s, from, to);
    forall k | 0 <= k < |r| ensures r[k].createdAt <= r[k].updatedAt {
      if k < to {
        assert r[k] == RemoveAt(r, to)[k];
      } else if k > to {
        assert r[k] == RemoveAt(r, to)[k - 1];
      }
    }
  }

  /** Moving an entry onto its own position changes nothing. */
  lemma MoveInPlace(s: seq<Todo>, i: nat)
    requires i < |s|
    ensures Move(s, i, i) == s
  {
    assert s == s[..i] + [s[i]] + s[i + 1..];
  }

  /** A reorder is undone by the reverse reorder. */
  lemma MoveUndo(s: seq<Todo>, from: nat, to: nat)
    requires from < |s| && to < |s|
    ensures Move(Move(s, from, to), to, from) == s
  {
    var r := Move(s, from, to);
    var back := Move(r, to, from);
    assert RemoveAt(back, from) == RemoveAt(r, to) == RemoveAt(s, from);
    assert back[from] == s[from];
    assert forall k :: 0 <= k < |s| ==> back[k] == s[k] by {
      forall k | 0 <= k < |s| ensures back[k] == s[k] {
        if k < from {
          assert back[k] == RemoveAt(back, from)[k];
        } else if k > from {
          assert back[k] == RemoveAt(back, from)[k - 1];
        }
      }
    }
  }

  /** Whether a task passes a filter. */
  predicate Shows(f: Filter, t: Todo) {
    match f
    case All => true
    case Active => !t.completed
    case Completed => t.completed
  }

  /**
   * `filter` by the completion flag: the tasks that pass, in their stored
   * order, and nothing else.
   */
  function Select(s: seq<Todo>, f: Filter): (r: seq<Todo>)
    ensures |r| <= |s|
    ensures forall t :: t in r <==> t in s && Shows(f, t)
  {
    if s == [] then []
    else (if Shows(f, s[0]) then [s[0]] else []) + Select(s[1..], f)
  }

  /** The `all` filter passes the list through unchanged. */
  lemma {:induction false} SelectAll(s: seq<Todo>)
    ensures Select(s, All) == s
  {
    if s != [] {
      SelectAll(s[1..]);
      assert s == [s[0]] + s[1..];
    }
  }

  /**
   * `filter` keeps the stored order: filtering a concatenation is
   * concatenating the filtered parts.
   */
  lemma {:induction false} SelectConcat(a: seq<Todo>, b: seq<Todo>, f: Filter)
    ensures Select(a + b, f) == Select(a, f) + Select(b, f)
  {
    if a == [] {
      assert a + b == b;
    } else {
      var x, t := a[0], a[1..];
      SelectConcat(t, b, f);
      assert a == [x] + t;
      ConsAssociative(x, t, b);
      SelectCons(x, t, f);
      SelectCons(x, t + b, f);
      if Shows(f, x) {
        ConsAssociative(x, Select(t, f), Select(b, f));
      }
    }
  }

  /** Filtering a list with a task in front: the task, if it passes, then the filtered rest. */
  lemma SelectCons(x: Todo, t: seq<Todo>, f: Filter)
    ensures Shows(f, x) ==> Select([x] + t, f) == [x] + Select(t, f)
    ensures !Shows(f, x) ==> Select([x] + t, f) == Select(t, f)
  {
    assert ([x] + t)[1..] == t;
    assert [] + Select(t, f) == Select(t, f);
  }

  /** Putting a task in front commutes with concatenation. */
  lemma ConsAssociative(x: Todo, p: seq<Todo>, q: seq<Todo>)
    ensures [x] + (p + q) == ([x] + p) + q
  {
  }

  /** A single task is kept exactly when it passes the filter. */
  lemma SelectOne(t: Todo, f: Filter)
    ensures Select([t], f) == if Shows(f, t) then [t] else []
  {
  }

  /** Filtering keeps every kept task's timestamps as they were, so their order too. */
  lemma SelectKeepsTimes(s: seq<Todo>, f: Filter)
    requires TimesOrdered(s)
    ensures TimesOrdered(Select(s, f))
  {
    var r := Select(s, f);
    forall i | 0 <= i < |r| ensures r[i].createdAt <= r[i].updatedAt {
      assert r[i] in s;
    }
  }

  /** Every task is either active or completed: the two filters split the list. */
  lemma SelectPartition(s: seq<Todo>)
    ensures |Select(s, Active)| + |Select(s, Completed)| == |s|
    ensures multiset(Select(s, Active)) + multiset(Select(s, Completed)) == multiset(s)
  {
    SelectSplits(s);
    assert |multiset(Select(s, Active)) + multiset(Select(s, Completed))| == |multiset(s)|;
  }

  /** The active and the completed tasks together are all the tasks, as often as they occur. */
  lemma {:induction false} SelectSplits(s: seq<Todo>)
    ensures multiset(Select(s, Active)) + multiset(Select(s, Completed)) == multiset(s)
  {
    if s != [] {
      var t := s[1..];
      SelectSplits(t);
      assert s == [s[0]] + t;
      assert multiset(s) == multiset{s[0]} + multiset(t);
      SelectCons(s[0], t, Active);
      SelectCons(s[0], t, Completed);
    }
  }

  /** Filtering keeps unique ids unique. */
  lemma {:induction false} SelectKeepsUniqueIds(s: seq<Todo>, f: Filter)
    requires UniqueIds(s)
    ensures UniqueIds(Select(s, f))
  {
    if s != [] {
      SelectKeepsUniqueIds(s[1..], f);
      var rest := Select(s[1..], f);
      var r := Select(s, f);
      if Shows(f, s[0]) {
        forall j | 0 <= j < |rest| ensures rest[j].id != s[0].id {
          assert rest[j] in s[1..];
          var k :| 0 <= k < |s| - 1 && s[1..][k] == rest[j];
          assert s[k + 1] == rest[j];
        }
        forall i, j | 0 <= i < j < |r| ensures r[i].id != r[j].id {
          if i == 0 {
            assert r[j] == rest[j - 1];
          } else {
            assert r[i] == rest[i - 1] && r[j] == rest[j - 1];
          }
        }
      }
    }
  }
}
