/**
 * The read-only queries of the task store (lib/todo-store.ts):
 * `getFilteredTodos`, a filtered copy of the manual order sorted by a
 * comparator that puts completed tasks last, and `getStats`.
 *
 * `Array.prototype.sort` is stable; it is modelled by a stable insertion
 * sort driven by the same comparator.
 */
module TodoView {
  import opened TodoTypes
  import opened TodoList
  import Strings

  /** `priorityOrder`: high 3, medium 2, low 1. */
  function Rank(p: Priority): int {
    match p
    case High => 3
    case Medium => 2
    case Low => 1
  }

  /** `a.localeCompare(b)`, with code point order standing in for the locale's collation. */
  function LocaleCompare(a: string, b: string): (r: int)
    ensures r < 0 <==> Strings.Less(a, b)
    ensures r == 0 <==> a == b
    ensures r > 0 <==> Strings.Less(b, a)
  {
    Strings.LessIrreflexive(a);
    Strings.LessAsymmetric(a, b);
    Strings.LessTotal(a, b);
    if Strings.Less(a, b) then -1 else if a == b then 0 else 1
  }

  /**
   * The comparator of each sort mode: a negative result puts `a` first,
   * a positive one puts `b` first, zero keeps the stored order.
   */
  function Compare(mode: SortMode, a: Todo, b: Todo): int {
    if a.completed != b.completed then (if a.completed then 1 else -1)
    else
      match mode
      case ByPriority => Rank(b.priority) - Rank(a.priority)
      case Alphabetical => LocaleCompare(a.title, b.title)
      case Created => b.createdAt - a.createdAt
  }

  /** `a` may precede `b` in the sorted view. */
  predicate Precedes(mode: SortMode, a: Todo, b: Todo) {
    Compare(mode, a, b) <= 0
  }

  /** Swapping the arguments negates the comparator's sign. */
  lemma CompareAntisymmetric(mode: SortMode, a: Todo, b: Todo)
    ensures Compare(mode, a, b) < 0 <==> Compare(mode, b, a) > 0
    ensures Compare(mode, a, b) == 0 <==> Compare(mode, b, a) == 0
  {
  }

  /** Each comparator is a total preorder: any two tasks are comparable and "may precede" is transitive. */
  lemma CompareTotalPreorder(mode: SortMode, a: Todo, b: Todo, c: Todo)
    ensures Precedes(mode, a, b) || Precedes(mode, b, a)
    ensures Precedes(mode, a, b) && Precedes(mode, b, c) ==> Precedes(mode, a, c)
  {
    if mode == Alphabetical && Precedes(mode, a, b) && Precedes(mode, b, c)
       && a.completed == b.completed == c.completed
       && Strings.Less(a.title, b.title) && Strings.Less(b.title, c.title) {
      Strings.LessTransitive(a.title, b.title, c.title);
    }
  }

  /** The list is ordered by the comparator. */
  ghost predicate SortedBy(mode: SortMode, s: seq<Todo>) {
    forall i, j :: 0 <= i < j < |s| ==> Precedes(mode, s[i], s[j])
  }

  /**
   * Inserts `x` before the first element it may precede. Everything in `s`
   * comes after `x` in the input, so ties keep their input order.
   */
  function Insert(mode: SortMode, x: Todo, s: seq<Todo>): (r: seq<Todo>)
    ensures multiset(r) == multiset(s) + multiset{x}
  {
    if s == [] then [x]
    else if Precedes(mode, x, s[0]) then [x] + s
    else
      assert s == [s[0]] + s[1..];
      [s[0]] + Insert(mode, x, s[1..])
  }

  /** Inserting into a sorted list keeps it sorted. */
  lemma {:induction false} InsertSorted(mode: SortMode, x: Todo, s: seq<Todo>)
    requires SortedBy(mode, s)
    ensures SortedBy(mode, Insert(mode, x, s))
  {
    if s == [] {
    } else if Precedes(mode, x, s[0]) {
      HeadPrecedesTail(mode, s);
      forall y | y in multiset(s) ensures Precedes(mode, x, y) {
        if y != s[0] {
          assert s == [s[0]] + s[1..];
          CompareTotalPreorder(mode, x, s[0], y);
        }
      }
      ConsSorted(mode, x, s);
    } else {
      var rest := Insert(mode, x, s[1..]);
      InsertSorted(mode, x, s[1..]);
      CompareTotalPreorder(mode, x, s[0], x);
      HeadPrecedesTail(mode, s);
      ConsSorted(mode, s[0], rest);
    }
  }

  /** In a sorted list the head may precede every task of the tail. */
  lemma HeadPrecedesTail(mode: SortMode, s: seq<Todo>)
    requires SortedBy(mode, s) && s != []
    ensures forall y :: y in multiset(s[1..]) ==> Precedes(mode, s[0], y)
  {
    forall y | y in multiset(s[1..]) ensures Precedes(mode, s[0], y) {
      var k :| 0 <= k < |s[1..]| && s[1..][k] == y;
      assert s[k + 1] == y;
    }
  }

  /** A task that may precede every task of a sorted list can go in front of it. */
  lemma ConsSorted(mode: SortMode, a: Todo, r: seq<Todo>)
    requires SortedBy(mode, r)
    requires forall y :: y in multiset(r) ==> Precedes(mode, a, y)
    ensures SortedBy(mode, [a] + r)
  {
    var s := [a] + r;
    forall i, j | 0 <= i < j < |s| ensures Precedes(mode, s[i], s[j]) {
      assert s[j] == r[j - 1] && s[j] in multiset(r);
      if i > 0 {
        assert s[i] == r[i - 1];
      }
    }
  }

  /** Stable insertion sort by the comparator: a sorted permutation of the input. */
  function Sort(mode: SortMode, s: seq<Todo>): (r: seq<Todo>)
    ensures multiset(r) == multiset(s)
    ensures SortedBy(mode, r)
  {
    if s == [] then []
    else
      assert s == [s[0]] + s[1..];
      var sorted := Sort(mode, s[1..]);
      InsertSorted(mode, s[0], sorted);
      Insert(mode, s[0], sorted)
  }

  /** `getFilteredTodos(filter, sort)`: filter a copy, then sort it. */
  function View(s: seq<Todo>, f: Filter, mode: SortMode): seq<Todo> {
    Sort(mode, Select(s, f))
  }

  /**
   * The view is a permutation of the tasks the filter selects: it holds
   * exactly the stored tasks that pass the filter, as often as they occur.
   */
  lemma ViewIsSelection(s: seq<Todo>, f: Filter, mode: SortMode)
    ensures multiset(View(s, f, mode)) == multiset(Select(s, f))
    ensures |View(s, f, mode)| == |Select(s, f)|
    ensures forall t :: t in View(s, f, mode) <==> t in s && Shows(f, t)
  {
    var v := View(s, f, mode);
    assert |v| == |multiset(v)| == |multiset(Select(s, f))| == |Select(s, f)|;
    forall t ensures t in v <==> t in Select(s, f) {
      assert t in v <==> t in multiset(v);
      assert t in Select(s, f) <==> t in multiset(Select(s, f));
    }
  }

  /** In every sort mode no completed task precedes an active one. */
  lemma ViewCompletedLast(s: seq<Todo>, f: Filter, mode: SortMode)
    ensures var v := View(s, f, mode);
      forall i, j :: 0 <= i < j < |v| && v[i].completed ==> v[j].completed
  {
    var v := View(s, f, mode);
    forall i, j | 0 <= i < j < |v| && v[i].completed ensures v[j].completed {
      assert Precedes(mode, v[i], v[j]);
    }
  }

  /** The order a sort mode imposes within one completion group. */
  predicate KeyOrdered(mode: SortMode, a: Todo, b: Todo) {
    match mode
    case Created => a.createdAt >= b.createdAt
    case ByPriority => Rank(a.priority) >= Rank(b.priority)
    case Alphabetical => !Strings.Less(b.title, a.title)
  }

  /**
   * Within each completion group the view is ordered by the mode's key:
   * newest first, higher priority first, or titles ascending.
   */
  lemma ViewKeyOrdered(s: seq<Todo>, f: Filter, mode: SortMode)
    ensures var v := View(s, f, mode);
      forall i, j :: 0 <= i < j < |v| && v[i].completed == v[j].completed ==> KeyOrdered(mode, v[i], v[j])
  {
    var v := View(s, f, mode);
    forall i, j | 0 <= i < j < |v| && v[i].completed == v[j].completed
      ensures KeyOrdered(mode, v[i], v[j])
    {
      assert Precedes(mode, v[i], v[j]);
      if mode == Alphabetical {
        Strings.LessAsymmetric(v[i].title, v[j].title);
      }
    }
  }

  /** The tasks of `s` that tie with `x` under the comparator, in their order in `s`. */
  function Ties(mode: SortMode, s: seq<Todo>, x: Todo): seq<Todo> {
    if s == [] then []
    else (if Compare(mode, s[0], x) == 0 then [s[0]] else []) + Ties(mode, s[1..], x)
  }

  /** The ties of a list with a first element. */
  lemma TiesCons(mode: SortMode, a: Todo, r: seq<Todo>, x: Todo)
    ensures Ties(mode, [a] + r, x) == (if Compare(mode, a, x) == 0 then [a] else []) + Ties(mode, r, x)
  {
    assert ([a] + r)[1..] == r;
  }

  /** Inserting `y` puts it before every task it ties with. */
  lemma {:induction false} InsertBeforeTies(mode: SortMode, y: Todo, t: seq<Todo>, x: Todo)
    ensures Ties(mode, Insert(mode, y, t), x) == (if Compare(mode, y, x) == 0 then [y] else []) + Ties(mode, t, x)
  {
    if t == [] {
      TiesCons(mode, y, [], x);
    } else if Precedes(mode, y, t[0]) {
      TiesCons(mode, y, t, x);
    } else {
      var rest := Insert(mode, y, t[1..]);
      var tieY := if Compare(mode, y, x) == 0 then [y] else [];
      var tieT := if Compare(mode, t[0], x) == 0 then [t[0]] else [];
      if tieY != [] && tieT != [] {
        // y ties with x and x with t[0], so y would precede t[0]
        CompareAntisymmetric(mode, t[0], x);
        CompareTotalPreorder(mode, y, x, t[0]);
        assert false;
      }
      assert t == [t[0]] + t[1..];
      calc {
        Ties(mode, Insert(mode, y, t), x);
        Ties(mode, [t[0]] + rest, x);
        { TiesCons(mode, t[0], rest, x); }
        tieT + Ties(mode, rest, x);
        { InsertBeforeTies(mode, y, t[1..], x); }
        tieT + (tieY + Ties(mode, t[1..], x));
        tieY + (tieT + Ties(mode, t[1..], x));
        { TiesCons(mode, t[0], t[1..], x); }
        tieY + Ties(mode, t, x);
      }
    }
  }

  /**
   * The sort is stable: the tasks that tie with any given task appear in
   * the output in the order they had in the input.
   */
  lemma {:induction false} SortStable(mode: SortMode, s: seq<Todo>, x: Todo)
    ensures Ties(mode, Sort(mode, s), x) == Ties(mode, s, x)
  {
    if s != [] {
      SortStable(mode, s[1..], x);
      InsertBeforeTies(mode, s[0], Sort(mode, s[1..]), x);
    }
  }

  /** Ties in the view keep the stored manual order. */
  lemma ViewStable(s: seq<Todo>, f: Filter, mode: SortMode, x: Todo)
    ensures Ties(mode, View(s, f, mode), x) == Ties(mode, Select(s, f), x)
  {
    SortStable(mode, Select(s, f), x);
  }

  /** The counts `getStats` reports. */
  datatype Stats = Stats(total: nat, completed: nat, active: nat)

  /**
   * `getStats`: `total` is the list length, `completed` counts the
   * completed tasks, `active` is the rest, which is exactly the number of
   * tasks that are not completed.
   */
  function StatsOf(s: seq<Todo>): (r: Stats)
    ensures r.total == |s|
    ensures r.completed == |Select(s, Completed)|
    ensures r.active == |Select(s, Active)|
    ensures r.active + r.completed == r.total
  {
    SelectPartition(s);
    var total := |s|;
    var completed := |Select(s, Completed)|;
    Stats(total, completed, total - completed)
  }

  /**
   * The filters partition the list: the active view and the completed view
   * together are as long as the full view, which is as long as the list.
   */
  lemma ViewPartition(s: seq<Todo>, mode: SortMode)
    ensures |View(s, Active, mode)| + |View(s, Completed, mode)| == |View(s, All, mode)|
    ensures |View(s, All, mode)| == StatsOf(s).total
  {
    ViewIsSelection(s, Active, mode);
    ViewIsSelection(s, Completed, mode);
    ViewIsSelection(s, All, mode);
    SelectAll(s);
    SelectPartition(s);
  }
}
