/**
 * The persistence surface of the task store (lib/todo-store.ts):
 * `localStorage` as a map from keys to stored entries, the primary `todos`
 * record, the time-stamped `todos_backup_<ms>` snapshots and their
 * rotation down to the five greatest keys, and the load step.
 *
 * A stored entry is kept in its parsed form; the JSON text is not modelled.
 */
module Backups {
  import opened TodoTypes
  import opened Strings

  /** What a key of the store holds, once parsed. */
  datatype Entry =
    | TodoArray(todos: seq<Todo>)                // the primary record: an array of tasks
    | Snapshot(todos: seq<Todo>, timestamp: int) // a backup: `{ todos, timestamp }`
    | Other(raw: string)                         // anything else: not a JSON array of tasks

  type Storage = map<string, Entry>

  const TodosKey: string := "todos"
  const BackupPrefix: string := "todos_backup_"
  const BackupsKept: nat := 5

  /** The key of the backup written at clock reading `now`. */
  function BackupKey(now: nat): (k: string)
    ensures IsBackupKey(k) && k != TodosKey
  {
    BackupPrefix + Digits(now)
  }

  predicate IsBackupKey(k: string) {
    StartsWith(k, BackupPrefix)
  }

  /** The backup keys present in the store. */
  function BackupKeys(m: Storage): set<string> {
    set k | k in m && IsBackupKey(k)
  }

  /** The keys of `keys` that sort after `k`. */
  ghost function Newer(k: string, keys: set<string>): set<string> {
    set j | j in keys && Less(k, j)
  }

  /** The keys that are not among the five greatest: five or more keys sort after them. */
  ghost function Stale(keys: set<string>): set<string> {
    set k | k in keys && |Newer(k, keys)| >= BackupsKept
  }

  /** The clean-up of `createAutoBackup`: every stale backup key is removed. */
  ghost function Rotate(m: Storage): (r: Storage)
    ensures forall k :: !IsBackupKey(k) ==> (k in r <==> k in m)
    ensures forall k :: k in r ==> k in m && r[k] == m[k]
  {
    m - Stale(BackupKeys(m))
  }

  /**
   * `saveToStorage`: with storage present, overwrite `todos`, write the
   * backup for `now`, then rotate; without storage, nothing changes.
   */
  ghost function Persisted(m: Storage, available: bool, todos: seq<Todo>, now: nat): Storage {
    if !available then m
    else Rotate(m[TodosKey := TodoArray(todos)][BackupKey(now) := Snapshot(todos, now)])
  }

  /**
   * `loadFromStorage`: the tasks stored under `todos` when that entry
   * parses as an array; a missing, empty or unparsable entry gives the
   * empty list.
   */
  function Load(m: Storage): seq<Todo> {
    if TodosKey in m && m[TodosKey].TodoArray? then m[TodosKey].todos else []
  }

  /** Loading what was just saved gives back the same list, in the same order. */
  lemma SaveThenLoad(m: Storage, todos: seq<Todo>, now: nat)
    ensures Load(Persisted(m, true, todos, now)) == todos
  {
    assert !IsBackupKey(TodosKey);
  }

  // ---- the sorted enumeration of a set of keys ----

  /** Strictly decreasing in string order, so also without repeats. */
  ghost predicate Descending(d: seq<string>) {
    forall i, j :: 0 <= i < j < |d| ==> Less(d[j], d[i])
  }

  /** Every key of a set other than one of its greatest sorts below that greatest key. */
  lemma {:induction false} GreatestExists(keys: set<string>) returns (g: string)
    requires keys != {}
    ensures g in keys && forall k :: k in keys && k != g ==> Less(k, g)
    decreases |keys|
  {
    var x :| x in keys;
    if keys == {x} {
      g := x;
    } else {
      var h := GreatestExists(keys - {x});
      LessTotal(x, h);
      if Less(x, h) {
        g := h;
      } else {
        g := x;
        forall k | k in keys && k != g ensures Less(k, g) {
          if k != h {
            LessTransitive(k, h, x);
          }
        }
      }
    }
  }

  /** Every finite set of keys can be listed in descending order. */
  lemma {:induction false} DescendingEnumeration(keys: set<string>) returns (d: seq<string>)
    ensures Descending(d) && (forall k :: k in d <==> k in keys) && |d| == |keys|
    decreases |keys|
  {
    if keys == {} {
      d := [];
    } else {
      var g := GreatestExists(keys);
      var rest := DescendingEnumeration(keys - {g});
      d := [g] + rest;
      forall i, j | 0 <= i < j < |d| ensures Less(d[j], d[i]) {
        if i == 0 {
          assert d[j] == rest[j - 1] && d[j] in keys - {g};
        } else {
          assert d[i] == rest[i - 1] && d[j] == rest[j - 1];
        }
      }
    }
  }

  /** The keys of a descending list that are greater than its `i`th are the ones before it. */
  lemma NewerInDescending(d: seq<string>, i: nat)
    requires Descending(d) && i < |d|
    ensures Newer(d[i], set k | k in d) == set k | k in d[..i]
  {
    forall j | j in Newer(d[i], set k | k in d) ensures j in d[..i] {
      var m :| 0 <= m < |d| && d[m] == j;
      if m >= i {
        if m > i {
          LessAsymmetric(d[m], d[i]);
        } else {
          LessIrreflexive(d[i]);
        }
      }
      assert d[..i][m] == j;
    }
  }

  /** The tail of a descending list is descending and does not hold its head. */
  lemma DescendingTail(d: seq<string>)
    requires Descending(d) && d != []
    ensures Descending(d[1..]) && d[0] !in d[1..]
  {
    var tail := d[1..];
    forall i, j | 0 <= i < j < |tail| ensures Less(tail[j], tail[i]) {
      assert tail[i] == d[i + 1] && tail[j] == d[j + 1];
    }
    LessIrreflexive(d[0]);
    forall m | 0 <= m < |tail| ensures tail[m] != d[0] {
      assert tail[m] == d[m + 1];
    }
  }

  /** A descending list has as many distinct keys as entries. */
  lemma {:induction false} CardinalityOfDescending(d: seq<string>)
    requires Descending(d)
    ensures |set k | k in d| == |d|
  {
    if d != [] {
      var tail := d[1..];
      DescendingTail(d);
      CardinalityOfDescending(tail);
      assert (set k | k in d) == (set k | k in tail) + {d[0]} by {
        assert d == [d[0]] + tail;
      }
    }
  }

  /**
   * In a descending list of all the backup keys, the stale ones are
   * exactly those from position five on.
   */
  lemma StaleIsTail(d: seq<string>)
    requires Descending(d)
    ensures forall i :: 0 <= i < |d| ==> (d[i] in Stale(set k | k in d) <==> i >= BackupsKept)
  {
    forall i | 0 <= i < |d| ensures d[i] in Stale(set k | k in d) <==> i >= BackupsKept {
      NewerInDescending(d, i);
      CardinalityOfDescending(d[..i]);
    }
  }

  /** The first five of a descending list of all backup keys are the ones rotation keeps. */
  lemma KeptIsHead(m: Storage, d: seq<string>, n: nat)
    requires Descending(d) && (set k | k in d) == BackupKeys(m)
    requires n == if |d| < BackupsKept then |d| else BackupsKept
    ensures BackupKeys(Rotate(m)) == set k | k in d[..n]
  {
    var keys := BackupKeys(m);
    StaleIsTail(d);
    var kept := BackupKeys(Rotate(m));
    var head := d[..n];
    forall k | k in kept ensures k in head {
      assert k in keys;
      var i :| 0 <= i < |d| && d[i] == k;
      assert head[i] == k;
    }
    forall k | k in head ensures k in kept {
      var i :| 0 <= i < n && head[i] == k;
      assert d[i] == k && k in keys;
      assert k !in Stale(keys);
      assert k in Rotate(m);
    }
  }

  /**
   * Rotation keeps exactly the five greatest backup keys: as many as there
   * were, up to five, each greater than every key it removed.
   */
  lemma RotateKeepsGreatestFive(m: Storage)
    ensures var kept := BackupKeys(Rotate(m));
      && kept <= BackupKeys(m)
      && |kept| == (if |BackupKeys(m)| < BackupsKept then |BackupKeys(m)| else BackupsKept)
      && forall k, g :: k in kept && g in BackupKeys(m) - kept ==> Less(g, k)
  {
    var keys := BackupKeys(m);
    var d := DescendingEnumeration(keys);
    assert (set k | k in d) == keys;
    var n := if |d| < BackupsKept then |d| else BackupsKept;
    var head := d[..n];
    KeptIsHead(m, d, n);
    var kept := BackupKeys(Rotate(m));
    assert Descending(head);
    CardinalityOfDescending(head);
    forall k, g | k in kept && g in keys - kept ensures Less(g, k) {
      var i :| 0 <= i < n && head[i] == k;
      var j :| 0 <= j < |d| && d[j] == g;
      assert d[i] == k;
    }
  }

  /**
   * With the new backup's key greater than every key already present
   * (which holds for clock readings of equal digit count, see
   * BackupKeyOrdered), the backup just written survives the rotation.
   */
  lemma NewestBackupSurvives(m: Storage, todos: seq<Todo>, now: nat)
    requires forall k :: k in BackupKeys(m) ==> Less(k, BackupKey(now))
    ensures var r := Persisted(m, true, todos, now);
      BackupKey(now) in r && r[BackupKey(now)] == Snapshot(todos, now)
  {
    var key := BackupKey(now);
    var m2 := m[TodosKey := TodoArray(todos)][key := Snapshot(todos, now)];
    forall j | j in BackupKeys(m2) ensures !Less(key, j) {
      if j != key {
        assert j in BackupKeys(m);
        LessAsymmetric(j, key);
      } else {
        LessIrreflexive(key);
      }
    }
    assert Newer(key, BackupKeys(m2)) == {};
  }

  /** Backup keys of later clock readings with the same digit count sort later. */
  lemma BackupKeyOrdered(a: nat, b: nat)
    requires a < b && |Digits(a)| == |Digits(b)|
    ensures Less(BackupKey(a), BackupKey(b))
  {
    DigitsOrdered(a, b);
    LessCommonPrefix(BackupPrefix, Digits(a), Digits(b));
  }

  // ---- the steps of the clean-up loop ----

  /**
   * `Object.keys(localStorage)`: the keys in some order the model leaves
   * open, each exactly once.
   */
  method EnumerateKeys(keys: set<string>) returns (r: seq<string>)
    ensures |r| == |keys|
    ensures forall k :: k in r <==> k in keys
    ensures forall i, j :: 0 <= i < j < |r| ==> r[i] != r[j]
  {
    r := [];
    var rest := keys;
    while rest != {}
      invariant rest <= keys
      invariant forall k :: k in r <==> k in keys && k !in rest
      invariant |r| + |rest| == |keys|
      invariant forall i, j :: 0 <= i < j < |r| ==> r[i] != r[j]
      decreases rest
    {
      var k :| k in rest;
      r := r + [k];
      rest := rest - {k};
    }
  }

  /** `filter(key => key.startsWith('todos_backup_'))`. */
  function FilterBackupKeys(ks: seq<string>): (r: seq<string>)
    ensures forall k :: k in r <==> k in ks && IsBackupKey(k)
    ensures multiset(r) <= multiset(ks)
  {
    if ks == [] then []
    else
      assert ks == [ks[0]] + ks[1..];
      (if IsBackupKey(ks[0]) then [ks[0]] else []) + FilterBackupKeys(ks[1..])
  }

  /** Ascending in string order, ties allowed. */
  ghost predicate Ascending(s: seq<string>) {
    forall i, j :: 0 <= i < j < |s| ==> !Less(s[j], s[i])
  }

  /** Inserts `x` before the first element that does not sort below it. */
  function InsertKey(x: string, s: seq<string>): (r: seq<string>)
    ensures multiset(r) == multiset(s) + multiset{x}
  {
    if s == [] then [x]
    else if !Less(s[0], x) then [x] + s
    else
      assert s == [s[0]] + s[1..];
      [s[0]] + InsertKey(x, s[1..])
  }

  /** Inserting into an ascending list keeps it ascending. */
  lemma {:induction false} InsertKeyAscending(x: string, s: seq<string>)
    requires Ascending(s)
    ensures Ascending(InsertKey(x, s))
  {
    if s == [] {
    } else if !Less(s[0], x) {
      forall j | 0 < j < |s| ensures !Less(s[j], x) {
        if Less(s[j], x) {
          LessTotal(s[0], s[j]);
          if s[0] != s[j] {
            LessTransitive(s[0], s[j], x);
          }
        }
      }
    } else {
      var rest := InsertKey(x, s[1..]);
      InsertKeyAscending(x, s[1..]);
      LessAsymmetric(s[0], x);
      forall j | 0 <= j < |rest| ensures !Less(rest[j], s[0]) {
        assert rest[j] in multiset(s[1..]) + multiset{x};
        if rest[j] != x {
          var k :| 0 <= k < |s[1..]| && s[1..][k] == rest[j];
          assert s[k + 1] == rest[j];
        }
      }
    }
  }

  /** The default `sort()` of strings: an ascending permutation. */
  function SortKeys(s: seq<string>): (r: seq<string>)
    ensures multiset(r) == multiset(s)
    ensures Ascending(r)
  {
    if s == [] then []
    else
      assert s == [s[0]] + s[1..];
      var sorted := SortKeys(s[1..]);
      InsertKeyAscending(s[0], sorted);
      InsertKey(s[0], sorted)
  }

  /** `reverse()`. */
  function Reverse(s: seq<string>): (r: seq<string>)
    ensures |r| == |s|
    ensures forall i :: 0 <= i < |s| ==> r[i] == s[|s| - 1 - i]
  {
    if s == [] then [] else Reverse(s[1..]) + [s[0]]
  }

  /** In a list that holds each element at most once, two positions hold different elements. */
  lemma DistinctAt(s: seq<string>, a: nat, b: nat)
    requires forall k :: multiset(s)[k] <= 1
    requires a < b < |s|
    ensures s[a] != s[b]
  {
    var x := s[a];
    assert s == s[..a] + [x] + s[a + 1..];
    assert multiset(s)[x] == multiset(s[..a])[x] + 1 + multiset(s[a + 1..])[x];
    assert s[a + 1..][b - a - 1] == s[b];
    assert s[b] in multiset(s[a + 1..]);
  }

  /** Reversing an ascending list without repeats gives a descending one. */
  lemma ReverseOfAscending(s: seq<string>)
    requires Ascending(s) && forall k :: multiset(s)[k] <= 1
    ensures Descending(Reverse(s))
  {
    var d := Reverse(s);
    forall i, j | 0 <= i < j < |d| ensures Less(d[j], d[i]) {
      var a, b := |s| - 1 - j, |s| - 1 - i;
      assert d[j] == s[a] && d[i] == s[b] && a < b;
      DistinctAt(s, a, b);
      LessTotal(s[a], s[b]);
    }
  }

  /** Reversing keeps the elements. */
  lemma ReverseMembers(s: seq<string>)
    ensures forall k :: k in Reverse(s) <==> k in s
  {
    var d := Reverse(s);
    forall k | k in d ensures k in s {
      var i :| 0 <= i < |d| && d[i] == k;
      assert s[|s| - 1 - i] == k;
    }
    forall k | k in s ensures k in d {
      var i :| 0 <= i < |s| && s[i] == k;
      assert d[|s| - 1 - i] == k;
    }
  }

  /**
   * The sorted, reversed list of the store's backup keys, built from an
   * enumeration without repeats, is descending and lists every backup key.
   */
  lemma NewestFirst(all: seq<string>, m: Storage)
    requires forall k :: k in all <==> k in m
    requires forall i, j :: 0 <= i < j < |all| ==> all[i] != all[j]
    ensures Descending(Reverse(SortKeys(FilterBackupKeys(all))))
    ensures forall k :: k in Reverse(SortKeys(FilterBackupKeys(all))) <==> k in BackupKeys(m)
  {
    var f := FilterBackupKeys(all);
    var s := SortKeys(f);
    DistinctMultiset(all);
    forall k ensures multiset(s)[k] <= 1 {
      assert multiset(f)[k] <= multiset(all)[k];
    }
    ReverseOfAscending(s);
    ReverseMembers(s);
    forall k ensures k in s <==> k in f {
      assert k in s <==> k in multiset(s);
      assert k in f <==> k in multiset(f);
    }
  }

  /** The keys a list holds. */
  function Members(s: seq<string>): set<string> {
    set k | k in s
  }

  /** `slice(5)`: everything after the first five. */
  function AfterFirstFive(d: seq<string>): (r: seq<string>)
    ensures |d| <= BackupsKept ==> r == []
    ensures |d| > BackupsKept ==> |r| == |d| - BackupsKept && forall i :: 0 <= i < |r| ==> r[i] == d[i + BackupsKept]
  {
    if |d| > BackupsKept then d[BackupsKept..] else []
  }

  /**
   * Removing the keys after the first five of the newest-first list of all
   * backup keys is exactly the rotation.
   */
  lemma RemovingTailRotates(d: seq<string>, m: Storage)
    requires Descending(d)
    requires forall k :: k in d <==> k in BackupKeys(m)
    ensures m - Members(AfterFirstFive(d)) == Rotate(m)
  {
    StaleIsTail(d);
    var keys := set k | k in d;
    assert keys == BackupKeys(m);
    var tail := AfterFirstFive(d);
    forall k ensures k in tail <==> k in Stale(keys) {
      if k in tail {
        var i :| 0 <= i < |tail| && tail[i] == k;
        assert d[i + BackupsKept] == k;
      }
      if k in Stale(keys) {
        var i :| 0 <= i < |d| && d[i] == k;
        assert tail[i - BackupsKept] == k;
      }
    }
    assert Members(tail) == Stale(keys);
  }

  /** A list without repeats holds each element once. */
  lemma {:induction false} DistinctMultiset(s: seq<string>)
    requires forall i, j :: 0 <= i < j < |s| ==> s[i] != s[j]
    ensures forall k :: multiset(s)[k] <= 1
  {
    if s != [] {
      DistinctMultiset(s[1..]);
      assert s == [s[0]] + s[1..];
      assert s[0] !in s[1..];
    }
  }
}
