/** The two orders the list is sorted by, and a stable sort as a function of the list.
    `list.sort(key=...)` compares keys with `<` only and keeps tasks whose keys are
    equal in their original relative order. */
module Ordering {
  import opened Tasks
  import opened Sequences

  /** Python's `<` on `str`: lexicographic by code point, a proper prefix comes first. */
  predicate LexLess(a: string, b: string): (r: bool)
    ensures r ==> a != b
  {
    if |b| == 0 then false
    else if |a| == 0 then true
    else if a[0] != b[0] then a[0] < b[0]
    else LexLess(a[1..], b[1..])
  }

  lemma {:induction false} LexLessIrreflexive(a: string)
    ensures !LexLess(a, a)
  {
    if |a| > 0 {
      LexLessIrreflexive(a[1..]);
    }
  }

  lemma {:induction false} LexLessTransitive(a: string, b: string, c: string)
    requires LexLess(a, b) && LexLess(b, c)
    ensures LexLess(a, c)
  {
    if |a| > 0 && a[0] == b[0] && b[0] == c[0] {
      LexLessTransitive(a[1..], b[1..], c[1..]);
    }
  }

  lemma {:induction false} LexLessTotal(a: string, b: string)
    ensures a == b || LexLess(a, b) || LexLess(b, a)
  {
    if |a| > 0 && |b| > 0 && a[0] == b[0] {
      assert a == [a[0]] + a[1..] && b == [b[0]] + b[1..];
      LexLessTotal(a[1..], b[1..]);
    }
  }

  /** The two sort keys of the list: `t.nombre` and `t.completada`. */
  datatype SortKey = ByName | ByState

  /** `key(a) < key(b)`; on booleans `False < True`. */
  predicate Less(k: SortKey, a: Task, b: Task): (r: bool)
    ensures r ==> if k == ByName then a.name != b.name else a.completed != b.completed
  {
    match k
    case ByName => LexLess(a.name, b.name)
    case ByState => !a.completed && b.completed
  }

  /** `key(a) == key(b)`: exactly when neither key is smaller than the other. */
  predicate SameKey(k: SortKey, a: Task, b: Task): (r: bool)
    ensures r <==> !Less(k, a, b) && !Less(k, b, a)
  {
    match k
    case ByName => LexLessTotal(a.name, b.name); a.name == b.name
    case ByState => a.completed == b.completed
  }

  lemma LessAsymmetric(k: SortKey, a: Task, b: Task)
    requires Less(k, a, b)
    ensures !Less(k, b, a) && !SameKey(k, a, b)
  {
    if k == ByName {
      LexLessIrreflexive(a.name);
      if LexLess(b.name, a.name) {
        LexLessTransitive(a.name, b.name, a.name);
      }
    }
  }

  lemma LessTotal(k: SortKey, a: Task, b: Task)
    ensures SameKey(k, a, b) || Less(k, a, b) || Less(k, b, a)
  {
    if k == ByName && a.name != b.name {
      LexLessTotal(a.name, b.name);
    }
  }

  /** "Not smaller" is transitive: what sorting by `<` relies on. */
  lemma NotLessTransitive(k: SortKey, a: Task, b: Task, c: Task)
    requires !Less(k, b, a) && !Less(k, c, b)
    ensures !Less(k, c, a)
  {
    if k == ByName && LexLess(c.name, a.name) {
      LexLessTotal(c.name, b.name);
      if LexLess(b.name, c.name) {
        LexLessTransitive(b.name, c.name, a.name);
      }
    }
  }

  /** No task is followed by one with a smaller key. */
  predicate Sorted(k: SortKey, s: seq<Task>) {
    forall i, j :: 0 <= i < j < |s| ==> !Less(k, s[j], s[i])
  }

  /** The tasks of `s` whose key equals that of `x`, in their order in `s`. */
  function SameKeyAs(k: SortKey, x: Task, s: seq<Task>): (r: seq<Task>) {
    if s == [] then []
    else (if SameKey(k, x, s[0]) then [s[0]] else []) + SameKeyAs(k, x, s[1..])
  }

  /** `r` keeps the relative order of every group of tasks with equal keys in `s`. */
  ghost predicate Stable(k: SortKey, s: seq<Task>, r: seq<Task>) {
    forall x :: SameKeyAs(k, x, r) == SameKeyAs(k, x, s)
  }

  /** Inserts `x` before the first task whose key is not smaller than its own. */
  function Insert(k: SortKey, x: Task, s: seq<Task>): (r: seq<Task>)
    ensures |r| == |s| + 1
    ensures multiset(r) == multiset(s) + multiset{x}
  {
    if s == [] || !Less(k, s[0], x) then [x] + s
    else
      assert s == [s[0]] + s[1..];
      [s[0]] + Insert(k, x, s[1..])
  }

  /** Stable sort of `s` by key `k` (insertion from the back). */
  function Sort(k: SortKey, s: seq<Task>): (r: seq<Task>)
    ensures |r| == |s|
    ensures multiset(r) == multiset(s)
  {
    if s == [] then []
    else
      assert s == [s[0]] + s[1..];
      Insert(k, s[0], Sort(k, s[1..]))
  }

  lemma SameKeyAsCons(k: SortKey, x: Task, y: Task, s: seq<Task>)
    ensures SameKeyAs(k, x, [y] + s) == (if SameKey(k, x, y) then [y] else []) + SameKeyAs(k, x, s)
  {
    assert ([y] + s)[0] == y && ([y] + s)[1..] == s;
  }

  /** A group holds only tasks of the list with the group's key. */
  lemma {:induction false} SameKeyAsMembers(k: SortKey, x: Task, s: seq<Task>, e: Task)
    requires e in SameKeyAs(k, x, s)
    ensures e in s && SameKey(k, x, e)
  {
    if s != [] && !(SameKey(k, x, s[0]) && e == s[0]) {
      SameKeyAsMembers(k, x, s[1..], e);
    }
  }

  /** Putting `x` in front of a sorted list keeps it sorted when no task of the list has
      a smaller key than `x`. */
  lemma SortedCons(k: SortKey, x: Task, s: seq<Task>)
    requires Sorted(k, s)
    requires forall j :: 0 <= j < |s| ==> !Less(k, s[j], x)
    ensures Sorted(k, [x] + s)
  {
    var r := [x] + s;
    forall i, j | 0 <= i < j < |r| ensures !Less(k, r[j], r[i]) {
      assert r[j] == s[j - 1];
      if i > 0 {
        assert r[i] == s[i - 1];
      }
    }
  }

  lemma {:induction false} InsertSorted(k: SortKey, x: Task, s: seq<Task>)
    requires Sorted(k, s)
    ensures Sorted(k, Insert(k, x, s))
  {
    if s == [] || !Less(k, s[0], x) {
      forall j | 0 <= j < |s| ensures !Less(k, s[j], x) {
        if j > 0 {
          NotLessTransitive(k, x, s[0], s[j]);
        }
      }
      SortedCons(k, x, s);
    } else {
      var tail := Insert(k, x, s[1..]);
      InsertSorted(k, x, s[1..]);
      forall j | 0 <= j < |tail| ensures !Less(k, tail[j], s[0]) {
        assert tail[j] in multiset(s[1..]) + multiset{x};
        if tail[j] == x {
          LessAsymmetric(k, s[0], x);
        } else {
          assert tail[j] in s[1..];
        }
      }
      SortedCons(k, s[0], tail);
    }
  }

  /** Sorting orders the tasks by key. */
  lemma {:induction false} SortSorted(k: SortKey, s: seq<Task>)
    ensures Sorted(k, Sort(k, s))
  {
    if s != [] {
      SortSorted(k, s[1..]);
      InsertSorted(k, s[0], Sort(k, s[1..]));
    }
  }

  /** Inserting `y` adds it to its own group, at the front, and touches no other group. */
  lemma {:induction false} InsertSameKeyAs(k: SortKey, x: Task, y: Task, s: seq<Task>)
    ensures SameKeyAs(k, x, Insert(k, y, s)) ==
            (if SameKey(k, x, y) then [y] else []) + SameKeyAs(k, x, s)
  {
    var hy := if SameKey(k, x, y) then [y] else [];
    if s == [] || !Less(k, s[0], y) {
      SameKeyAsCons(k, x, y, s);
    } else {
      var hs := if SameKey(k, x, s[0]) then [s[0]] else [];
      var rest := SameKeyAs(k, x, s[1..]);
      SameKeyAsCons(k, x, s[0], Insert(k, y, s[1..]));
      InsertSameKeyAs(k, x, y, s[1..]);
      assert SameKeyAs(k, x, Insert(k, y, s)) == hs + (hy + rest);
      SwapFronts(hs, hy, rest);
      SameKeyAsCons(k, x, s[0], s[1..]);
      assert s == [s[0]] + s[1..];
    }
  }

  /** Sorting is stable: tasks with equal keys keep their relative order. */
  lemma {:induction false} SortStable(k: SortKey, s: seq<Task>)
    ensures Stable(k, s, Sort(k, s))
  {
    if s != [] {
      SortStable(k, s[1..]);
      forall x ensures SameKeyAs(k, x, Sort(k, s)) == SameKeyAs(k, x, s) {
        InsertSameKeyAs(k, x, s[0], Sort(k, s[1..]));
        SameKeyAsCons(k, x, s[0], s[1..]);
        assert s == [s[0]] + s[1..];
      }
    }
  }

  /** Two sorted arrangements with the same groups of equal keys are the same list. */
  lemma {:induction false} SortedStableUnique(k: SortKey, a: seq<Task>, b: seq<Task>)
    requires Sorted(k, a) && Sorted(k, b)
    requires forall x :: SameKeyAs(k, x, a) == SameKeyAs(k, x, b)
    ensures a == b
  {
    if a == [] && b == [] {
    } else if b == [] {
      var g := SameKeyAs(k, a[0], a);
      assert false;
    } else if a == [] {
      var g := SameKeyAs(k, b[0], b);
      assert false;
    } else {
      SameFirst(k, a, b);
      SameTailGroups(k, a, b);
      SortedStableUnique(k, a[1..], b[1..]);
      assert a == [a[0]] + a[1..] && b == [b[0]] + b[1..];
    }
  }

  /** Under the assumptions of `SortedStableUnique`, both lists start with the same task. */
  lemma SameFirst(k: SortKey, a: seq<Task>, b: seq<Task>)
    requires a != [] && b != [] && Sorted(k, a) && Sorted(k, b)
    requires forall x :: SameKeyAs(k, x, a) == SameKeyAs(k, x, b)
    ensures a[0] == b[0]
  {
    assert SameKeyAs(k, a[0], a) == SameKeyAs(k, a[0], b);
    assert SameKeyAs(k, b[0], b) == SameKeyAs(k, b[0], a);
    if !SameKey(k, a[0], b[0]) {
      LessTotal(k, a[0], b[0]);
      FirstOfGroupIsSmaller(k, a, b);
      FirstOfGroupIsSmaller(k, b, a);
    }
    var ga, gb := SameKeyAs(k, a[0], a), SameKeyAs(k, a[0], b);
    SameKeyAsCons(k, a[0], a[0], a[1..]);
    SameKeyAsCons(k, a[0], b[0], b[1..]);
    assert a == [a[0]] + a[1..] && b == [b[0]] + b[1..];
    assert a[0] == ga[0] == gb[0] == b[0];
  }

  /** Lists that start with the same task and have the same groups also have the same
      groups after that task. */
  lemma SameTailGroups(k: SortKey, a: seq<Task>, b: seq<Task>)
    requires a != [] && b != [] && a[0] == b[0]
    requires forall x :: SameKeyAs(k, x, a) == SameKeyAs(k, x, b)
    ensures forall x :: SameKeyAs(k, x, a[1..]) == SameKeyAs(k, x, b[1..])
  {
    forall x ensures SameKeyAs(k, x, a[1..]) == SameKeyAs(k, x, b[1..]) {
      var hx := if SameKey(k, x, a[0]) then [a[0]] else [];
      var ta, tb := SameKeyAs(k, x, a[1..]), SameKeyAs(k, x, b[1..]);
      SameKeyAsCons(k, x, a[0], a[1..]);
      SameKeyAsCons(k, x, b[0], b[1..]);
      assert a == [a[0]] + a[1..] && b == [b[0]] + b[1..];
      assert SameKeyAs(k, x, a) == hx + ta && SameKeyAs(k, x, b) == hx + tb;
      assert (hx + ta)[|hx|..] == ta && (hx + tb)[|hx|..] == tb;
    }
  }

  /** In the situation of `SortedStableUnique`, the first task of `a` cannot have a key
      smaller than the first task of `b`. */
  lemma FirstOfGroupIsSmaller(k: SortKey, a: seq<Task>, b: seq<Task>)
    requires a != [] && b != [] && Sorted(k, b)
    requires SameKeyAs(k, a[0], a) == SameKeyAs(k, a[0], b)
    ensures !Less(k, a[0], b[0])
  {
    SameKeyAsCons(k, a[0], a[0], a[1..]);
    assert a == [a[0]] + a[1..];
    assert a[0] in SameKeyAs(k, a[0], b);
    SameKeyAsMembers(k, a[0], b, a[0]);
    var j :| 0 <= j < |b| && b[j] == a[0];
    if j == 0 && k == ByName {
      LexLessIrreflexive(a[0].name);
    }
  }

  /** Any sorted, stable rearrangement of `s` is `Sort(k, s)`: the model's sort agrees
      with every stable sorting algorithm, whichever one the runtime uses. */
  lemma SortIsTheStableSort(k: SortKey, s: seq<Task>, r: seq<Task>)
    requires Sorted(k, r) && Stable(k, s, r)
    ensures r == Sort(k, s)
  {
    SortSorted(k, s);
    SortStable(k, s);
    SortedStableUnique(k, r, Sort(k, s));
  }

  /** When sorted by name, names are non-decreasing. */
  lemma SortedByNameNonDecreasing(s: seq<Task>, i: int, j: int)
    requires Sorted(ByName, s) && 0 <= i < j < |s|
    ensures s[i].name == s[j].name || LexLess(s[i].name, s[j].name)
  {
    if s[i].name != s[j].name {
      LexLessTotal(s[i].name, s[j].name);
    }
  }
}
