/** The to-do list (`TodoList`): a list of tasks changed in place by adding, removing,
    completing and sorting. Console output is not modelled; the filtered views are the
    functions of module Views applied to `tasks`. */
module Todo {
  import opened Tasks
  import opened Sequences
  import opened Ordering
  import opened Views
  import opened Edits

  class TodoList {
    var tasks: seq<Task>

    /** Every task the list holds was created by `AddTask`, so its id is positive. */
    ghost predicate Valid()
      reads this
    {
      forall t :: t in tasks ==> t.id >= 1
    }

    constructor ()
      ensures Valid() && tasks == []
    {
      tasks := [];
    }

    /** Appends a pending task whose id is one more than the current length. */
    method AddTask(name: string)
      requires Valid()
      modifies this
      ensures Valid()
      ensures tasks == old(tasks) + [Task(|old(tasks)| + 1, name, false)]
    {
      var task := Task(|tasks| + 1, name, false);
      tasks := tasks + [task];
    }

    /** Removes the first task with the id; reports whether there was one. */
    method RemoveTask(id: int) returns (removed: bool)
      requires Valid()
      modifies this
      ensures Valid()
      ensures removed <==> HasId(old(tasks), id)
      ensures tasks == RemoveFirst(old(tasks), id)
      ensures removed ==> exists i: nat :: FirstWithId(old(tasks), id, i) &&
                                      tasks == old(tasks)[..i] + old(tasks)[i + 1..]
      ensures !removed ==> tasks == old(tasks)
      ensures id < 1 ==> !removed
    {
      var found, i := FindFirst(tasks, id);
      if found {
        assert tasks[i] in tasks;
        RemoveFirstAt(tasks, id, i);
        ghost var before := tasks;
        tasks := tasks[..i] + tasks[i + 1..];
        forall t | t in tasks ensures t in before {
          if t in before[..i] {
          } else {
            assert t in before[i + 1..];
          }
        }
      } else {
        RemoveFirstAbsent(tasks, id);
      }
      removed := found;
    }

    /** Marks the first task with the id as completed; reports whether there was one. */
    method CompleteTask(id: int) returns (found: bool)
      requires Valid()
      modifies this
      ensures Valid()
      ensures found <==> HasId(old(tasks), id)
      ensures tasks == CompleteFirst(old(tasks), id)
      ensures found ==> exists i: nat :: FirstWithId(old(tasks), id, i) &&
                                    tasks == old(tasks)[i := old(tasks)[i].(completed := true)]
      ensures !found ==> tasks == old(tasks)
      ensures id < 1 ==> !found
    {
      var i;
      found, i := FindFirst(tasks, id);
      if found {
        assert tasks[i] in tasks;
        CompleteFirstAt(tasks, id, i);
        ghost var before := tasks;
        tasks := tasks[i := tasks[i].(completed := true)];
        forall t | t in tasks ensures t.id >= 1 {
          var j :| 0 <= j < |tasks| && tasks[j] == t;
          assert t.id == before[j].id && before[j] in before;
        }
      } else {
        CompleteFirstAbsent(tasks, id);
      }
    }

    /** Sorts the list by name, stably, in place. */
    method SortByName()
      requires Valid()
      modifies this
      ensures Valid()
      ensures tasks == Sort(ByName, old(tasks))
      ensures multiset(tasks) == multiset(old(tasks))
      ensures Sorted(ByName, tasks) && Stable(ByName, old(tasks), tasks)
    {
      SortSorted(ByName, tasks);
      SortStable(ByName, tasks);
      ghost var before := tasks;
      tasks := Sort(ByName, tasks);
      forall t | t in tasks ensures t in before {
        assert t in multiset(tasks);
      }
    }

    /** Sorts the list by completion flag, stably, in place: since `false < true` the
        pending tasks come first. */
    method SortByState()
      requires Valid()
      modifies this
      ensures Valid()
      ensures tasks == Sort(ByState, old(tasks))
      ensures tasks == Pending(old(tasks)) + Completed(old(tasks))
      ensures multiset(tasks) == multiset(old(tasks))
      ensures Sorted(ByState, tasks) && Stable(ByState, old(tasks), tasks)
    {
      SortSorted(ByState, tasks);
      SortStable(ByState, tasks);
      SortByStateSplits(tasks);
      ghost var before := tasks;
      tasks := Sort(ByState, tasks);
      forall t | t in tasks ensures t in before {
        assert t in multiset(tasks);
      }
    }
  }

  /** Inserting by completion flag into "pending tasks, then completed tasks". */
  lemma {:induction false} InsertByState(y: Task, p: seq<Task>, c: seq<Task>)
    requires forall i :: 0 <= i < |p| ==> !p[i].completed
    requires forall i :: 0 <= i < |c| ==> c[i].completed
    ensures Insert(ByState, y, p + c) == if y.completed then p + ([y] + c) else [y] + (p + c)
  {
    if y.completed {
      if p == [] {
        assert p + c == c;
      } else {
        assert (p + c)[0] == p[0] && (p + c)[1..] == p[1..] + c;
        InsertByState(y, p[1..], c);
        assert p == [p[0]] + p[1..];
        Associate([p[0]], p[1..], [y] + c);
      }
    }
  }

  /** Sorting by completion flag puts the pending view first and the completed view
      after it. */
  lemma {:induction false} SortByStateSplits(s: seq<Task>)
    ensures Sort(ByState, s) == Pending(s) + Completed(s)
  {
    if s != [] {
      var p, c := Pending(s[1..]), Completed(s[1..]);
      assert Sort(ByState, s) == Insert(ByState, s[0], p + c) by {
        SortByStateSplits(s[1..]);
      }
      assert Insert(ByState, s[0], p + c) ==
             if s[0].completed then p + ([s[0]] + c) else [s[0]] + (p + c) by {
        ViewsHaveTheirStatus(s[1..]);
        InsertByState(s[0], p, c);
      }
      ViewsOfFirst(s);
    }
  }

  /** How the first task of a non-empty list enters the pending view followed by the
      completed view. */
  lemma ViewsOfFirst(s: seq<Task>)
    requires s != []
    ensures var p, c := Pending(s[1..]), Completed(s[1..]);
      Pending(s) + Completed(s) == if s[0].completed then p + ([s[0]] + c) else [s[0]] + (p + c)
  {
    if s[0].completed {
      ViewsOfCompletedFirst(s);
    } else {
      ViewsOfPendingFirst(s);
    }
  }

  lemma ViewsOfCompletedFirst(s: seq<Task>)
    requires s != [] && s[0].completed
    ensures Pending(s) + Completed(s) == Pending(s[1..]) + ([s[0]] + Completed(s[1..]))
  {
    assert Pending(s) == Pending(s[1..]);
    assert Completed(s) == [s[0]] + Completed(s[1..]);
  }

  lemma ViewsOfPendingFirst(s: seq<Task>)
    requires s != [] && !s[0].completed
    ensures Pending(s) + Completed(s) == [s[0]] + (Pending(s[1..]) + Completed(s[1..]))
  {
    assert Pending(s) == [s[0]] + Pending(s[1..]);
    assert Completed(s) == Completed(s[1..]);
    Associate([s[0]], Pending(s[1..]), Completed(s[1..]));
  }

  lemma ViewsHaveTheirStatus(s: seq<Task>)
    ensures forall i :: 0 <= i < |Pending(s)| ==> !Pending(s)[i].completed
    ensures forall i :: 0 <= i < |Completed(s)| ==> Completed(s)[i].completed
  {
    forall i | 0 <= i < |Pending(s)| ensures !Pending(s)[i].completed {
      ViewMembers(s, Pending(s)[i]);
    }
    forall i | 0 <= i < |Completed(s)| ensures Completed(s)[i].completed {
      ViewMembers(s, Completed(s)[i]);
    }
  }

  /** A newly added task shows up at the end of the pending view and leaves the
      completed view alone. */
  lemma AddedTaskIsPending(s: seq<Task>, t: Task)
    requires !t.completed
    ensures Pending(s + [t]) == Pending(s) + [t]
    ensures Completed(s + [t]) == Completed(s)
  {
    PendingOfConcat(s, [t]);
    CompletedOfConcat(s, [t]);
    assert Pending([t]) == [t];
    assert Completed([t]) == [];
  }

  /** Ids are not kept unique: after removing the first of two tasks, the next task
      added gets id 2 again, and completing id 2 affects only the earlier task. */
  method IdReuseScenario() {
    var list := new TodoList();
    list.AddTask("a");
    list.AddTask("b");
    ghost var before := list.tasks;
    assert before == [Task(1, "a", false), Task(2, "b", false)];
    var removed := list.RemoveTask(1);
    assert RemoveFirst(before, 1) == before[1..];
    assert list.tasks == [Task(2, "b", false)];
    list.AddTask("c");
    before := list.tasks;
    assert before == [Task(2, "b", false), Task(2, "c", false)];
    var found := list.CompleteTask(2);
    assert CompleteFirst(before, 2) == [before[0].(completed := true)] + before[1..];
    assert list.tasks == [Task(2, "b", true), Task(2, "c", false)];
  }
}
