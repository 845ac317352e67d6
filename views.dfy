/** The two filtered views of the list: the completed tasks and the pending tasks. */
module Views {
  import opened Tasks
  import opened Sequences

  /** The completed view: the tasks whose flag is set, in list order. */
  function Completed(s: seq<Task>): (r: seq<Task>)
    ensures |r| <= |s|
  {
    if s == [] then []
    else (if s[0].completed then [s[0]] else []) + Completed(s[1..])
  }

  /** The pending view: the tasks whose flag is clear, in list order. */
  function Pending(s: seq<Task>): (r: seq<Task>)
    ensures |r| <= |s|
  {
    if s == [] then []
    else (if s[0].completed then [] else [s[0]]) + Pending(s[1..])
  }

  /** The completed view holds every completed task of the list as often as the list
      does, and nothing else. */
  lemma {:induction false} CompletedExact(s: seq<Task>, t: Task)
    ensures multiset(Completed(s))[t] == if t.completed then multiset(s)[t] else 0
  {
    if s != [] {
      var h := if s[0].completed then [s[0]] else [];
      CompletedExact(s[1..], t);
      assert multiset(s) == multiset([s[0]]) + multiset(s[1..]) by {
        assert s == [s[0]] + s[1..];
      }
      assert multiset(Completed(s)) == multiset(h) + multiset(Completed(s[1..]));
    }
  }

  /** The pending view holds every pending task of the list as often as the list does,
      and nothing else. */
  lemma {:induction false} PendingExact(s: seq<Task>, t: Task)
    ensures multiset(Pending(s))[t] == if t.completed then 0 else multiset(s)[t]
  {
    if s != [] {
      var h := if s[0].completed then [] else [s[0]];
      PendingExact(s[1..], t);
      assert multiset(s) == multiset([s[0]]) + multiset(s[1..]) by {
        assert s == [s[0]] + s[1..];
      }
      assert multiset(Pending(s)) == multiset(h) + multiset(Pending(s[1..]));
    }
  }

  /** A task is in a view exactly when it is in the list with the view's status. */
  lemma ViewMembers(s: seq<Task>, t: Task)
    ensures t in Completed(s) <==> t in s && t.completed
    ensures t in Pending(s) <==> t in s && !t.completed
  {
    CompletedExact(s, t);
    PendingExact(s, t);
    assert t in Completed(s) <==> multiset(Completed(s))[t] > 0;
    assert t in Pending(s) <==> multiset(Pending(s))[t] > 0;
  }

  /** The completed view keeps the order of the list: the view of a concatenation is
      the concatenation of the views. */
  lemma {:induction false} CompletedOfConcat(a: seq<Task>, b: seq<Task>)
    ensures Completed(a + b) == Completed(a) + Completed(b)
  {
    if a == [] {
      assert a + b == b;
    } else {
      var h := if a[0].completed then [a[0]] else [];
      assert (a + b)[0] == a[0] && (a + b)[1..] == a[1..] + b;
      assert Completed(a + b) == h + Completed(a[1..] + b);
      CompletedOfConcat(a[1..], b);
      assert Completed(a) == h + Completed(a[1..]);
      Associate(h, Completed(a[1..]), Completed(b));
    }
  }

  /** The pending view keeps the order of the list. */
  lemma {:induction false} PendingOfConcat(a: seq<Task>, b: seq<Task>)
    ensures Pending(a + b) == Pending(a) + Pending(b)
  {
    if a == [] {
      assert a + b == b;
    } else {
      var h := if a[0].completed then [] else [a[0]];
      assert (a + b)[0] == a[0] && (a + b)[1..] == a[1..] + b;
      assert Pending(a + b) == h + Pending(a[1..] + b);
      PendingOfConcat(a[1..], b);
      assert Pending(a) == h + Pending(a[1..]);
      Associate(h, Pending(a[1..]), Pending(b));
    }
  }

  /** The two views partition the list. */
  lemma ViewsPartition(s: seq<Task>)
    ensures |Completed(s)| + |Pending(s)| == |s|
    ensures multiset(Completed(s)) + multiset(Pending(s)) == multiset(s)
  {
    forall t ensures (multiset(Completed(s)) + multiset(Pending(s)))[t] == multiset(s)[t] {
      CompletedExact(s, t);
      PendingExact(s, t);
    }
    assert multiset(Completed(s)) + multiset(Pending(s)) == multiset(s);
    assert |multiset(Completed(s)) + multiset(Pending(s))| == |multiset(s)|;
  }
}
