/** Finding, removing and completing the first task with a given id. Ids are not
    unique in the list (a task added after a removal can reuse an id), so every
    operation acts on the FIRST task with the id. */
module Edits {
  import opened Tasks

  predicate HasId(s: seq<Task>, id: int) {
    exists j :: 0 <= j < |s| && s[j].id == id
  }

  /** `i` is the position of the first task of `s` with this id. */
  predicate FirstWithId(s: seq<Task>, id: int, i: nat) {
    i < |s| && s[i].id == id && forall j :: 0 <= j < i ==> s[j].id != id
  }

  /** The lookup shared by removal and completion: scans the list from the front and
      stops at the first task with the id. */
  method FindFirst(s: seq<Task>, id: int) returns (found: bool, i: nat)
    ensures found <==> HasId(s, id)
    ensures found ==> FirstWithId(s, id, i)
  {
    i := 0;
    while i < |s|
      invariant i <= |s|
      invariant forall j :: 0 <= j < i ==> s[j].id != id
    {
      if s[i].id == id {
        return true, i;
      }
      i := i + 1;
    }
    return false, 0;
  }

  /** Reference definition of removing the first task with the id. */
  function RemoveFirst(s: seq<Task>, id: int): (r: seq<Task>)
    ensures |r| == if HasId(s, id) then |s| - 1 else |s|
  {
    if s == [] then []
    else if s[0].id == id then s[1..]
    else
      assert HasId(s, id) <==> HasId(s[1..], id) by {
        if HasId(s, id) {
          var j :| 0 <= j < |s| && s[j].id == id;
          assert s[1..][j - 1].id == id;
        }
        if HasId(s[1..], id) {
          var j :| 0 <= j < |s[1..]| && s[1..][j].id == id;
          assert s[j + 1].id == id;
        }
      }
      [s[0]] + RemoveFirst(s[1..], id)
  }

  /** Reference definition of completing the first task with the id. */
  function CompleteFirst(s: seq<Task>, id: int): (r: seq<Task>)
    ensures |r| == |s|
  {
    if s == [] then []
    else if s[0].id == id then [s[0].(completed := true)] + s[1..]
    else [s[0]] + CompleteFirst(s[1..], id)
  }

  /** When the id is present, removal cuts out exactly the first task with that id. */
  lemma {:induction false} RemoveFirstAt(s: seq<Task>, id: int, i: nat)
    requires FirstWithId(s, id, i)
    ensures RemoveFirst(s, id) == s[..i] + s[i + 1..]
  {
    if i > 0 {
      assert FirstWithId(s[1..], id, i - 1);
      RemoveFirstAt(s[1..], id, i - 1);
      assert s[..i] == [s[0]] + s[1..][..i - 1];
      assert s[i + 1..] == s[1..][i..];
    }
  }

  /** When no task has the id, removal changes nothing. */
  lemma {:induction false} RemoveFirstAbsent(s: seq<Task>, id: int)
    requires !HasId(s, id)
    ensures RemoveFirst(s, id) == s
  {
    if s != [] {
      RemoveFirstAbsent(s[1..], id);
    }
  }

  /** When the id is present, completion sets the flag of the first task with that id
      and of no other task. */
  lemma {:induction false} CompleteFirstAt(s: seq<Task>, id: int, i: nat)
    requires FirstWithId(s, id, i)
    ensures CompleteFirst(s, id) == s[i := s[i].(completed := true)]
  {
    if i > 0 {
      assert FirstWithId(s[1..], id, i - 1);
      CompleteFirstAt(s[1..], id, i - 1);
    }
  }

  /** When no task has the id, completion changes nothing. */
  lemma {:induction false} CompleteFirstAbsent(s: seq<Task>, id: int)
    requires !HasId(s, id)
    ensures CompleteFirst(s, id) == s
  {
    if s != [] {
      CompleteFirstAbsent(s[1..], id);
    }
  }

  /** Completion keeps the length, the order, every id and every name; only flags change,
      and only from false to true. */
  lemma {:induction false} CompleteFirstFrame(s: seq<Task>, id: int)
    ensures |CompleteFirst(s, id)| == |s|
    ensures forall j :: 0 <= j < |s| ==>
      CompleteFirst(s, id)[j].id == s[j].id && CompleteFirst(s, id)[j].name == s[j].name &&
      (s[j].completed ==> CompleteFirst(s, id)[j].completed)
  {
    if s != [] && s[0].id != id {
      CompleteFirstFrame(s[1..], id);
    }
  }

  /** Completing the same id twice is the same as completing it once. */
  lemma {:induction false} CompleteFirstIdempotent(s: seq<Task>, id: int)
    ensures CompleteFirst(CompleteFirst(s, id), id) == CompleteFirst(s, id)
  {
    if s != [] {
      if s[0].id == id {
        var r := CompleteFirst(s, id);
        assert r[1..] == s[1..];
      } else {
        CompleteFirstIdempotent(s[1..], id);
      }
    }
  }
}
