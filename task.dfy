/**
 * The one entity of the task list: a task record, as `addTask` builds it and as the
 * store keeps it.
 */
module TaskModel {
  import opened Wrappers
  import opened Text

  /** A calendar date as a day number; an absent date (the empty input) is `None`. */
  type Date = int

  datatype Priority = High | Medium | Low

  datatype Status = Pending | Completed

  datatype Task = Task(
    id: int,
    title: string,
    desc: string,
    priority: Priority,
    dueDate: Option<Date>,
    status: Status)

  /** The rank the priority sort uses: high 3, medium 2, low 1. */
  function Rank(p: Priority): (r: int)
    ensures 1 <= r <= 3
    ensures r == 3 <==> p == High
    ensures r == 1 <==> p == Low
  {
    match p
    case High => 3
    case Medium => 2
    case Low => 1
  }

  /** The new status `toggleComplete` gives: completed becomes pending, anything else completed. */
  function Flip(s: Status): (r: Status)
    ensures r != s
  {
    if s == Completed then Pending else Completed
  }

  /** The ids present in the list. */
  function Ids(s: seq<Task>): set<int>
  {
    set t | t in s :: t.id
  }

  /** No two positions of the list hold tasks with the same id. */
  predicate IdsUnique(s: seq<Task>)
  {
    forall i, j :: 0 <= i < j < |s| ==> s[i].id != s[j].id
  }

  /** A task as `addTask` stores it: its title is non-empty, and title and description are trimmed. */
  predicate WellFormed(t: Task)
  {
    t.title != [] && IsTrimmed(t.title) && IsTrimmed(t.desc)
  }

  /** The test `t.id !== id` of `deleteTask`. */
  function IdIsNot(id: int): Task -> bool
  {
    (t: Task) => t.id != id
  }

  /** The test `t.status === 'completed'` of `updateStats`. */
  function IsCompleted(): Task -> bool
  {
    (t: Task) => t.status == Completed
  }

  /** The complementary test, for tasks still pending. */
  function IsPending(): Task -> bool
  {
    (t: Task) => t.status == Pending
  }

  /** Appending a task whose id is new keeps the ids unique. */
  lemma AppendKeepsIdsUnique(s: seq<Task>, t: Task)
    requires IdsUnique(s) && t.id !in Ids(s)
    ensures IdsUnique(s + [t])
  {
    var r := s + [t];
    forall i, j | 0 <= i < j < |r|
      ensures r[i].id != r[j].id
    {
      if j == |s| {
        assert r[i] in s;
      }
    }
  }

  /** With unique ids, the last task's id does not occur before it. */
  lemma LastIdIsNew(s: seq<Task>)
    requires IdsUnique(s) && s != []
    ensures IdsUnique(s[..|s| - 1]) && s[|s| - 1].id !in Ids(s[..|s| - 1])
  {
    var n := |s| - 1;
    forall t | t in s[..n]
      ensures t.id != s[n].id
    {
      var k :| 0 <= k < n && s[..n][k] == t;
      assert s[k] == t;
    }
  }

  /** Appending a task adds its id. */
  lemma IdsAppend(s: seq<Task>, t: Task)
    ensures Ids(s + [t]) == Ids(s) + {t.id}
  {
    forall id | id in Ids(s)
      ensures id in Ids(s + [t])
    {
      var u :| u in s && u.id == id;
      assert u in s + [t];
    }
    assert t in s + [t];
  }

  /** Tasks that are a permutation of each other carry the same ids. */
  lemma PermutationKeepsIds(r: seq<Task>, s: seq<Task>)
    requires multiset(r) == multiset(s)
    ensures Ids(r) == Ids(s)
  {
    forall id | id in Ids(r)
      ensures id in Ids(s)
    {
      var t :| t in r && t.id == id;
      assert t in multiset(r);
    }
    forall id | id in Ids(s)
      ensures id in Ids(r)
    {
      var t :| t in s && t.id == id;
      assert t in multiset(s);
    }
  }

  /** Flipping twice restores the status. */
  lemma FlipTwice(s: Status)
    ensures Flip(Flip(s)) == s
  {
  }
}
