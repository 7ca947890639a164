/**
 * `sortTasks`: the comparator that `currentSort` selects, and the stable sort that
 * `Array.prototype.sort` performs with it (stable as required by ECMA-262 since its
 * 2019 edition, section 23.1.3.30). The specification is insertion into an already
 * sorted prefix, left to right; `InsertionSort` performs it in place on an array.
 */
module Sorting {
  import opened Wrappers
  import opened Seqs
  import opened TaskModel

  /** The value of `currentSort`. */
  datatype SortMode = ByPriority | ByDueDate

  /** `toggleSort`'s new mode: priority becomes due date, anything else priority. */
  function NextMode(m: SortMode): (r: SortMode)
    ensures r != m
  {
    if m == ByPriority then ByDueDate else ByPriority
  }

  /**
   * The comparator: negative when `a` belongs before `b`, positive when after, zero
   * when they tie. By priority the higher rank comes first; by due date the earlier
   * date comes first and a task without a date after every task with one. Dates are
   * day numbers, so the difference is in days where the source's is in milliseconds;
   * only its sign is used.
   */
  function Compare(m: SortMode, a: Task, b: Task): (r: int)
    ensures m == ByPriority ==> (r == 0 <==> a.priority == b.priority)
    ensures m == ByPriority ==>
      (r < 0 <==> (a.priority == High && b.priority != High) || (a.priority == Medium && b.priority == Low))
    ensures m == ByDueDate ==> (r == 0 <==> a.dueDate == b.dueDate)
    ensures m == ByDueDate && a.dueDate.Some? && b.dueDate.None? ==> r < 0
    ensures m == ByDueDate && a.dueDate.Some? && b.dueDate.Some? ==>
      (r < 0 <==> a.dueDate.value < b.dueDate.value)
  {
    match m
    case ByPriority => Rank(b.priority) - Rank(a.priority)
    case ByDueDate =>
      if a.dueDate.None? && b.dueDate.None? then 0
      else if a.dueDate.None? then 1
      else if b.dueDate.None? then -1
      else a.dueDate.value - b.dueDate.value
  }

  /**
   * The comparator is consistent in the sense ECMA-262 requires of a sort comparator:
   * every task ties with itself, swapping the arguments flips the sign, and both
   * "not after" and "tied" are transitive.
   */
  lemma CompareIsConsistent(m: SortMode, a: Task, b: Task, c: Task)
    ensures Compare(m, a, a) == 0
    ensures Compare(m, a, b) < 0 <==> Compare(m, b, a) > 0
    ensures Compare(m, a, b) == 0 <==> Compare(m, b, a) == 0
    ensures Compare(m, a, b) <= 0 && Compare(m, b, c) <= 0 ==> Compare(m, a, c) <= 0
    ensures Compare(m, a, b) == 0 && Compare(m, b, c) == 0 ==> Compare(m, a, c) == 0
  {
  }

  /** Every task is in comparator order with every later one. */
  ghost predicate Ordered(m: SortMode, s: seq<Task>)
  {
    forall i, j :: 0 <= i < j < |s| ==> Compare(m, s[i], s[j]) <= 0
  }

  /** The tasks that tie with `x` under the comparator. */
  function TiedWith(m: SortMode, x: Task): Task -> bool
  {
    (t: Task) => Compare(m, t, x) == 0
  }

  /**
   * Insert `x` into the sorted `s` after every task that does not compare after it:
   * scanning from the end, pass over the tasks that compare strictly after `x`.
   */
  function Insert(m: SortMode, s: seq<Task>, x: Task): (r: seq<Task>)
    ensures |r| == |s| + 1
    decreases |s|
  {
    if s == [] then [x]
    else if Compare(m, s[|s| - 1], x) > 0 then Insert(m, s[..|s| - 1], x) + [s[|s| - 1]]
    else s + [x]
  }

  /** The stable sort of `s` under the comparator of mode `m`. */
  function StableSort(m: SortMode, s: seq<Task>): (r: seq<Task>)
    ensures |r| == |s|
    decreases |s|
  {
    if s == [] then [] else Insert(m, StableSort(m, s[..|s| - 1]), s[|s| - 1])
  }

  lemma {:induction false} InsertMultiset(m: SortMode, s: seq<Task>, x: Task)
    ensures multiset(Insert(m, s, x)) == multiset(s) + multiset{x}
    decreases |s|
  {
    if s != [] && Compare(m, s[|s| - 1], x) > 0 {
      InsertMultiset(m, s[..|s| - 1], x);
      assert s == s[..|s| - 1] + [s[|s| - 1]];
    }
  }

  /** Sorting permutes the tasks. */
  lemma {:induction false} SortIsPermutation(m: SortMode, s: seq<Task>)
    ensures multiset(StableSort(m, s)) == multiset(s)
    decreases |s|
  {
    if s != [] {
      SortIsPermutation(m, s[..|s| - 1]);
      InsertMultiset(m, StableSort(m, s[..|s| - 1]), s[|s| - 1]);
      assert s == s[..|s| - 1] + [s[|s| - 1]];
    }
  }

  /** Every task of `s` is in comparator order with `y`. */
  ghost predicate AllBefore(m: SortMode, s: seq<Task>, y: Task)
  {
    forall i :: 0 <= i < |s| ==> Compare(m, s[i], y) <= 0
  }

  /** An ordered list stays ordered when a task that no element compares after is appended. */
  lemma OrderedAppend(m: SortMode, s: seq<Task>, y: Task)
    requires Ordered(m, s) && AllBefore(m, s, y)
    ensures Ordered(m, s + [y])
  {
    var r := s + [y];
    forall i, j | 0 <= i < j < |r|
      ensures Compare(m, r[i], r[j]) <= 0
    {
      if j == |s| {
        assert r[i] == s[i];
      } else {
        assert r[i] == s[i] && r[j] == s[j];
      }
    }
  }

  /** The prefix of an ordered list is ordered and in order with the last task. */
  lemma OrderedSplitLast(m: SortMode, s: seq<Task>)
    requires Ordered(m, s) && s != []
    ensures Ordered(m, s[..|s| - 1]) && AllBefore(m, s[..|s| - 1], s[|s| - 1])
  {
  }

  /** Inserting a task that is in order with `y` into a list in order with `y` keeps it in order with `y`. */
  lemma {:induction false} InsertAllBefore(m: SortMode, s: seq<Task>, x: Task, y: Task)
    requires AllBefore(m, s, y) && Compare(m, x, y) <= 0
    ensures AllBefore(m, Insert(m, s, x), y)
    decreases |s|
  {
    if s != [] && Compare(m, s[|s| - 1], x) > 0 {
      InsertAllBefore(m, s[..|s| - 1], x, y);
    }
  }

  lemma {:induction false} InsertOrdered(m: SortMode, s: seq<Task>, x: Task)
    requires Ordered(m, s)
    ensures Ordered(m, Insert(m, s, x))
    decreases |s|
  {
    if s != [] {
      var n := |s| - 1;
      var init, last := s[..n], s[n];
      OrderedSplitLast(m, s);
      if Compare(m, last, x) > 0 {
        InsertOrdered(m, init, x);
        CompareIsConsistent(m, x, last, x);
        InsertAllBefore(m, init, x, last);
        OrderedAppend(m, Insert(m, init, x), last);
      } else {
        forall i | 0 <= i < |s|
          ensures Compare(m, s[i], x) <= 0
        {
          CompareIsConsistent(m, s[i], last, x);
        }
        OrderedAppend(m, s, x);
      }
    }
  }

  /** Sorting yields comparator order. */
  lemma {:induction false} SortIsOrdered(m: SortMode, s: seq<Task>)
    ensures Ordered(m, StableSort(m, s))
    decreases |s|
  {
    if s != [] {
      SortIsOrdered(m, s[..|s| - 1]);
      InsertOrdered(m, StableSort(m, s[..|s| - 1]), s[|s| - 1]);
    }
  }

  /** Two tasks in strict comparator order cannot both tie with a third. */
  lemma NotBothTied(m: SortMode, a: Task, b: Task, y: Task)
    requires Compare(m, a, b) > 0
    ensures Compare(m, a, y) != 0 || Compare(m, b, y) != 0
  {
    CompareIsConsistent(m, b, y, a);
    CompareIsConsistent(m, a, y, b);
  }

  /**
   * When at most one of `x` and `last` passes `p`, filtering after appending `last`
   * is the same whether `x` comes before or after it.
   */
  lemma FilterPastUnrelated<T>(a: seq<T>, b: seq<T>, x: T, last: T, p: T -> bool)
    requires !(p(x) && p(last))
    requires Filter(a, p) == Filter(b, p) + Filter([x], p)
    ensures Filter(a + [last], p) == Filter(b + [last], p) + Filter([x], p)
  {
    FilterAppend(a, [last], p);
    FilterAppend(b, [last], p);
    assert Filter([x], p) == [] || Filter([last], p) == [];
  }

  lemma {:induction false} InsertTied(m: SortMode, s: seq<Task>, x: Task, y: Task)
    ensures Filter(Insert(m, s, x), TiedWith(m, y)) == Filter(s, TiedWith(m, y)) + Filter([x], TiedWith(m, y))
    decreases |s|
  {
    var p := TiedWith(m, y);
    if s == [] {
      assert [] + [x] == [x];
    } else {
      var n := |s| - 1;
      var init, last := s[..n], s[n];
      assert s == init + [last];
      FilterAppend(init, [last], p);
      if Compare(m, last, x) > 0 {
        InsertTied(m, init, x, y);
        // `x` and `last` cannot both tie with `y`, so their order does not matter.
        NotBothTied(m, last, x, y);
        FilterPastUnrelated(Insert(m, init, x), init, x, last, p);
      } else {
        FilterAppend(s, [x], p);
      }
    }
  }

  /** Sorting is stable: the tasks that tie with any `x` keep their relative order. */
  lemma {:induction false} SortIsStable(m: SortMode, s: seq<Task>, x: Task)
    ensures Filter(StableSort(m, s), TiedWith(m, x)) == Filter(s, TiedWith(m, x))
    decreases |s|
  {
    if s != [] {
      var n := |s| - 1;
      SortIsStable(m, s[..n], x);
      InsertTied(m, StableSort(m, s[..n]), s[n], x);
      assert s == s[..n] + [s[n]];
      FilterAppend(s[..n], [s[n]], TiedWith(m, x));
    }
  }

  /** Inserting adds exactly the inserted task's id. */
  lemma InsertIds(m: SortMode, s: seq<Task>, x: Task)
    ensures Ids(Insert(m, s, x)) == Ids(s) + {x.id}
  {
    InsertMultiset(m, s, x);
    assert multiset(Insert(m, s, x)) == multiset(s + [x]);
    PermutationKeepsIds(Insert(m, s, x), s + [x]);
    IdsAppend(s, x);
  }

  /** Inserting a task with a new id keeps the ids unique. */
  lemma {:induction false} InsertKeepsIdsUnique(m: SortMode, s: seq<Task>, x: Task)
    requires IdsUnique(s) && x.id !in Ids(s)
    ensures IdsUnique(Insert(m, s, x))
    decreases |s|
  {
    if s == [] {
      assert IdsUnique([x]);
    } else if Compare(m, s[|s| - 1], x) > 0 {
      var n := |s| - 1;
      var init, last := s[..n], s[n];
      LastIdIsNew(s);
      assert s == init + [last];
      IdsAppend(init, last);
      InsertKeepsIdsUnique(m, init, x);
      InsertIds(m, init, x);
      AppendKeepsIdsUnique(Insert(m, init, x), last);
    } else {
      AppendKeepsIdsUnique(s, x);
    }
  }

  /** Sorting keeps the set of ids, and keeps them unique when they were. */
  lemma {:induction false} SortKeepsIds(m: SortMode, s: seq<Task>)
    ensures Ids(StableSort(m, s)) == Ids(s)
    ensures IdsUnique(s) ==> IdsUnique(StableSort(m, s))
    decreases |s|
  {
    SortIsPermutation(m, s);
    PermutationKeepsIds(StableSort(m, s), s);
    if s != [] && IdsUnique(s) {
      var n := |s| - 1;
      LastIdIsNew(s);
      SortKeepsIds(m, s[..n]);
      InsertKeepsIdsUnique(m, StableSort(m, s[..n]), s[n]);
    }
  }

  /** The tasks of priority `p`. */
  function HasPriority(p: Priority): Task -> bool
  {
    (t: Task) => t.priority == p
  }

  /** The tasks without a due date. */
  function IsUndated(): Task -> bool
  {
    (t: Task) => t.dueDate.None?
  }

  /** The tasks due on day `d`. */
  function DueOn(d: Date): Task -> bool
  {
    (t: Task) => t.dueDate == Some(d)
  }

  /** Sorting by priority permutes the tasks into non-increasing rank: high, then medium, then low. */
  lemma PrioritySort(s: seq<Task>)
    ensures multiset(StableSort(ByPriority, s)) == multiset(s)
    ensures forall i, j :: 0 <= i < j < |s| ==>
      Rank(StableSort(ByPriority, s)[i].priority) >= Rank(StableSort(ByPriority, s)[j].priority)
  {
    SortIsPermutation(ByPriority, s);
    SortIsOrdered(ByPriority, s);
  }

  /** Sorting by priority keeps the relative order of the tasks of each priority. */
  lemma SamePriorityKeepOrder(s: seq<Task>, p: Priority)
    ensures Filter(StableSort(ByPriority, s), HasPriority(p)) == Filter(s, HasPriority(p))
  {
    var x := Task(0, "", "", p, None, Pending);
    SortIsStable(ByPriority, s, x);
    FilterExtensional(s, TiedWith(ByPriority, x), HasPriority(p));
    FilterExtensional(StableSort(ByPriority, s), TiedWith(ByPriority, x), HasPriority(p));
  }

  /**
   * Sorting by due date permutes the tasks so that every dated task precedes every
   * undated one and the dates do not decrease.
   */
  lemma DueDateSort(s: seq<Task>)
    ensures multiset(StableSort(ByDueDate, s)) == multiset(s)
    ensures forall i, j :: 0 <= i < j < |s| && StableSort(ByDueDate, s)[j].dueDate.Some? ==>
      && StableSort(ByDueDate, s)[i].dueDate.Some?
      && StableSort(ByDueDate, s)[i].dueDate.value <= StableSort(ByDueDate, s)[j].dueDate.value
  {
    SortIsPermutation(ByDueDate, s);
    SortIsOrdered(ByDueDate, s);
  }

  /** Sorting by due date keeps the relative order of the undated tasks. */
  lemma UndatedKeepOrder(s: seq<Task>)
    ensures Filter(StableSort(ByDueDate, s), IsUndated()) == Filter(s, IsUndated())
  {
    var none := Task(0, "", "", Low, None, Pending);
    SortIsStable(ByDueDate, s, none);
    FilterExtensional(s, TiedWith(ByDueDate, none), IsUndated());
    FilterExtensional(StableSort(ByDueDate, s), TiedWith(ByDueDate, none), IsUndated());
  }

  /** Sorting by due date keeps the relative order of the tasks due on any one day. */
  lemma SameDayKeepOrder(s: seq<Task>, d: Date)
    ensures Filter(StableSort(ByDueDate, s), DueOn(d)) == Filter(s, DueOn(d))
  {
    var day := Task(0, "", "", Low, Some(d), Pending);
    SortIsStable(ByDueDate, s, day);
    FilterExtensional(s, TiedWith(ByDueDate, day), DueOn(d));
    FilterExtensional(StableSort(ByDueDate, s), TiedWith(ByDueDate, day), DueOn(d));
  }

  /** One step of the scan in `Insert`: passing over a task that compares after `x`. */
  lemma InsertStep(m: SortMode, p: seq<Task>, j: nat, x: Task)
    requires 0 < j <= |p| && Compare(m, p[j - 1], x) > 0
    ensures Insert(m, p[..j], x) + p[j..] == Insert(m, p[..j - 1], x) + p[j - 1..]
  {
    assert p[..j][..j - 1] == p[..j - 1];
    assert p[j - 1..] == [p[j - 1]] + p[j..];
  }

  /** Shifting `p[j - 1]` right by one opens the gap at `j - 1`. */
  lemma ShiftStep(p: seq<Task>, j: nat, gap: Task, rest: seq<Task>)
    requires 0 < j <= |p|
    ensures (p[..j] + [gap] + p[j..] + rest)[j := p[j - 1]] == p[..j - 1] + [p[j - 1]] + p[j - 1..] + rest
  {
    assert p[..j] == p[..j - 1] + [p[j - 1]];
    assert p[j - 1..] == [p[j - 1]] + p[j..];
  }

  /** Storing `x` in the gap completes the insertion. */
  lemma FillGap(m: SortMode, p: seq<Task>, j: nat, gap: Task, x: Task, rest: seq<Task>)
    requires j <= |p| && (j == 0 || Compare(m, p[j - 1], x) <= 0)
    ensures (p[..j] + [gap] + p[j..] + rest)[j := x] == Insert(m, p[..j], x) + p[j..] + rest
  {
    assert j > 0 ==> p[..j][..j - 1] + [p[j - 1]] == p[..j];
  }

  /**
   * Insert `a[i]` into the sorted prefix `a[..i]`: shift right every task that
   * compares strictly after it, then store it in the gap.
   */
  method InsertAt(m: SortMode, a: array<Task>, i: nat)
    requires i < a.Length
    modifies a
    ensures a[..] == Insert(m, old(a[..i]), old(a[i])) + old(a[i + 1..])
  {
    var x := a[i];
    ghost var p, rest := a[..i], a[i + 1..];
    assert a[..] == p[..i] + [x] + p[i..] + rest;
    assert p[..i] == p && p[i..] == [];
    var j := i;
    while j > 0
      invariant 0 <= j <= i && a.Length == i + 1 + |rest|
      invariant a[..] == p[..j] + [a[j]] + p[j..] + rest
      invariant Insert(m, p, x) == Insert(m, p[..j], x) + p[j..]
    {
      var y := a[j - 1];
      assert y == p[j - 1];
      if Compare(m, y, x) <= 0 {
        break;
      }
      InsertStep(m, p, j, x);
      ShiftStep(p, j, a[j], rest);
      a[j] := a[j - 1];
      j := j - 1;
    }
    assert j > 0 ==> a[j - 1] == p[j - 1];
    FillGap(m, p, j, a[j], x, rest);
    a[j] := x;
    assert p == p[..i];
  }

  /** The sorted prefix grows by one when its next task is inserted into it. */
  lemma SortLoopStep(m: SortMode, s: seq<Task>, i: nat, before: seq<Task>)
    requires i < |s| && before == StableSort(m, s[..i]) + s[i..]
    ensures Insert(m, before[..i], before[i]) + before[i + 1..] == StableSort(m, s[..i + 1]) + s[i + 1..]
  {
    assert before[..i] == StableSort(m, s[..i]);
    assert before[i] == s[i];
    assert before[i + 1..] == s[i + 1..];
    assert s[..i + 1][..i] == s[..i];
  }

  /**
   * `tasks.sort(comparator)` performed in place: each task in turn is inserted into
   * the sorted prefix before it.
   */
  method InsertionSort(m: SortMode, a: array<Task>)
    modifies a
    ensures a[..] == StableSort(m, old(a[..]))
  {
    ghost var s := a[..];
    var i := 0;
    assert s[..0] == [];
    while i < a.Length
      invariant 0 <= i <= a.Length
      invariant a[..] == StableSort(m, s[..i]) + s[i..]
    {
      SortLoopStep(m, s, i, a[..]);
      InsertAt(m, a, i);
      i := i + 1;
    }
    assert s == s[..a.Length];
  }
}
