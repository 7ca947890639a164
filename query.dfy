/**
 * `filterTasks`: the view of the task list that the search box and the three filter
 * menus select. It reads the list and never changes it.
 */
module Query {
  import opened Wrappers
  import opened Seqs
  import opened Text
  import opened TaskModel

  /**
   * The four inputs of the filter. The search text is used as typed; an empty menu
   * (no constraint) is `None`.
   */
  datatype Criteria = Criteria(
    search: string,
    priority: Option<Priority>,
    dueDate: Option<Date>,
    status: Option<Status>)

  /** Every input empty. */
  const NoCriteria := Criteria("", None, None, None)

  /** Title or description contains the search text, both lower-cased. */
  function SearchFor(search: string): (r: Task -> bool)
    ensures search == [] ==> forall t: Task :: r(t)
    ensures forall t: Task :: r(t) ==> |search| <= |t.title| || |search| <= |t.desc|
  {
    (t: Task) => Contains(Lower(t.title), Lower(search)) || Contains(Lower(t.desc), Lower(search))
  }

  /** The priority menu, when set, equals the task's priority. */
  function PriorityIs(p: Option<Priority>): (r: Task -> bool)
    ensures p.None? ==> forall t: Task :: r(t)
    ensures p.Some? ==> forall t: Task :: r(t) <==> t.priority == p.value
  {
    (t: Task) => p.None? || t.priority == p.value
  }

  /** The date input, when set, equals the task's due date exactly. */
  function DueDateIs(d: Option<Date>): (r: Task -> bool)
    ensures d.None? ==> forall t: Task :: r(t)
    ensures d.Some? ==> forall t: Task :: r(t) <==> t.dueDate == d
  {
    (t: Task) => d.None? || t.dueDate == d
  }

  /** The status menu, when set, equals the task's status. */
  function StatusIs(st: Option<Status>): (r: Task -> bool)
    ensures st.None? ==> forall t: Task :: r(t)
    ensures st.Some? ==> forall t: Task :: r(t) <==> t.status == st.value
  {
    (t: Task) => st.None? || t.status == st.value
  }

  /**
   * The predicate `filterTasks` passes to `tasks.filter`: all four tests hold. Its
   * contract says that empty inputs let every task through and, for callers that
   * only need the menus, that a matching task passes the priority and status tests;
   * `FilteredIsSuccessiveFilters` ties the view to all four tests.
   */
  function Matches(c: Criteria): (r: Task -> bool)
    ensures c.search == [] && c.priority.None? && c.dueDate.None? && c.status.None? ==> forall t: Task :: r(t)
    ensures forall t: Task :: r(t) ==> PriorityIs(c.priority)(t) && StatusIs(c.status)(t)
  {
    var r := (t: Task) =>
      && SearchFor(c.search)(t)
      && PriorityIs(c.priority)(t)
      && DueDateIs(c.dueDate)(t)
      && StatusIs(c.status)(t);
    assert forall t: Task :: r(t) == (SearchFor(c.search)(t) && PriorityIs(c.priority)(t) && DueDateIs(c.dueDate)(t) && StatusIs(c.status)(t));
    r
  }

  /** The filtered view of `s`. */
  function Filtered(s: seq<Task>, c: Criteria): (r: seq<Task>)
    ensures forall i :: 0 <= i < |r| ==> Matches(c)(r[i])
  {
    Filter(s, Matches(c))
  }

  /**
   * The view holds, in their order in `s`, exactly the tasks that match: each matching
   * task as often as it occurs in `s`, no other task.
   */
  lemma FilteredIsMatchingSubsequence(s: seq<Task>, c: Criteria)
    ensures IsSubsequence(Filtered(s, c), s)
    ensures forall t :: multiset(Filtered(s, c))[t] == if Matches(c)(t) then multiset(s)[t] else 0
  {
    FilterIsSubsequence(s, Matches(c));
    FilterMultiset(s, Matches(c));
  }

  /** With the search text empty and every menu empty, the view is the whole list in order. */
  lemma NoCriteriaKeepsAll(s: seq<Task>)
    ensures Filtered(s, NoCriteria) == s
  {
    assert Lower("") == [];
    forall i | 0 <= i < |s|
      ensures Matches(NoCriteria)(s[i])
    {
      assert Contains(Lower(s[i].title), Lower(""));
      assert SearchFor(NoCriteria.search)(s[i]);
      assert PriorityIs(None)(s[i]) && DueDateIs(None)(s[i]) && StatusIs(None)(s[i]);
    }
    FilterKeepsAll(s, Matches(NoCriteria));
  }

  /**
   * The view is the same as applying the four tests one after the other: search,
   * then priority, then due date, then status.
   */
  lemma FilteredIsSuccessiveFilters(s: seq<Task>, c: Criteria)
    ensures Filtered(s, c) ==
      Filter(Filter(Filter(Filter(s, SearchFor(c.search)), PriorityIs(c.priority)), DueDateIs(c.dueDate)), StatusIs(c.status))
  {
    var a, b, d, e := SearchFor(c.search), PriorityIs(c.priority), DueDateIs(c.dueDate), StatusIs(c.status);
    FilterTwice(s, a, b);
    FilterTwice(s, Both(a, b), d);
    FilterTwice(s, Both(Both(a, b), d), e);
    FilterExtensional(s, Both(Both(Both(a, b), d), e), Matches(c));
  }

  /** The search ignores case: searching for the lower-cased text selects the same tasks. */
  lemma SearchIgnoresCase(s: seq<Task>, c: Criteria)
    ensures Filtered(s, c.(search := Lower(c.search))) == Filtered(s, c)
  {
    LowerIdempotent(c.search);
    forall i | 0 <= i < |s|
      ensures SearchFor(Lower(c.search))(s[i]) == SearchFor(c.search)(s[i])
    {
    }
    FilterExtensional(s, Matches(c.(search := Lower(c.search))), Matches(c));
  }

  /** Filtering twice with the same inputs changes nothing the second time. */
  lemma FilteredIdempotent(s: seq<Task>, c: Criteria)
    ensures Filtered(Filtered(s, c), c) == Filtered(s, c)
  {
    FilterKeepsAll(Filtered(s, c), Matches(c));
  }

  /** Of a pending high-priority task and a completed low-priority one, the status filter "pending" keeps the first. */
  lemma StatusFilterExample()
    ensures Filtered([Task(1, "A", "", High, None, Pending), Task(2, "B", "", Low, None, Completed)],
                     Criteria("", None, None, Some(Pending)))
         == [Task(1, "A", "", High, None, Pending)]
  {
    var a, b := Task(1, "A", "", High, None, Pending), Task(2, "B", "", Low, None, Completed);
    var c := Criteria("", None, None, Some(Pending));
    assert Lower("") == [];
    assert Contains(Lower(a.title), Lower(c.search));
    assert SearchFor(c.search)(a) && StatusIs(c.status)(a);
    assert PriorityIs(c.priority)(a) && DueDateIs(c.dueDate)(a);
    assert Matches(c)(a);
    assert !StatusIs(c.status)(b);
    assert !Matches(c)(b);
    assert [a, b][1..] == [b];
  }
}
