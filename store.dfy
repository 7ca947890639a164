/**
 * The task store: the module-level `tasks` list, `currentSort` and `isDarkMode`, and
 * the handlers that change them. Each handler's effect on the list is given by a
 * function of the old list (`Added`, `Removed`, `StatusToggled`, `StableSort`), whose
 * properties are proved as lemmas; the `TaskStore` class performs the updates.
 */
module Store {
  import opened Wrappers
  import opened Seqs
  import opened Text
  import opened TaskModel
  import opened Sorting
  import opened Query
  import opened Statistics

  /** The add-task form as read: title, description, priority menu and due-date input. */
  datatype Draft = Draft(title: string, desc: string, priority: Priority, dueDate: Option<Date>)

  /** The task `addTask` builds from a form whose title is not blank. */
  function NewTask(id: int, f: Draft): (t: Task)
    requires Trim(f.title) != []
    ensures t.id == id && t.status == Pending && t.title != []
    ensures t.priority == f.priority && t.dueDate == f.dueDate
  {
    Task(id, Trim(f.title), Trim(f.desc), f.priority, f.dueDate, Pending)
  }

  /** The list after `addTask` with id `id`: unchanged for a blank title, else one task appended. */
  function Added(s: seq<Task>, id: int, f: Draft): (r: seq<Task>)
    ensures |s| <= |r| <= |s| + 1 && r[..|s|] == s
    ensures forall i :: |s| <= i < |r| ==> r[i].id == id && r[i].status == Pending && r[i].title != []
  {
    if Trim(f.title) == [] then s else s + [NewTask(id, f)]
  }

  /**
   * A title that is blank leaves the list as it was. Any other title appends exactly
   * one task, last, leaving the earlier tasks in place: it is pending, carries the
   * id, the trimmed title and description and the chosen priority and date, and is
   * well formed.
   */
  lemma AddSpec(s: seq<Task>, id: int, f: Draft)
    ensures IsBlank(f.title) ==> Added(s, id, f) == s
    ensures !IsBlank(f.title) ==>
      var r := Added(s, id, f);
      && |r| == |s| + 1
      && r[..|s|] == s
      && r[|s|].id == id && r[|s|].status == Pending
      && r[|s|].title == Trim(f.title) && r[|s|].desc == Trim(f.desc)
      && r[|s|].priority == f.priority && r[|s|].dueDate == f.dueDate
      && WellFormed(r[|s|])
  {
    TrimEmptyIffBlank(f.title);
    TrimIdempotent(f.title);
    TrimIdempotent(f.desc);
    if !IsBlank(f.title) {
      assert (s + [Added(s, id, f)[|s|]])[..|s|] == s;
    }
  }

  /** Adding with an id not already in use keeps the ids unique. */
  lemma AddKeepsIdsUnique(s: seq<Task>, id: int, f: Draft)
    requires IdsUnique(s) && id !in Ids(s)
    ensures IdsUnique(Added(s, id, f))
  {
    if Trim(f.title) != [] {
      AppendKeepsIdsUnique(s, NewTask(id, f));
    }
  }

  /** The list after `deleteTask(id)`: the tasks whose id differs. */
  function Removed(s: seq<Task>, id: int): (r: seq<Task>)
    ensures |r| <= |s|
    ensures forall i :: 0 <= i < |r| ==> r[i].id != id
    ensures (forall i :: 0 <= i < |s| ==> s[i].id != id) ==> r == s
  {
    if forall i :: 0 <= i < |s| ==> s[i].id != id then
      FilterKeepsAll(s, IdIsNot(id));
      Filter(s, IdIsNot(id))
    else
      Filter(s, IdIsNot(id))
  }

  /**
   * Deleting keeps, in their original order, every task whose id differs (as often
   * as it occurs) and no task with the id.
   */
  lemma RemoveSpec(s: seq<Task>, id: int)
    ensures IsSubsequence(Removed(s, id), s)
    ensures forall t :: multiset(Removed(s, id))[t] == if t.id != id then multiset(s)[t] else 0
    ensures id !in Ids(Removed(s, id))
  {
    FilterIsSubsequence(s, IdIsNot(id));
    FilterMultiset(s, IdIsNot(id));
  }

  /** Deleting changes the list exactly when some task has the id. */
  lemma RemoveNoOpIffAbsent(s: seq<Task>, id: int)
    ensures Removed(s, id) == s <==> id !in Ids(s)
  {
    if id in Ids(s) {
      var t :| t in s && t.id == id;
      var k :| 0 <= k < |s| && s[k] == t;
      FilterDrops(s, IdIsNot(id), k);
    } else {
      forall i | 0 <= i < |s|
        ensures IdIsNot(id)(s[i])
      {
        assert s[i] in s;
      }
      FilterKeepsAll(s, IdIsNot(id));
    }
  }

  /** With unique ids, deleting a present id removes exactly one task. */
  lemma {:induction false} RemoveUniqueShrinksByOne(s: seq<Task>, id: int)
    requires IdsUnique(s) && id in Ids(s)
    ensures |Removed(s, id)| == |s| - 1
    decreases |s|
  {
    assert s == [s[0]] + s[1..];
    if s[0].id == id {
      forall i | 0 <= i < |s[1..]|
        ensures IdIsNot(id)(s[1..][i])
      {
        assert s[i + 1].id != s[0].id;
      }
      FilterKeepsAll(s[1..], IdIsNot(id));
    } else {
      var t :| t in s && t.id == id;
      assert t in s[1..];
      RemoveUniqueShrinksByOne(s[1..], id);
    }
  }

  /** Deleting keeps the ids unique. */
  lemma {:induction false} RemoveKeepsIdsUnique(s: seq<Task>, id: int)
    requires IdsUnique(s)
    ensures IdsUnique(Removed(s, id))
    decreases |s|
  {
    if s != [] {
      var rest := s[1..];
      assert IdsUnique(rest);
      RemoveKeepsIdsUnique(rest, id);
      if s[0].id != id {
        var r := Removed(rest, id);
        FilterMultiset(rest, IdIsNot(id));
        forall j | 0 <= j < |r|
          ensures r[j].id != s[0].id
        {
          assert r[j] in multiset(r);
          var k :| 0 <= k < |rest| && rest[k] == r[j];
          assert s[k + 1] == r[j];
        }
        assert Removed(s, id) == [s[0]] + r;
      }
    }
  }

  /** Deleting an id just added with a fresh id restores the list. */
  lemma RemoveUndoesAdd(s: seq<Task>, id: int, f: Draft)
    requires id !in Ids(s)
    ensures Removed(Added(s, id, f), id) == s
  {
    RemoveNoOpIffAbsent(s, id);
    if Trim(f.title) != [] {
      var t := NewTask(id, f);
      FilterAppend(s, [t], IdIsNot(id));
    }
  }

  /** `tasks.find(t => t.id === id)`, as a position: the first task with the id. */
  function FindIndex(s: seq<Task>, id: int): (r: Option<nat>)
    ensures r.None? ==> forall i :: 0 <= i < |s| ==> s[i].id != id
    ensures r.Some? ==> r.value < |s| && s[r.value].id == id
    ensures r.Some? ==> forall i :: 0 <= i < r.value ==> s[i].id != id
    decreases |s|
  {
    if s == [] then None
    else if s[0].id == id then Some(0)
    else match FindIndex(s[1..], id)
      case None => None
      case Some(k) => Some(k + 1)
  }

  /** The list after `toggleComplete(id)`: the first task with the id has its status flipped. */
  function StatusToggled(s: seq<Task>, id: int): (r: seq<Task>)
    ensures |r| == |s|
    ensures forall i :: 0 <= i < |s| && s[i].id != id ==> r[i] == s[i]
    ensures forall i :: 0 <= i < |s| ==>
      r[i].id == s[i].id && r[i].title == s[i].title && r[i].desc == s[i].desc
  {
    match FindIndex(s, id)
    case None => s
    case Some(k) => s[k := s[k].(status := Flip(s[k].status))]
  }

  /** `k` is the first position that holds a task with the id. */
  predicate IsFirstWithId(s: seq<Task>, id: int, k: int)
  {
    0 <= k < |s| && s[k].id == id && forall j :: 0 <= j < k ==> s[j].id != id
  }

  /**
   * Toggling flips the status of the first task with the id and changes nothing
   * else; it leaves the list as it was exactly when no task has the id.
   */
  lemma ToggleSpec(s: seq<Task>, id: int)
    ensures |StatusToggled(s, id)| == |s|
    ensures forall i :: 0 <= i < |s| ==>
      StatusToggled(s, id)[i] == if IsFirstWithId(s, id, i) then s[i].(status := Flip(s[i].status)) else s[i]
    ensures StatusToggled(s, id) == s <==> forall i :: 0 <= i < |s| ==> s[i].id != id
  {
    match FindIndex(s, id)
    case None =>
    case Some(k) =>
      forall i | 0 <= i < |s| && i != k
        ensures !IsFirstWithId(s, id, i)
      {
        if i > k {
          assert s[k].id == id;
        }
      }
      assert StatusToggled(s, id)[k] != s[k];
  }

  /** Positions keep their ids under toggling, so the first task with an id stays first. */
  lemma {:induction false} FindIndexIgnoresStatus(s: seq<Task>, r: seq<Task>, id: int)
    requires |r| == |s| && forall i :: 0 <= i < |s| ==> r[i].id == s[i].id
    ensures FindIndex(r, id) == FindIndex(s, id)
    decreases |s|
  {
    if s != [] {
      FindIndexIgnoresStatus(s[1..], r[1..], id);
    }
  }

  /** Toggling the same id twice restores the list. */
  lemma ToggleTwice(s: seq<Task>, id: int)
    ensures StatusToggled(StatusToggled(s, id), id) == s
  {
    var r := StatusToggled(s, id);
    FindIndexIgnoresStatus(s, r, id);
    match FindIndex(s, id)
    case None =>
    case Some(k) =>
      FlipTwice(s[k].status);
      assert r[k := r[k].(status := Flip(r[k].status))] == s;
  }

  /** Toggling keeps every id in place, and every title and description. */
  lemma ToggleKeepsIdsAndText(s: seq<Task>, id: int)
    ensures |StatusToggled(s, id)| == |s|
    ensures forall i :: 0 <= i < |s| ==>
      && StatusToggled(s, id)[i].id == s[i].id
      && StatusToggled(s, id)[i].title == s[i].title
      && StatusToggled(s, id)[i].desc == s[i].desc
  {
  }

  /** Every task of the list is well formed. */
  ghost predicate AllWellFormed(s: seq<Task>)
  {
    forall i :: 0 <= i < |s| ==> WellFormed(s[i])
  }

  /** The task `addTask` builds from a non-blank title is well formed. */
  lemma NewTaskWellFormed(id: int, f: Draft)
    requires Trim(f.title) != []
    ensures WellFormed(NewTask(id, f))
  {
    TrimIdempotent(f.title);
    TrimIdempotent(f.desc);
  }

  /** Appending a well-formed task keeps every task well formed. */
  lemma AppendKeepsWellFormed(s: seq<Task>, t: Task)
    requires AllWellFormed(s) && WellFormed(t)
    ensures AllWellFormed(s + [t])
  {
    var r := s + [t];
    forall i | 0 <= i < |r|
      ensures WellFormed(r[i])
    {
      if i < |s| {
        assert r[i] == s[i];
      }
    }
  }

  /** Adding keeps every task well formed. */
  lemma AddKeepsWellFormed(s: seq<Task>, id: int, f: Draft)
    requires AllWellFormed(s)
    ensures AllWellFormed(Added(s, id, f))
  {
    if Trim(f.title) != [] {
      NewTaskWellFormed(id, f);
      AppendKeepsWellFormed(s, NewTask(id, f));
    }
  }

  /** Deleting keeps every task well formed. */
  lemma RemoveKeepsWellFormed(s: seq<Task>, id: int)
    requires AllWellFormed(s)
    ensures AllWellFormed(Removed(s, id))
  {
    var r := Removed(s, id);
    FilterMultiset(s, IdIsNot(id));
    forall i | 0 <= i < |r|
      ensures WellFormed(r[i])
    {
      assert r[i] in multiset(r);
      var k :| 0 <= k < |s| && s[k] == r[i];
    }
  }

  /** Toggling keeps every task well formed. */
  lemma ToggleKeepsWellFormed(s: seq<Task>, id: int)
    requires AllWellFormed(s)
    ensures AllWellFormed(StatusToggled(s, id))
  {
    ToggleKeepsIdsAndText(s, id);
  }

  /** Toggling keeps the ids unique. */
  lemma ToggleKeepsIdsUnique(s: seq<Task>, id: int)
    requires IdsUnique(s)
    ensures IdsUnique(StatusToggled(s, id))
  {
    ToggleKeepsIdsAndText(s, id);
  }

  /** Sorting keeps every task well formed. */
  lemma SortKeepsWellFormed(m: SortMode, s: seq<Task>)
    requires AllWellFormed(s)
    ensures AllWellFormed(StableSort(m, s))
  {
    var r := StableSort(m, s);
    SortIsPermutation(m, s);
    forall i | 0 <= i < |r|
      ensures WellFormed(r[i])
    {
      assert r[i] in multiset(r);
      var k :| 0 <= k < |s| && s[k] == r[i];
    }
  }

  /** Some task of the list has the id exactly when `FindIndex` finds one. */
  lemma FindIndexIffPresent(s: seq<Task>, id: int)
    ensures FindIndex(s, id).Some? <==> id in Ids(s)
  {
    match FindIndex(s, id)
    case Some(k) =>
      assert s[k] in s;
    case None =>
      forall t | t in s
        ensures t.id != id
      {
        var k :| 0 <= k < |s| && s[k] == t;
      }
  }

  /** The page's state: what script.js keeps in its three module-level variables. */
  class TaskStore {
    var tasks: seq<Task>
    var currentSort: SortMode
    var isDarkMode: bool
    /** What `saveTasks` last wrote under the storage keys `tasks` and `darkMode`. */
    ghost var savedTasks: seq<Task>
    ghost var savedDarkMode: bool

    /** Every stored task is well formed, as `addTask` builds them. */
    ghost predicate Valid()
      reads this
    {
      AllWellFormed(tasks)
    }

    /** The initial values: no tasks, priority sort, light mode, nothing saved. */
    constructor ()
      ensures Valid()
      ensures tasks == [] && currentSort == ByPriority && !isDarkMode
      ensures savedTasks == [] && !savedDarkMode
    {
      tasks := [];
      currentSort := ByPriority;
      isDarkMode := false;
      savedTasks := [];
      savedDarkMode := false;
    }

    /** `saveTasks`: write the list and the flag through to storage. */
    ghost method Save()
      modifies this`savedTasks, this`savedDarkMode
      ensures savedTasks == tasks && savedDarkMode == isDarkMode
    {
      savedTasks := tasks;
      savedDarkMode := isDarkMode;
    }

    /**
     * `addTask`, with the id `Date.now()` would give passed in: trims the title and
     * description, ignores a blank title, otherwise appends a pending task and saves.
     * The list is not re-sorted.
     */
    method AddTask(id: int, form: Draft) returns (added: bool)
      requires Valid()
      modifies this
      ensures Valid()
      ensures added <==> !IsBlank(form.title)
      ensures tasks == Added(old(tasks), id, form)
      ensures currentSort == old(currentSort) && isDarkMode == old(isDarkMode)
      ensures added ==> savedTasks == tasks && savedDarkMode == isDarkMode
      ensures !added ==> savedTasks == old(savedTasks) && savedDarkMode == old(savedDarkMode)
      ensures IdsUnique(old(tasks)) && id !in Ids(old(tasks)) ==> IdsUnique(tasks)
    {
      TrimEmptyIffBlank(form.title);
      AddKeepsWellFormed(tasks, id, form);
      if IdsUnique(tasks) && id !in Ids(tasks) {
        AddKeepsIdsUnique(tasks, id, form);
      }
      if Trim(form.title) == [] {
        added := false;
        return;
      }
      tasks := tasks + [NewTask(id, form)];
      Save();
      added := true;
    }

    /** `deleteTask`, with the removal immediate: keeps the tasks whose id differs, and saves. */
    method DeleteTask(id: int)
      requires Valid()
      modifies this
      ensures Valid()
      ensures tasks == Removed(old(tasks), id)
      ensures currentSort == old(currentSort) && isDarkMode == old(isDarkMode)
      ensures savedTasks == tasks && savedDarkMode == isDarkMode
      ensures IdsUnique(old(tasks)) ==> IdsUnique(tasks)
    {
      RemoveKeepsWellFormed(tasks, id);
      if IdsUnique(tasks) {
        RemoveKeepsIdsUnique(tasks, id);
      }
      tasks := Filter(tasks, IdIsNot(id));
      Save();
    }

    /**
     * `toggleComplete`: flips the status of the first task with the id and saves;
     * does nothing, not even save, when no task has the id.
     */
    method ToggleComplete(id: int)
      requires Valid()
      modifies this
      ensures Valid()
      ensures tasks == StatusToggled(old(tasks), id)
      ensures currentSort == old(currentSort) && isDarkMode == old(isDarkMode)
      ensures id in Ids(old(tasks)) ==> savedTasks == tasks && savedDarkMode == isDarkMode
      ensures id !in Ids(old(tasks)) ==> savedTasks == old(savedTasks) && savedDarkMode == old(savedDarkMode)
      ensures IdsUnique(old(tasks)) ==> IdsUnique(tasks)
    {
      FindIndexIffPresent(tasks, id);
      ToggleKeepsWellFormed(tasks, id);
      if IdsUnique(tasks) {
        ToggleKeepsIdsUnique(tasks, id);
      }
      var found := FindIndex(tasks, id);
      if found.Some? {
        var k := found.value;
        tasks := tasks[k := tasks[k].(status := Flip(tasks[k].status))];
        Save();
      }
    }

    /** `sortTasks`: sorts the list in place with the comparator of the current mode. */
    method SortTasks()
      requires Valid()
      modifies this
      ensures Valid()
      ensures tasks == StableSort(currentSort, old(tasks))
      ensures currentSort == old(currentSort) && isDarkMode == old(isDarkMode)
      ensures savedTasks == old(savedTasks) && savedDarkMode == old(savedDarkMode)
      ensures IdsUnique(old(tasks)) ==> IdsUnique(tasks)
    {
      SortKeepsWellFormed(currentSort, tasks);
      SortKeepsIds(currentSort, tasks);
      var a := new Task[|tasks|](i requires 0 <= i < |tasks| reads this => tasks[i]);
      assert a[..] == tasks;
      InsertionSort(currentSort, a);
      tasks := a[..];
    }

    /** `toggleSort`: switches between priority and due-date order and re-sorts; nothing is saved. */
    method ToggleSort()
      requires Valid()
      modifies this
      ensures Valid()
      ensures currentSort == NextMode(old(currentSort))
      ensures tasks == StableSort(currentSort, old(tasks))
      ensures isDarkMode == old(isDarkMode)
      ensures savedTasks == old(savedTasks) && savedDarkMode == old(savedDarkMode)
      ensures IdsUnique(old(tasks)) ==> IdsUnique(tasks)
    {
      currentSort := NextMode(currentSort);
      SortTasks();
    }

    /** `toggleDarkMode`: flips the flag and saves. */
    method ToggleDarkMode()
      requires Valid()
      modifies this
      ensures Valid()
      ensures isDarkMode == !old(isDarkMode)
      ensures tasks == old(tasks) && currentSort == old(currentSort)
      ensures savedTasks == tasks && savedDarkMode == isDarkMode
    {
      isDarkMode := !isDarkMode;
      Save();
    }

    /**
     * `filterTasks`: the view of the list the four inputs select, in list order,
     * holding every matching task and nothing else. The list itself is not changed.
     */
    method FilterTasks(c: Criteria) returns (view: seq<Task>)
      ensures IsSubsequence(view, tasks)
      ensures forall i :: 0 <= i < |view| ==> Matches(c)(view[i])
      ensures forall t :: multiset(view)[t] == if Matches(c)(t) then multiset(tasks)[t] else 0
    {
      view := Filter(tasks, Matches(c));
      FilteredIsMatchingSubsequence(tasks, c);
    }

    /**
     * `updateStats`, without the page writes: the counters of the current list. Pending
     * and completed add up to the total; the percentage is the completed share
     * rounded to the nearest whole percent, halves up: at most 100, 0 for an empty
     * list and 100 when every task is completed.
     */
    method UpdateStats() returns (st: Stats)
      ensures st.total == |tasks|
      ensures st.completed == |Filter(tasks, IsCompleted())|
      ensures st.pending == |Filter(tasks, IsPending())|
      ensures st.pending + st.completed == st.total
      ensures st.progress == Progress(st.completed, st.total)
      ensures st.total > 0 ==>
        2 * st.total * st.progress <= 200 * st.completed + st.total < 2 * st.total * (st.progress + 1)
      ensures st.progress <= 100
      ensures st.total == 0 ==> st.progress == 0
      ensures 0 < st.total == st.completed ==> st.progress == 100
    {
      st := ComputeStats(tasks);
      ProgressBounds(st.completed, st.total);
    }
  }
}
