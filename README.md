# Task list store: a verified Dafny model

This project models the task-list store inside `script.js` of a client-side to-do
page. The store is the module-level `tasks` list, the sort mode `currentSort` and the
`isDarkMode` flag, together with the handlers that change or read them:

- `addTask` trims the form's title and description and ignores a blank title.
  Otherwise it appends a pending task and saves.
- `deleteTask` keeps the tasks whose id differs and saves.
- `toggleComplete` flips the status of the first task with the id. It saves only when
  such a task exists.
- `sortTasks` sorts the list in place with the comparator of the current mode.
  `toggleSort` switches the mode and re-sorts, without saving.
- `toggleDarkMode` flips the flag and saves.
- `filterTasks` computes the filtered view.
- `updateStats` computes the counters and the progress percentage.

Modules, one per component:

- `Wrappers` (`wrappers.dfy`): `Option`.
- `Seqs` (`seqs.dfy`): `Filter`, the model of `Array.prototype.filter`, with its
  order-preserving and counting properties.
- `Text` (`text.dfy`): `trim`, with ECMAScript's full white-space set; ASCII
  `toLowerCase`; substring search (`includes`).
- `TaskModel` (`task.dfy`): the `Task` record, priority ranks, status flip, ids.
- `Sorting` (`sorting.dfy`): the comparator and a stable sort. The sort is specified
  as left-to-right insertion (`StableSort`) and performed in place on an array by
  `InsertionSort`. Lemmas prove it is ordered, is a permutation and is stable.
- `Query` (`query.dfy`): the filter predicate and the filtered view.
- `Statistics` (`stats.dfy`): the counters and the rounded percentage.
- `Store` (`store.dfy`): pure functions giving each handler's new list
  (`Added`, `Removed`, `StatusToggled`), their lemmas, and the `TaskStore` class.
  The class holds `tasks`, `currentSort` and `isDarkMode`, plus two ghost fields
  recording what `saveTasks` last wrote.

Stability is stated as follows. For every task `x`, take the tasks that compare equal
to `x`. They appear in the same relative order before and after the sort. In priority
mode these are the tasks of one priority. In due-date mode they are the tasks due on
one day, or all the undated tasks.

Behaviour of the code worth noting, which the model follows:

- `deleteTask` removes every task with the id, not just one.
- `toggleComplete` flips only the first task with the id.
- Ids come from the clock and are never checked for uniqueness. The model therefore
  proves uniqueness preserved only when the new id is fresh.
- `addTask` appends without re-sorting.
- The description is trimmed as well as the title.
- `toggleSort` re-sorts but does not save.

## Model

| member | source | states |
|---|---|---|
| `Seqs.Filter` | script.js:126 | the kept elements satisfy the predicate and are no more than the input |
| `Seqs.FilterIsSubsequence` | script.js:154-160 | a filter keeps the order of what it keeps |
| `Seqs.FilterMultiset` | script.js:154-160 | a filter keeps every occurrence of a satisfying element and nothing else |
| `Seqs.FilterSplitsLength` | script.js:26-27 | each element is counted by exactly one of a filter and its complement |
| `Text.IsSpace` | script.js:94-95 | among ASCII characters exactly tab, line feed, vertical tab, form feed, carriage return and space are white space; `TrimIsSlice` shows trim strips exactly the characters it accepts, from both ends |
| `Text.TrimStart` | script.js:94-95 | result is a suffix preceded only by white space and not starting with white space |
| `Text.TrimEnd` | script.js:94-95 | result is a prefix followed only by white space and not ending with white space |
| `Text.Trim` | script.js:94-95 | result has no white space at either end |
| `Text.TrimIsSlice` | script.js:94-95 | the trimmed string is a contiguous slice with only white space around it |
| `Text.TrimEmptyIffBlank` | script.js:94-98 | the trimmed title is empty exactly when every character is white space |
| `Text.TrimFixesTrimmed` | script.js:94-95 | trim leaves a string unchanged exactly when it has no white space at either end |
| `Text.TrimIdempotent` | script.js:94-95 | trimming yields a trimmed string; trimming twice equals trimming once |
| `Text.Lower` | script.js:149 | result has the input's length and no upper-case ASCII letter |
| `Text.LowerIdempotent` | script.js:149-155 | lower-casing twice equals lower-casing once |
| `Text.Contains` | script.js:155 | a found needle is no longer than the text; the empty needle and every suffix are found; `ContainsIff` characterises it completely |
| `Text.ContainsIff` | script.js:155 | `includes` holds exactly when the needle occurs at some position |
| `TaskModel.Rank` | script.js:38 | ranks lie in 1..3, 3 exactly for high, 1 exactly for low |
| `TaskModel.Flip` | script.js:142 | the new status differs from the old |
| `TaskModel.FlipTwice` | script.js:142 | flipping twice restores the status |
| `TaskModel.AppendKeepsIdsUnique` | script.js:107 | pushing a task with a new id keeps ids unique |
| `TaskModel.PermutationKeepsIds` | script.js:39 | a permutation carries the same ids |
| `Sorting.NextMode` | script.js:133 | the toggled mode differs from the old one |
| `Sorting.Compare` | script.js:39-49 | by priority: tie exactly on equal priority, high before medium before low; by due date: tie exactly on equal dates, a dated task before an undated one, the earlier date first; `CompareIsConsistent` shows it is a consistent comparator |
| `Sorting.NotBothTied` | script.js:39-49 | two tasks in strict comparator order never both tie with a third |
| `Sorting.CompareIsConsistent` | script.js:39-49 | the comparator is consistent: self-tie, sign flips on swap, "not after" and "tied" transitive |
| `Sorting.Insert` | script.js:39 | insertion adds exactly one element |
| `Sorting.StableSort` | script.js:39 | the sort keeps the length |
| `Sorting.InsertMultiset` | script.js:39 | insertion adds exactly the inserted task |
| `Sorting.SortIsPermutation` | script.js:39 | the sorted list is a permutation of the list |
| `Sorting.InsertOrdered` | script.js:39-49 | insertion into an ordered list keeps it ordered |
| `Sorting.SortIsOrdered` | script.js:39-49 | every task is in comparator order with every later task |
| `Sorting.InsertTied` | script.js:39 | insertion puts the new task after every task it ties with |
| `Sorting.SortIsStable` | script.js:39-49 | for every task, the tasks tied with it keep their relative order |
| `Sorting.InsertKeepsIdsUnique` | script.js:39 | inserting a task with a new id keeps ids unique |
| `Sorting.SortKeepsIds` | script.js:39 | sorting keeps the set of ids, and their uniqueness |
| `Sorting.PrioritySort` | script.js:38-41 | priority sort: a permutation with rank non-increasing (high, medium, low) |
| `Sorting.SamePriorityKeepOrder` | script.js:38-41 | priority sort keeps the tasks of each priority in their prior order |
| `Sorting.DueDateSort` | script.js:42-46 | due-date sort: permutation, dated tasks before undated, dates non-decreasing |
| `Sorting.UndatedKeepOrder` | script.js:43 | due-date sort keeps the undated tasks in their prior order |
| `Sorting.SameDayKeepOrder` | script.js:46 | due-date sort keeps the tasks due on one day in their prior order |
| `Sorting.InsertAt` | script.js:39 | shifting the later-comparing tasks right and storing the task inserts it into the sorted prefix |
| `Sorting.InsertionSort` | script.js:39 | the array ends up holding the stable sort of its old contents |
| `Query.SearchFor` | script.js:149-155 | an empty search text selects every task; a selected task has a title or description at least as long as the search text |
| `Query.PriorityIs` | script.js:156 | an empty priority menu selects every task; a set one selects exactly the tasks of that priority |
| `Query.DueDateIs` | script.js:157 | an empty date input selects every task; a set one selects exactly the tasks due that day |
| `Query.StatusIs` | script.js:158 | an empty status menu selects every task; a set one selects exactly the tasks with that status |
| `Query.Matches` | script.js:154-159 | all inputs empty: every task matches; a matching task passes the priority and status tests; `FilteredIsMatchingSubsequence` characterises the view it selects |
| `Query.Filtered` | script.js:154-160 | every task of the view passes all four tests |
| `Query.FilteredIsMatchingSubsequence` | script.js:154-160 | the view is the in-order subsequence of exactly the matching tasks |
| `Query.NoCriteriaKeepsAll` | script.js:149-160 | empty search and empty menus give the whole list in order |
| `Query.FilteredIsSuccessiveFilters` | script.js:155-159 | the conjunction equals applying the four tests one after another |
| `Query.SearchIgnoresCase` | script.js:149-155 | searching for the lower-cased text selects the same tasks |
| `Query.FilteredIdempotent` | script.js:154-160 | filtering the view again with the same inputs changes nothing |
| `Query.StatusFilterExample` | script.js:158 | status "pending" keeps the pending task and drops the completed one |
| `Statistics.Progress` | script.js:32 | 0 for an empty list, otherwise the nearest integer to 100*completed/total, halves up |
| `Statistics.ComputeStats` | script.js:25-32 | total is the length; completed and pending count their tasks and add up to total |
| `Statistics.ProgressBounds` | script.js:32 | percentage in [0, 100]; 0 with nothing completed; 100 with everything completed |
| `Statistics.ProgressExtremesExact` | script.js:32 | below 200 tasks 100% means all completed; up to 200 tasks 0% means none completed |
| `Statistics.ProgressRoundsAtLargeTotals` | script.js:32 | 200 of 201 shows 100%, 1 of 201 shows 0% |
| `Statistics.ProgressExamples` | script.js:25-32 | 1 of 4 is 25%; an empty list is 0% |
| `Store.NewTask` | script.js:99-106 | the built task carries the new id, is pending, has a non-empty title and the form's priority and due date |
| `Store.Added` | script.js:93-107 | the old list stays as a prefix and at most one task is appended, pending, with the new id and a non-empty title; `AddSpec` characterises it completely |
| `Store.AddSpec` | script.js:93-107 | blank title: list unchanged; else exactly one well-formed pending task appended with the form's fields |
| `Store.AddKeepsIdsUnique` | script.js:99-107 | adding with a fresh id keeps ids unique |
| `Store.NewTaskWellFormed` | script.js:94-106 | the task built from a non-blank title has a non-empty trimmed title and a trimmed description |
| `Store.AddKeepsWellFormed` | script.js:94-107 | adding keeps every task's title non-empty and trimmed |
| `Store.Removed` | script.js:126 | no longer than the old list and holding no task with the id; unchanged when no task has the id; `RemoveSpec` characterises it completely |
| `Store.RemoveSpec` | script.js:126 | deleting keeps in order every task with a different id and none with the id |
| `Store.RemoveNoOpIffAbsent` | script.js:126 | deleting changes the list exactly when the id is present |
| `Store.RemoveUniqueShrinksByOne` | script.js:126 | with unique ids, deleting a present id removes exactly one task |
| `Store.RemoveKeepsIdsUnique` | script.js:126 | deleting keeps ids unique |
| `Store.RemoveKeepsWellFormed` | script.js:126 | deleting keeps every task well formed |
| `Store.RemoveUndoesAdd` | script.js:93-130 | deleting the id just added with a fresh id restores the list |
| `Store.FindIndex` | script.js:140 | finds the first position with the id, or reports that none has it |
| `Store.FindIndexIffPresent` | script.js:140-141 | a task is found exactly when the id is present |
| `Store.StatusToggled` | script.js:139-145 | same length; tasks with other ids unchanged; every id, title and description in place; `ToggleSpec` characterises it completely |
| `Store.ToggleSpec` | script.js:139-145 | only the first task with the id changes, and only its status flips; no-op exactly when the id is absent |
| `Store.FindIndexIgnoresStatus` | script.js:140-142 | the lookup depends only on the ids |
| `Store.ToggleTwice` | script.js:139-145 | toggling the same id twice restores the list |
| `Store.ToggleKeepsIdsAndText` | script.js:142 | toggling keeps every id, title and description in place |
| `Store.ToggleKeepsWellFormed` | script.js:142 | toggling keeps every task well formed |
| `Store.ToggleKeepsIdsUnique` | script.js:142 | toggling keeps ids unique |
| `Store.SortKeepsWellFormed` | script.js:39 | sorting keeps every task well formed |
| `Store.TaskStore.constructor` | script.js:1-3 | starts empty, priority mode, light mode |
| `Store.TaskStore.Save` | script.js:19-22 | the saved snapshot equals the list and the flag |
| `Store.TaskStore.AddTask` | script.js:93-109 | list becomes `Added(old list)`; saves exactly when the title is not blank; fresh id keeps ids unique |
| `Store.TaskStore.DeleteTask` | script.js:122-130 | list becomes `Removed(old list)`; saves; ids stay unique |
| `Store.TaskStore.ToggleComplete` | script.js:139-146 | list becomes `StatusToggled(old list)`; saves exactly when the id is present |
| `Store.TaskStore.SortTasks` | script.js:37-50 | list becomes the stable sort of the old list in the current mode; nothing saved |
| `Store.TaskStore.ToggleSort` | script.js:132-137 | mode switches; list re-sorted in the new mode; nothing saved |
| `Store.TaskStore.ToggleDarkMode` | script.js:52-57 | flag flips; list and flag saved |
| `Store.TaskStore.FilterTasks` | script.js:148-161 | view is the in-order subsequence of exactly the matching tasks; list untouched |
| `Store.TaskStore.UpdateStats` | script.js:24-32 | counts of the list; pending plus completed is total; the percentage is `Progress(completed, total)`, the completed share rounded to the nearest whole percent, in [0, 100], 0 when empty, 100 when all completed |

## Left out

- Rendering: `renderTasks`, the page writes in `updateStats` and `toggleDarkMode`,
  button labels and the form clearing. They are presentation only.
- Persistence: `localStorage`, JSON, and `loadTasks` (including the `sortTasks` it
  calls at startup) are browser I/O. Only the snapshot written by `saveTasks` is
  kept, as ghost state.
- Timers: the staggered animation is cosmetic. The 300 ms delay before a delete is
  modelled as immediate removal.
- The `confirm` dialog and the `querySelector` lookup of the element to fade out are
  UI only.
- Event wiring and the startup calls.
- `Date.now()`: the id is a parameter of `AddTask`.
- Dates are day numbers. The source parses ISO strings with `new Date` and takes a
  millisecond difference, which has the same sign. The due-date filter compares
  ISO strings exactly; the model compares day numbers exactly.
- The comparator's final `return 0` for an unknown sort mode cannot be reached:
  the mode is a two-valued datatype.
- `Text.Lower`: folds only the ASCII letters, because `toLowerCase` applies Unicode
  case mapping, which is not modelled.
- `Text.Contains`: works on Unicode scalar values, while JavaScript strings are
  UTF-16 code units. The two agree on the Basic Multilingual Plane.
- `Statistics.Progress`: exact round-half-up of 100·completed/total. The source
  computes `completed / total * 100` in binary floating point, so at an exact
  half-point the stored quotient can fall just below it and round down. For
  example, 57 of 200 is 28.5% exactly, but 0.285 is stored slightly low.
- Stored tasks are only those built by `AddTask`, since nothing is loaded, so
  `Valid` (titles non-empty, titles and descriptions trimmed) holds from the
  constructor on. Malformed stored data is not modelled.
