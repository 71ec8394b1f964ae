# Task list engine, in Dafny

This project models the task-list engine of the portfolio page `app/page.tsx`: the
list of tasks the page keeps, the three handlers that change it (add, tick off,
delete), and the view computed from it (the filtered, sorted list and the
statistics and progress bar above it).

- `text.dfy`, module `Text`: the three JavaScript string built-ins the engine uses.
  - `trim`, with the ECMAScript white-space and line-terminator set.
  - `toLowerCase`, ASCII letters only.
  - `includes`.
- `sequences.dfy`, module `Sequences`: generic `Array.prototype.filter` and a stable
  sort by an integer rank. The sort is an insertion sort. `SortedWithSameTiesUnique`
  shows that any sort that is ordered by the key and keeps ties in input order
  gives the same list. So the choice of sorting algorithm does not matter;
  `Array.prototype.sort` is stable.
- `tasks.dfy`, module `Tasks`: the `Task` record, the three priorities, and the
  `categories` and `colorClasses` tables.
- `taskstore.dfy`, module `TaskStore`: the page state the handlers change, as the
  class `Store`.
  - `tasks` is the task list.
  - `newTask`, `dueDate` and `notes` are the add form's drafts.
  - `selectedCategory` and `selectedPriority` are the add form's pickers.

  `AddTask`, `ToggleTask` and `DeleteTask` are its methods. Each is proved against a
  pure function (`CreateTask`, `Toggle`, `Delete`). Lemmas about those functions
  give three invariants: every task is well formed, ids are unique, and tasks are
  in creation order.
  - Toggle and delete keep all three.
  - Add keeps well-formedness, because its guard admits only a non-blank draft.
  - Add keeps unique ids only when the new id is fresh. The code draws it from
    `Date.now()` and never checks it.
  - Add keeps creation order only when `now` is later than every earlier
    `createdAt`.
  - The constructor accepts any saved list, so the invariants hold from the start
    only if the saved list satisfies them.
- `projector.dfy`, module `ViewProjector`: the read-only side of the page.
  - `FilteredTasks` is the search, category and completed filter.
  - `SortTasks` sorts by priority, due date or creation time, ascending or
    descending.
  - `Visible` is the sorted, filtered list.
  - `GetTaskStats` and `Progress` compute the statistics and the percentage.
  - Lemmas relate the statistics to the handlers.
  - `AddThenComplete` and `BuyMilkThroughStore` are small clients of the store.

Clock readings (`Date.now()` for the id, `new Date()` for the time stamps) are
parameters: `id` and `now`. Instants are milliseconds since the epoch, so
`createdAt` and `lastModified` are `int`s. A due date keeps the string the date
picker produced. The sort turns it into a number through a `dateTime` parameter
that stands for `new Date(d).getTime()`.

The category filter and the add form share one piece of page state,
`selectedCategory`. The model passes it to the view as `ViewFilter.selectedCategory`.

Progress is 100 only for a non-empty list in which every task is completed.
For an empty list the code gives 0, although every task is then trivially
completed. `Progress` states both cases.

"desc" lists exactly the reverse of "asc" only when no two tasks share the key.
Tasks whose keys tie keep their list order in both directions, because the sort
is stable. `DescReversesAsc` therefore requires distinct keys. For the general
case, `SortTasks` states that the order is by decreasing key and
`SortTasksIsTheStableSort` states how ties are placed.

## Model

| member | source | states |
|---|---|---|
| Text.TrimStartSpec | app/page.tsx:143 | `trim` drops exactly a leading run of white space: what is left is a suffix of the draft that is empty or starts with a non-white-space character |
| Text.TrimEndSpec | app/page.tsx:143 | `trim` drops exactly a trailing run of white space: what is left is a prefix that is empty or ends with a non-white-space character |
| Text.Trim | app/page.tsx:143 | the trimmed draft is the slice of the draft left after removing white space only from its two ends, and neither end of it is white space |
| Text.BlankIffAllWhiteSpace | app/page.tsx:143 | the add guard rejects a draft exactly when every character of it is white space (the empty draft included) |
| Text.TrimIdempotent | app/page.tsx:143 | trimming a trimmed string changes nothing |
| Text.LowerChar | app/page.tsx:222 | an upper-case ASCII letter becomes its lower-case letter; every other character is left as it is |
| Text.Lower | app/page.tsx:222 | lower-casing keeps the length and maps each character on its own |
| Text.LowerIdempotent | app/page.tsx:222 | lower-casing twice is lower-casing once |
| Text.IncludesIff | app/page.tsx:222 | `includes` holds exactly when the query occurs at some position of the text |
| Sequences.FilterMembers | app/page.tsx:221-226 | `filter` keeps exactly the elements that pass the test |
| Sequences.FilterCount | app/page.tsx:221-226 | `filter` keeps every copy of an element that passes the test and no copy of one that fails it |
| Sequences.FilterIsSubseq | app/page.tsx:221-226 | `filter` only drops elements; the survivors keep their relative order |
| Sequences.FilterIdempotent | app/page.tsx:221-226 | filtering twice with one test is filtering once |
| Sequences.FilterKeepsAllIff | app/page.tsx:221-226 | the filter returns the whole list (or a list as long) exactly when every element passes |
| Sequences.FilterEmptyIff | app/page.tsx:229 | the filter returns nothing exactly when no element passes |
| Sequences.FilterConcat | app/page.tsx:229 | filtering a concatenation is concatenating the filtered parts |
| Sequences.FilterLengthOfPermutation | app/page.tsx:229 | how many elements pass does not depend on their order |
| Sequences.Sort | app/page.tsx:204 | the sorted copy is a permutation of the input and is in non-decreasing order of the rank |
| Sequences.SortIsStable | app/page.tsx:204 | elements that tie on the rank keep their input order |
| Sequences.SortedWithSameTiesUnique | app/page.tsx:204 | two lists that are both ordered by the rank and hold the same tie classes in the same order are equal |
| Sequences.StableSortIsSort | app/page.tsx:204 | any list ordered by the rank that keeps ties in input order is the one `Sort` gives |
| Sequences.SortedIsFixed | app/page.tsx:204 | sorting an already ordered list returns it unchanged |
| Sequences.FilterReverse | app/page.tsx:204 | filtering a reversed list is reversing the filtered list |
| Sequences.NegatedRankReverses | app/page.tsx:204 | with distinct ranks, sorting by the negated rank gives the reverse of sorting by the rank |
| Tasks.PriorityRank | app/page.tsx:206 | High ranks 3, Medium 2, Low 1: High alone is the top rank and Low alone the bottom |
| Tasks.FindCategory | app/page.tsx:145 | `find` returns a listed category with the name, or nothing when no category has it |
| Tasks.ColorForIsCategoryColor | app/page.tsx:145 | a listed category gets its own colour; any other name gets `colorClasses[0]`, "bg-red-100" |
| TaskStore.CreateTask | app/page.tsx:144-159 | the new task has the given id and the draft text as typed, and is not completed; its category is "Work" when "All" is selected and the selected one otherwise, and its colour is that category's; due date and notes are absent exactly when their drafts are empty; both time stamps are `now` |
| TaskStore.CreateTaskWellFormed | app/page.tsx:143-159 | a task made from a non-blank draft is well formed: non-blank text, a category other than "All" with its colour, no empty due date or notes, a modification stamp |
| TaskStore.Toggle | app/page.tsx:167-173 | the list keeps its length and order; `completed` flips exactly at the tasks with the id, which get a new modification stamp; nothing else of any task changes |
| TaskStore.ToggleTwiceRestores | app/page.tsx:167-173 | toggling the same id twice restores every completion flag and every field but the stamps |
| TaskStore.ToggleUnknownId | app/page.tsx:167-173 | toggling an id no task has leaves the list as it was |
| TaskStore.Delete | app/page.tsx:175-177 | the result is the tasks without the id, in their original relative order; every copy of a task without the id is kept and no copy of a task with it |
| TaskStore.DeleteUnknownId | app/page.tsx:175-177 | deleting an id no task has leaves the list as it was |
| TaskStore.DeleteRemovesOne | app/page.tsx:175-177 | with unique ids, deleting the id of the task at a position removes exactly that task |
| TaskStore.OperationsKeepUniqueIds | app/page.tsx:142-177 | toggle and delete keep ids unique, and so does adding a task with a fresh id |
| TaskStore.OperationsKeepWellFormed | app/page.tsx:142-177 | toggle and delete keep every task well formed, and so does adding a well-formed task |
| TaskStore.OperationsKeepCreationOrder | app/page.tsx:142-177 | toggle and delete keep the list in creation order, and so does adding a task created after all the others |
| TaskStore.Store.constructor | app/page.tsx:98-115 | the page starts with the saved list, or an empty one; empty drafts; category "All"; priority "Medium" |
| TaskStore.Store.AddTask | app/page.tsx:142-165 | a blank draft changes nothing; otherwise exactly one task, `CreateTask` of the drafts, is appended after the unchanged earlier tasks, and the text, due-date and notes drafts are cleared |
| TaskStore.Store.ToggleTask | app/page.tsx:167-173 | the list becomes `Toggle` of the old list |
| TaskStore.Store.DeleteTask | app/page.tsx:175-177 | the list becomes `Delete` of the old list |
| ViewProjector.FilteredTasks | app/page.tsx:221-226 | the filtered list is a subsequence of the tasks; a task is in it exactly when its lower-cased text includes the lower-cased query, the category is "All" or the task's, and completed tasks are shown or the task is not completed; it holds every copy of a passing task and no copy of any other |
| ViewProjector.MatchesSearchIff | app/page.tsx:222 | the search matches exactly when the lower-cased query occurs somewhere in the lower-cased text |
| ViewProjector.FilteredTasksIdempotent | app/page.tsx:221-226 | filtering the filtered list again changes nothing |
| ViewProjector.DefaultFilterShowsAll | app/page.tsx:221-226 | with an empty query, "All" and completed tasks shown, every task is listed |
| ViewProjector.SortTasks | app/page.tsx:203-219 | the result is a permutation of the input, in non-decreasing key order for "asc" and non-increasing for "desc" |
| ViewProjector.SortTasksIsTheStableSort | app/page.tsx:203-219 | tasks with equal keys keep their list order, and any order with that property and sorted by the key is this one |
| ViewProjector.DescReversesAsc | app/page.tsx:203-219 | when no two tasks share the key, "desc" lists exactly the reverse of "asc" |
| ViewProjector.CreationOrderSort | app/page.tsx:215-217 | a list in creation order is its own "asc" creation-time sort, and "desc" gives it newest first |
| ViewProjector.Visible | app/page.tsx:228 | the displayed list is a permutation of the filtered list and holds exactly the tasks that pass the filter; it is in non-decreasing key order for "asc" and non-increasing for "desc", and tasks with equal keys keep their filtered-list order |
| ViewProjector.GetTaskStats | app/page.tsx:232-238 | total is the length; completed plus pending is total; completed and high-priority are at most total; completed is total exactly when every task is completed and 0 exactly when none is; high-priority is 0 exactly when no task is High |
| ViewProjector.Progress | app/page.tsx:230 | progress lies in [0, 100]; it is 100 exactly when the list is non-empty and every task is completed, and 0 exactly when no task is completed; times the number of tasks it is 100 times the completed count, so it is `completed / total * 100` for a non-empty list |
| ViewProjector.StatsIgnoreOrder | app/page.tsx:232-238 | the statistics do not depend on the order of the list |
| ViewProjector.StatsAfterAdd | app/page.tsx:232-238 | appending a task adds one to the total, and one to completed or high-priority when the task is completed or High |
| ViewProjector.StatsAfterToggle | app/page.tsx:232-238 | with unique ids, toggling a task moves it between completed and pending and leaves total and high-priority as they were |
| ViewProjector.StatsAfterDelete | app/page.tsx:232-238 | with unique ids, deleting a task takes it out of the total and out of every count it was in |
| ViewProjector.OneTaskStats | app/page.tsx:229-238 | a list of one pending task has stats 1/0/1 (and one high-priority when the task is High), and once it is ticked off, 1/1/0 and progress 100 |
| ViewProjector.AddThenComplete | app/page.tsx:142-173 | on a fresh page, adding a non-blank draft through `AddTask` gives stats 1 total, 0 completed, 1 pending; ticking the new task off through `ToggleTask` gives 1 total, 1 completed, 0 pending and progress 100 |
| ViewProjector.BuyMilkThroughStore | app/page.tsx:142-173 | adding "Buy milk" (Personal, Low) through the store's handlers gives stats 1/0/1/0, and ticking it off gives 1/1/0/0 and progress 100 |

## Left out

- Local storage: reading the saved list with `JSON.parse` and writing it back after every change are browser I/O. The constructor takes the parsed list, if any. The code has no fallback for corrupt saved data, so the model has none.
- `shareTask`: `navigator.share`, the clipboard, `alert` and `toLocaleDateString` are platform calls.
- Dark mode, the splash-screen timer, the phone/laptop toggle and all rendering: UI and timers.
- The setters behind the filter and sort controls (`setSearchQuery`, `setSortBy`, `setSortDirection`, the pickers) are plain assignments of one state variable. The view takes their values as parameters. The store's pickers are fields that a client assigns directly.
- `showCompleted` starts `true` and the page never calls `setShowCompleted`, so in the code completed tasks are always shown. The model keeps it as the parameter `ViewFilter.showCompleted`; `DefaultFilter` holds the value the page always uses.
- Clock reads are parameters. `createdAt` and `lastModified` of a new task come from two separate `new Date()` calls in the code. The model gives both one reading, `now`.
- TaskStore.Toggle: stamps every task with the id with one reading, `now`. The code calls `new Date()` once per matching task inside the `map`, so with duplicate ids the stamps could differ by a millisecond.
- Ids are not checked for uniqueness by the code: two adds in one millisecond collide. Lemmas that need unique ids take them as a precondition.
- ISO-8601 time-stamp strings are modelled as the milliseconds they denote. An invalid due date, which gives `NaN` in the code, is left to whatever the `dateTime` parameter returns.
- Priority is the three-valued `Priority`. The code stores a string, and a string outside the three would rank as `undefined` in the priority sort. The page only offers the three values.
- Text.Lower: maps only ASCII letters; the Unicode case mapping of `toLowerCase` is not modelled.
- ViewProjector.Progress: exact real arithmetic; the floating-point quotient, and the `Math.round` the page applies for display, are not modelled.
- ViewProjector.DescReversesAsc: stated only for distinct keys, because with ties the stable sort keeps list order in both directions.
- `components/ui/button.tsx`, `app/layout.tsx` and `next.config.js` are not part of this model: presentation and framework configuration with no logic.
