# To-do list view-model

A model of the logic inside the React `App` component of a single-page to-do list. The
component holds a list of tasks (id, name, description, due date, priority, completion
flag), the fields of the add/edit form, an `editId` that says whether the form adds a new
task or edits an existing one, and two selectors that choose how the list is filtered
and sorted for display.

The model has six modules:

- `Seqs`: order-preserving selection (`Array.prototype.filter`) and the subsequence relation.
- `Text`: `String.prototype.trim`, with the whitespace set of the ECMAScript language
  specification (WhiteSpace and LineTerminator code points).
- `Dates`: the order of due dates. Dates are `YYYY-MM-DD` strings ordered
  lexicographically. On strings of that shape the order is proved equal to the order of
  (year, month, day).
- `Tasks`: the task record and the new lists the handlers build. The edit and the toggle are
  `tasks.map` with a spread; the delete is `tasks.filter`.
- `View`: the derived display list. It filters by completion, then sorts a copy with a stable
  insertion sort keyed by priority rank or due date.
- `TodoApp`: the class `TodoModel`, whose fields are the component's state. Each event handler
  is a method that makes one atomic state transition.

`Date.now()`, which the source uses as the id of a new task, is a parameter `freshId` of
`Submit`. The precondition asks that it be positive and unused, which the code itself does not
guarantee: two adds in the same millisecond would collide.

Two behaviours of the code worth noting:

- The trim guard on line 16 runs before the mode is tested, so an edit whose name or
  description is blank is rejected as well. It is not only new tasks that are checked.
- The delete removes every task with the given id, not exactly one. The two agree when ids
  are unique, which `TodoModel.Valid` keeps and `Tasks.DeleteRemovesOne` proves.

## Model

| member | source | states |
|---|---|---|
| Text.TrimStartSpec | App.jsx:16 | the leading-whitespace cut keeps a suffix that starts with a non-whitespace character, and all it drops is whitespace |
| Text.TrimEndSpec | App.jsx:16 | the trailing-whitespace cut keeps a prefix that ends with a non-whitespace character, and all it drops is whitespace |
| Text.TrimSpec | App.jsx:16 | `trim()` is no longer than its input and leaves no whitespace at either end |
| Text.TrimEmptyIffBlank | App.jsx:16 | `s.trim()` is empty exactly when `s` is empty or all whitespace |
| TodoApp.AcceptsIffNotBlank | App.jsx:16 | the submit guard passes exactly when neither the name nor the description is blank |
| Seqs.Select | App.jsx:60 | `filter` keeps exactly the elements satisfying the predicate, each with its multiplicity, and is never longer |
| Seqs.SelectIsSubsequence | App.jsx:60 | `filter` keeps the elements in their original relative order |
| Seqs.SelectIdempotent | App.jsx:60 | filtering twice by one predicate is filtering once |
| Tasks.EditTasks | App.jsx:19-30 | the edit map keeps the length, order, ids and completion flags; tasks with the edited id take the form's name, description, due date and priority; every other task is unchanged |
| Tasks.EditAbsent | App.jsx:18-31 | editing an id that no task has (deleted while being edited) changes nothing |
| Tasks.EditWithOwnFields | App.jsx:19-30 | with unique ids, submitting an edit with a task's own fields leaves the list as it was |
| Tasks.ToggleTasks | App.jsx:51-57 | the toggle flips `completed` exactly on the tasks with the given id and changes no other field, length or order |
| Tasks.ToggleTwice | App.jsx:51-57 | toggling the same id twice restores the list |
| Tasks.ToggleAbsent | App.jsx:51-57 | toggling an id that no task has changes nothing |
| Tasks.DeleteTasks | App.jsx:59-61 | the delete keeps exactly the tasks whose id differs, with their multiplicities and in their original order |
| Tasks.DeleteAbsent | App.jsx:59-61 | deleting an id that no task has changes nothing |
| Tasks.DeleteTwice | App.jsx:59-61 | deleting the same id twice is deleting it once |
| Tasks.DeleteRemovesOne | App.jsx:59-61 | with unique ids, deleting a present id shortens the list by exactly one |
| Tasks.AppendKeepsUniqueIds | App.jsx:34-42 | appending a task with a fresh positive id keeps the ids unique and positive |
| Tasks.DeleteKeepsIds | App.jsx:59-61 | the delete keeps the ids unique and positive |
| Tasks.SameIdsKeepUniqueIds | App.jsx:19-30 | a map that keeps every id in place, as the edit and the toggle do, keeps the ids unique and positive |
| View.FilterTasks | App.jsx:72-77 | the filtered list holds exactly the tasks the filter shows, with their multiplicities: Completed only completed tasks, Incompleted only open ones |
| View.FilterIsSubsequence | App.jsx:72-77 | the filtered list keeps the tasks' original relative order |
| View.FilterAllIsIdentity | App.jsx:73 | the All filter keeps the whole list |
| View.BeforeIrreflexive | App.jsx:79-88 | the comparator never puts a task strictly before itself |
| View.BeforeAsymmetric | App.jsx:79-88 | the comparator never puts each of two tasks strictly before the other |
| View.NotAfterTransitive | App.jsx:79-88 | "not after" is transitive for every sort key, so the comparator is consistent |
| View.TiedTransitive | App.jsx:79-88 | ties are transitive for every sort key, so the tie classes the stability lemmas speak of are well defined |
| View.TiedMeaning | App.jsx:80-87 | two tasks tie under Priority exactly when their priorities are equal, under Due Date exactly when their dates are equal, and always under None |
| View.Insert | App.jsx:79-88 | inserting one task into a list adds exactly that task |
| View.InsertSorted | App.jsx:79-88 | inserting into a sorted list gives a sorted list |
| View.SortTasks | App.jsx:79 | the sorted copy is a permutation of the filtered list |
| View.SortTasksSorted | App.jsx:79-88 | no task in the sorted copy comes after one that the comparator puts after it |
| View.InsertStable | App.jsx:79-88 | inserting keeps the relative order of the tasks tied with any given task |
| View.SortTasksStable | App.jsx:79-88 | the sort is stable: tasks that tie keep their relative order |
| View.SortPair | App.jsx:79-88 | two tasks are swapped exactly when the comparator puts the second strictly before the first |
| View.SortNoneIsIdentity | App.jsx:87 | with no sort key the filtered order is kept |
| View.SortByPriorityDescending | App.jsx:80-83 | sorted by Priority, the ranks (High 3, Medium 2, Low 1) do not increase |
| View.SortByPriorityStable | App.jsx:80-83 | sorted by Priority, the tasks of one priority keep their relative order |
| View.SortByDueDateChronological | App.jsx:84-86 | sorted by Due Date, `YYYY-MM-DD` dates never go back in (year, month, day) order |
| Dates.LexLessTransitive | App.jsx:84-86 | the due-date order is transitive |
| Dates.LexLessTotal | App.jsx:84-86 | two different due dates are always ordered one way or the other |
| Dates.DigitsOrder | App.jsx:84-86 | on digit strings of one length, lexicographic order is numeric order |
| Dates.DateOrderIsChronological | App.jsx:84-86 | on `YYYY-MM-DD` strings, the due-date order is the order of year, then month, then day |
| Dates.CalendarKeyInjective | App.jsx:84-86 | distinct `YYYY-MM-DD` strings have distinct (year, month, day) keys |
| View.DeriveView | App.jsx:72-88 | the displayed list holds exactly the tasks the filter shows, with their multiplicities, sorted by the chosen key |
| View.DeriveViewUnsorted | App.jsx:72-88 | with no sort key the displayed list is the filtered list, a subsequence of the tasks, and under All the whole list |
| View.ScenarioSortOrders | App.jsx:79-88 | a High task due 2024-01-10 and a Low task due 2024-01-05 are shown Low first by Due Date and High first by Priority |
| View.ScenarioCompleteThenFilter | App.jsx:51-77 | after completing the only task, the Incompleted view is empty and the Completed view shows it completed |
| TodoApp.TodoModel.constructor | App.jsx:5-12 | the initial state: empty list and form, priority Low, Adding mode, filter All, no sort |
| TodoApp.TodoModel.Submit | App.jsx:14-49 | a blank name or description changes nothing; otherwise Adding appends the form as a new open task with the fresh id, Editing applies the edit map to the edited id, and the form resets to empty fields, Low and Adding; ids stay unique |
| TodoApp.TodoModel.Complete | App.jsx:51-57 | the new list is the toggle of the old one; ids stay unique |
| TodoApp.TodoModel.Delete | App.jsx:59-61 | the new list is the delete of the old one; one task fewer if the id was present, unchanged otherwise; ids stay unique |
| TodoApp.TodoModel.BeginEdit | App.jsx:63-68 | the form takes the task's name, description, due date and priority, the mode becomes Editing(task.id), and the task list is not touched |
| TodoApp.TodoModel.SetFilter | App.jsx:115 | the filter selector sets the filter and keeps the state invariant |
| TodoApp.TodoModel.SetSort | App.jsx:125 | the sort selector sets the sort key and keeps the state invariant |
| TodoApp.TodoModel.Display | App.jsx:72-88 | the rendered list holds exactly the tasks the filter shows, with their multiplicities, sorted by the chosen key; reading it changes no state |

## Left out

- JSX rendering, CSS classes and the "No tasks found" branch (lines 90-215): presentation only.
- The floating-ball decoration (lines 93-104): it uses `Math.random()` and floating point, and is cosmetic.
- `window.scrollTo` in `handleEdit` (line 69): a browser side effect.
- `Date.now()` as a clock (line 35): replaced by the `freshId` parameter, with the precondition that it is positive and unused.
- `e.preventDefault()` (line 15): a browser side effect with no effect on the state.
- The form-field `onChange` setters (lines 141-166): the model assigns the fields through `BeginEdit` and through the reset in `Submit`. How typing sets them in between is left out, because each setter only stores the input's value.
- View.SortTasks: the Due Date comparator is `new Date(a.dueDate) - new Date(b.dueDate)`, and the model orders due dates as strings instead. The Date Time String Format of the ECMAScript language specification (ECMA-262) fixes how a date-only `YYYY-MM-DD` string parses: to UTC midnight of that day, or to `NaN` when the month or day is out of range. Only the empty string (an unset date input) and strings outside that format fall back to engine-defined parsing. A `NaN` result makes the order `sort` produces implementation-defined. The model does not compute the JavaScript time value. `Dates.DateOrderIsChronological` proves that string order is the order of (year, month, day) on every string of the `YYYY-MM-DD` shape. On valid calendar dates the time value increases with (year, month, day), so there the string order and the comparator agree. `IsIsoDate` checks only the shape, so it admits strings such as `2024-13-45`, which parse to `NaN`. For those the model has an order and JavaScript has none.
- View.SortTasks: the order `Array.prototype.sort` produces is modelled as one particular stable sort, an insertion sort. Any stable sort gives the same result for a consistent comparator.
- Priority values other than Low, Medium and High, which would give an `undefined` rank: the priority select offers only those three (lines 164-166).
- Filter values other than All, Completed and Incompleted: the filter select offers only those three (lines 118-120). The fallback branch that keeps every task (line 76) is unreachable in the model.
- React state batching and handlers that close over a stale `tasks`: each handler is one atomic transition.
- TodoApp.TodoModel.Submit: `if (editId)` tests JavaScript truthiness, so an edit of a task with id 0 would be taken as an add. `Valid` keeps every id positive, as `Date.now()` timestamps are, and under it the test is true exactly in Editing mode.
