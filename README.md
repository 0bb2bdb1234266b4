# Task list store of the to-do page, modelled in Dafny

The page keeps its tasks in memory as an ordered list of records
`{id, text, completed, priority, dueDate, categories, createdAt}`, next to a
global list of category names, the edit dialog's buffer (`currentEditId`,
`currentCategories`) and the id remembered when a drag starts. Event handlers
change this state: add a task (trimmed, ignored when empty, put in front),
toggle its completion, delete it after confirmation, reorder it by drag and
drop (splice out, splice back in at the target's old index), edit it through
the dialog, and add or remove categories in the dialog. A filter on status,
priority, category and a case-insensitive search picks the tasks to show, three
counters report the total, completed and pending counts, and each shown row
carries an overdue flag.

The project has five modules:

- `Wrappers` (wrappers.dfy): `Option`, for JavaScript's `null`/`undefined` and `||` defaults.
- `Text` (text.dfy): `trim`, ASCII `toLowerCase` and `String.prototype.includes`, with what each promises.
- `Seqs` (seqs.dfy): `Array.prototype.filter`, the splice pair of a move, and lemmas about them (subsequence, permutation, positions).
- `Tasks` (tasks.dfy): the task record and each handler's effect on the list as a function, with lemmas about it. It also holds the filter predicate, the counters, the overdue flag and the row projection.
- `Store` (store.dfy): class `TaskStore`. Its fields are the script's module-level variables and its methods are the handlers. Each method states the new state in terms of the `Tasks` functions, and each one keeps the invariant `Valid()`. `Valid()` says that no category list holds duplicates, and that every category used by a task or by the dialog buffer is in the global list.

Values the script reads from the page, the dialog or the clock are parameters:
- the add input;
- the `Date.now()` id and the creation timestamp;
- the `confirm()` answer;
- the dialog's text, priority, date and checkbox values;
- the category input;
- the filter controls;
- today's local day number and the time-zone offset.

Due dates are day numbers (`None` for the empty date). Priorities and filter values stay the strings the script compares (`"all"`, `"completed"`, `"pending"`, `"medium"`).

Three behaviours of the script worth knowing:

- Editing a task trims its text but does not reject an empty result, unlike adding (`Tasks.SaveKeepsBlankText`).
- `saveTaskChanges` tests `!currentEditId`, so an id of 0 is refused like a closed dialog.
- Task ids are not kept unique. `find` and `findIndex` take the first match, and a delete removes every task with the id.

## Model

| member | source | states |
|---|---|---|
| `Text.TrimStartSpec` | script.js:80 | leading whitespace is removed: the rest is the suffix of the input that starts with a non-space |
| `Text.TrimEndSpec` | script.js:80 | trailing whitespace is removed: the rest is the prefix of the input that ends with a non-space |
| `Text.TrimSlice` | script.js:80 | `trim` returns a contiguous piece of the input; only whitespace is cut off either side, and the result neither starts nor ends with whitespace |
| `Text.TrimEmptyIffBlank` | script.js:80-81 | the trimmed text is empty exactly when the input is whitespace only |
| `Text.Trim` | script.js:80 | `String.prototype.trim`: the model of the call; `TrimStartSpec`, `TrimEndSpec` and `TrimSlice` state what it returns |
| `Text.TrimIdempotent` | script.js:239 | trimming an already trimmed text changes nothing |
| `Text.ToLower` | script.js:104 | lowering keeps the length and lowers each character |
| `Text.Includes` | script.js:120 | `String.prototype.includes`: the model of the call, trying each start position in turn; `IncludesIff` states what it means |
| `Text.IncludesIff` | script.js:120 | `includes` holds exactly when the search text occurs at some position of the text |
| `Seqs.Filter` | script.js:106 | `Array.prototype.filter`: the model of the call used at lines 106, 202, 271 and 305-306; the `Filter…` lemmas below state its properties |
| `Seqs.FilterMembers` | script.js:106 | an element is in the filter's result exactly when it is in the input and passes the test |
| `Seqs.FilterMultiplicity` | script.js:202 | every passing element is kept as often as it occurs, every failing one is dropped |
| `Seqs.FilterIsSubseq` | script.js:106 | the filter's result is an order-preserving subsequence of its input |
| `Seqs.FilterAllPass` | script.js:202 | when every element passes, filtering returns the input itself |
| `Seqs.FilterComplement` | script.js:305-306 | the elements passing a test and those passing its negation add up to the input's length |
| `Seqs.FilterAppend` | script.js:106 | filtering a concatenation filters each part |
| `Seqs.FilterCount` | script.js:305-306 | the filtered length is the number of positions whose element passes |
| `Seqs.FilterNoDuplicates` | script.js:271 | filtering a duplicate-free list leaves it duplicate-free |
| `Seqs.Without` | script.js:271 | `currentCategories.filter(cat => cat !== category)`: the model of the call; `WithoutSpec` states what it leaves |
| `Seqs.WithoutSpec` | script.js:271 | removing a name drops every occurrence of it, keeps every other name as often as before and in order, and changes nothing when the name is absent |
| `Seqs.RemoveAt` | script.js:366 | `splice(i, 1)` shortens the list by one |
| `Seqs.InsertAt` | script.js:367 | `splice(i, 0, x)` lengthens the list by one |
| `Seqs.Move` | script.js:366-367 | the splice-out, splice-in pair of a drop; `MovePermutation` and `MovePositions` state its result |
| `Seqs.SwapNeighbours` | script.js:366-367 | the elements at two neighbouring positions trade places and every other position keeps its element |
| `Seqs.MovePermutation` | script.js:366-367 | splice-out then splice-in keeps the length and is a permutation |
| `Seqs.MovePositions` | script.js:366-367 | the moved element lands at the target index, the elements between the two positions shift by one, the rest stay |
| `Seqs.SwapNeighboursTwice` | script.js:366-367 | swapping the same two neighbours twice restores the list |
| `Seqs.MoveNeighbourSwap` | script.js:366-367 | a move onto a neighbour's index, in either direction, swaps the two |
| `Seqs.MoveNeighbourUndone` | script.js:366-367 | repeating a move onto a neighbour restores the list |
| `Tasks.FindIndex` | script.js:361-362 | `findIndex` returns -1 exactly when no task has the id, and otherwise the first position holding it |
| `Tasks.IsFirstUnique` | script.js:192 | the position `find` picks is unique |
| `Tasks.Added` | script.js:79-93 | the model of `addTask` on the list; `AddBlankIsNoop` and `AddPrepends` state its result |
| `Tasks.AddBlankIsNoop` | script.js:80-81 | adding whitespace-only text leaves the list unchanged |
| `Tasks.AddPrepends` | script.js:83-93 | otherwise the new list is one new task in front of the old list: trimmed, non-blank text, `completed` false, priority `"medium"`, no due date, no categories |
| `Tasks.Toggled` | script.js:191-198 | the length and all fields but `completed` stay; `completed` flips exactly at the first task with the id; an unknown id changes nothing |
| `Tasks.ToggleTwice` | script.js:194 | toggling the same id twice restores the list |
| `Tasks.ToggleKeepsCategories` | script.js:194 | a toggle changes only `completed`, so no task gains a duplicate or unknown category |
| `Tasks.Deleted` | script.js:202 | the model of the `deleteTask` filter; the `Delete…` lemmas below state its result |
| `Tasks.DeleteMembers` | script.js:202 | after a delete no task has the id, and every task with another id remains |
| `Tasks.DeleteKeepsOthers` | script.js:202 | every task with another id is kept as often as before, and the kept tasks stay in order |
| `Tasks.DeleteCount` | script.js:202 | the length drops by the number of positions that held the id |
| `Tasks.DeleteAbsentIsNoop` | script.js:200-207 | deleting an id no task has leaves the list unchanged |
| `Tasks.Dropped` | script.js:358-367 | the model of the `drop` handler on the list; the `Drop…` lemmas below state its result |
| `Tasks.DropNoop` | script.js:358-364 | equal ids, or an id not found, leave the list unchanged |
| `Tasks.DropPermutation` | script.js:361-367 | a reorder keeps the length and is a permutation of the list |
| `Tasks.DropPositions` | script.js:361-367 | the dragged task ends at the target's old index; tasks between the two positions shift by one; the others stay |
| `Tasks.SwapFirstPositions` | script.js:361-362 | after two neighbouring tasks swap, `findIndex` finds each id where it found the other |
| `Tasks.DropNeighbourSwaps` | script.js:358-367 | dropping a task onto the task right beside it swaps the two and changes nothing else |
| `Tasks.DropNeighboursUndone` | script.js:358-367 | for neighbouring tasks a reorder and the reverse reorder cancel out |
| `Tasks.DropBackNotInverse` | script.js:358-367 | with a task between them, the reverse reorder does not restore the list (A, X, B becomes X, A, B) |
| `Tasks.DropFirstOntoLast` | script.js:361-367 | dropping the first of three tasks onto the last moves it to the end (A, X, B becomes X, B, A) |
| `Tasks.DropMiddleOntoLast` | script.js:361-367 | dropping the middle of three tasks onto the last swaps them (X, B, A becomes X, A, B) |
| `Tasks.Saved` | script.js:235-243 | only the first task with the id changes; it keeps its id and creation time and gets the trimmed text, completed flag, priority, due date and categories given; an absent id changes nothing |
| `Tasks.SaveKeepsBlankText` | script.js:239 | saving whitespace-only text leaves the task with empty text |
| `Tasks.Keep` | script.js:106-123 | the filter lambda with its chain of early returns; `KeepIff` states what it accepts |
| `Tasks.FilterTasks` | script.js:106-123 | the list `renderTasks` shows; `FilterTasksSpec` states what it holds |
| `Tasks.KeepIff` | script.js:106-123 | the filter keeps a task exactly when it passes the status, priority, category and search checks |
| `Tasks.SearchGuardRedundant` | script.js:120 | the `searchValue &&` guard rejects exactly what `includes` alone rejects, since every text includes the empty search text |
| `Tasks.FilterTasksSpec` | script.js:106-123 | the shown tasks are a subsequence of the list, in order; a task is shown exactly when it passes all four checks, and then as often as it occurs |
| `Tasks.FilterNeutralShowsAll` | script.js:106-123 | with every control at "all" and an empty search, every task is shown |
| `Tasks.SearchMilFindsBuyMilk` | script.js:104-120 | searching "mil", "MIL" or "Mil" matches the text "Buy milk" |
| `Tasks.CategoryFilterExample` | script.js:115-117 | a task in "Work" and "Home" passes the category check for either |
| `Tasks.CompletedCount` | script.js:305 | the completed counter, `tasks.filter(task => task.completed).length`; `CountsSpec` states its value |
| `Tasks.PendingCount` | script.js:306 | the pending counter, `tasks.filter(task => !task.completed).length`; `CountsSpec` states its value |
| `Tasks.CountsSpec` | script.js:303-306 | the completed count is the number of completed tasks, the pending count the number of the others, and they add up to the total |
| `Tasks.OverdueAsWritten` | script.js:144-147 | the overdue expression as written, with the due date read as midnight UTC and today as local midnight; the as-written half of the finding below |
| `Tasks.IsOverdue` | script.js:143-147 | overdue exactly when there is a due day, it is before today, and the task is not completed, whatever the time zone |
| `Tasks.OverdueAsWrittenEastOfUtc` | script.js:144-147 | at UTC and east of it, the comparison as written gives the intended flag |
| `Tasks.OverdueAsWrittenWestOfUtc` | script.js:144-147 | west of UTC, the comparison as written also flags tasks due today |
| `Tasks.DueTodayShownOverdueWestOfUtc` | script.js:144-147 | five hours behind UTC, a pending task due today is flagged by the code but is not overdue |
| `Tasks.ViewOf` | script.js:143-161 | a row carries the task's id, text, completion, priority and due date, and only the first category when there is one; `overdueShown` is the flag the page sets, which equals the intended `overdue` at UTC and east of it and also holds for a task due today west of UTC |
| `Store.TaskStore.Valid` | script.js:29-32 | the store's invariant: neither category list holds a name twice, no task carries a category twice, every task's categories are in the global list, and the buffer's names are too |
| `Store.TaskStore.constructor` | script.js:29-33 | start-up takes the stored tasks or an empty list and the stored categories or Work, Personal, Shopping; the dialog is closed; with nothing stored the invariant holds |
| `Store.TaskStore.AddTask` | script.js:79-98 | blank input leaves the list; other input puts the new task in front; the invariant is kept |
| `Store.TaskStore.ToggleTaskComplete` | script.js:191-198 | the list becomes the toggled list; the invariant is kept |
| `Store.TaskStore.DeleteTask` | script.js:200-207 | without confirmation nothing changes; with it, the tasks with the id go; the invariant is kept |
| `Store.TaskStore.OpenEditModal` | script.js:208-223 | an unknown id changes nothing; otherwise the buffer holds the id and a copy of the task's categories |
| `Store.TaskStore.CloseModal` | script.js:226-230 | the buffer is reset to no id and no categories |
| `Store.TaskStore.SaveTaskChanges` | script.js:232-251 | with no (or a zero) id in the buffer, or an id no longer present, nothing changes; otherwise that one task is overwritten and the dialog closed |
| `Store.TaskStore.AddCategory` | script.js:253-268 | a blank name or one already in the buffer changes nothing; otherwise it is appended to the buffer once, and to the global list only if absent; neither list gains a duplicate |
| `Store.TaskStore.RemoveCategory` | script.js:270-273 | every occurrence of the name leaves the buffer, the rest keep their order |
| `Store.TaskStore.DragStart` | script.js:340-341 | the dragged task's id is remembered |
| `Store.TaskStore.Drop` | script.js:353-371 | with no drag started nothing changes; otherwise the reorder happens; the list stays a permutation |
| `Store.TaskStore.RenderTasks` | script.js:100-189 | one row per shown task, in list order, each built by `ViewOf` |
| `Store.TaskStore.UpdateStats` | script.js:303-307 | the counters equal the numbers of tasks, completed tasks and pending tasks, and completed plus pending is the total |
| `Store.PayRentScenario` | script.js:79-98 | from empty storage, adding "Pay rent" and saving it as high priority with a past due date shows one overdue high-priority row (flagged by the page too, in any zone less than a day ahead of UTC), one pending task and none completed |

## Left out

- Markup and the DOM: building elements with `innerHTML`, the empty-state placeholder, the category filter and tag markup, and the unescaped text in that markup. `RenderTasks` returns the rows' data instead.
- Persistence: `saveTasks` and the category write after `addCategory` are not modelled, and neither is JSON encoding. Loading is the constructor, which takes each stored blob as present or absent.
- A corrupt stored blob is not modelled: `JSON.parse` would throw on it.
- Tasks loaded without a `categories` array: the record always has one, so the `!task.categories` guard is not modelled.
- The clock and the date library are parameters: `Date.now()`, `new Date().toISOString()`, local midnight and the time-zone offset. `formatDate` and its locale-dependent text are not modelled.
- Daylight-saving changes: the offset is taken as one number for today.
- Text.ToLower: lowers ASCII letters only; Unicode case mapping is not modelled.
- Text.IsSpace: lists the ECMAScript whitespace and line-terminator code points by hand, not from a Unicode table.
- The dialog's field pre-fill in `openEditModal` is not modelled. It is view state, and `SaveTaskChanges` takes the field values as parameters.
- Drag event plumbing (`dataTransfer`, the dragging style, `dragOver`, `dragEnd`, `initDragAndDrop`) and the theme toggle are UI only.
- Ids are integers, and the numeric conversion of the `data-id` attribute is not modelled.
- Task objects are values in a sequence, so a field write becomes an update at one position. The event listeners at script.js:179-181 keep a reference to a task object, but they read only `task.id`, which no handler changes, so no aliasing is lost.

## Findings

| source | as written | input that shows it | evidently intended | confidence | as-written member | corrected member |
|---|---|---|---|---|---|---|
| script.js:144-147 | `new Date(task.dueDate)` reads the date input's `YYYY-MM-DD` value as midnight UTC, but `today` is local midnight | west of UTC, e.g. `getTimezoneOffset()` = 300: a pending task due today is flagged overdue | overdue only when the due day is before today | not executed | `Tasks.DueTodayShownOverdueWestOfUtc` | `Tasks.IsOverdue` |
