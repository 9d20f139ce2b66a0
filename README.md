# To-do list: projection and task mutations

This project models the logic of a small SwiftUI/SwiftData to-do app and proves
properties of that model in Dafny. The model covers four parts:

- The persisted `TaskItem` record (`task_item.dfy`, module `TaskModel`). It is a
  class with the same six fields. Its `init` stores each argument unchanged.
  The defaults are an empty title, not completed, no due date and the
  category `"General"`.
- The list screen (`task_list_view.dfy`, module `TaskList`), which covers
  four things:
  - The category picker's entries: `"All"`, then every category in use,
    once each, in ascending order.
  - The projection `searchedAndFilteredTasks`. It filters by category unless
    the filter is `"All"`, then by a case-insensitive title search unless the
    search is empty. It then sorts by one of four comparators.
  - `addTask`: it trims, rejects a blank title, and falls back to
    `"General"` for a blank category.
  - `deleteTask`: its row offsets index the projected list, not the store.
- One row of the list (`task_row.dfy`, module `TaskRow`):
  - the `taskIsOverdue` predicate;
  - the red highlight, which also requires the task to be incomplete;
  - the completion toggle.
- The edit form (`edit_task_view.dfy`, module `EditTask`):
  - The switch and the date picker start out derived from the task's due date.
  - The title and category fields write into the task as typed.
  - "Done" collapses the switch and the picker into one optional due date.
- The Foundation string operations these depend on (`text.dfy`, module `Text`):
  - trimming whitespace and newlines;
  - case-insensitive containment;
  - the `<` order on strings that `sorted()` uses.

Dates are integers, in seconds. The current time (`Date()`), the start of
today (`Calendar.current.startOfDay(for:)`) and a fresh `UUID()` are passed in
as parameters.

The store (the `@Query` result) is a sequence of task objects held by the
list screen. The screen's invariant is that the sequence holds each object
once. The rows, the editor and the store share the same objects, so an edit
or a toggle is visible in the list at once.

Three behaviours of the code worth stating plainly:

- Sort order among ties. `sort(by:)` is not guaranteed to be stable, so
  the model claims no order among tasks that a comparator leaves unordered.
- Blank titles and categories. `addTask` trims both and rejects a blank
  title, but the edit form writes title and category into the task as
  typed, with no trimming and no emptiness check
  (`EditTask.EditTaskView.EditTitle`).
- Overdue and completion. `taskIsOverdue` ignores completion. Completion
  enters the red overdue highlight only at three places (TaskRow.swift
  lines 23, 28 and 35). The model keeps the two apart, as the code does.

A category literally named `"All"` collides with the sentinel. Choosing that
category in the picker switches the filter off, and the picker then lists
`"All"` twice. The model reproduces this as the code does.

## Model

| member | source | states |
|---|---|---|
| TaskModel.TaskItem.constructor | TodoApp/TodoApp/TaskItem.swift:13-20 | every field holds the matching argument unchanged; `id` and `createdAt` are written nowhere else, since no method of the model has them in its frame |
| TaskModel.NewDefaultTask | TodoApp/TodoApp/TaskItem.swift:13 | the defaults: empty title, not completed, no due date, category `"General"` |
| Text.Trim | TodoApp/TodoApp/TaskListView.swift:132 | the trimmed string has no whitespace at either end and is empty exactly when the input is all whitespace |
| Text.TrimIsMiddleSlice | TodoApp/TodoApp/TaskListView.swift:132 | the trimmed string is the slice of the input between its leading and its trailing whitespace |
| Text.TrimmedSliceUnique | TodoApp/TodoApp/TaskListView.swift:132 | a string that is not all whitespace has exactly one such slice, so the trimmed result is determined |
| Text.TrimIdempotent | TodoApp/TodoApp/TaskListView.swift:132 | trimming twice is trimming once |
| Text.Lowered | TodoApp/TodoApp/TaskListView.swift:40 | case folding keeps the length, leaves no upper-case letter, keeps every other character in place, and each character of the result is the input's character up to case |
| Text.Lower | TodoApp/TodoApp/TaskListView.swift:40 | an upper-case letter folds to its own lower-case partner, anything else is kept |
| Text.SameFoldIffCasePair | TodoApp/TodoApp/TaskListView.swift:40 | two characters fold alike exactly when they are the same letter up to case |
| Text.ContainsIgnoringCase | TodoApp/TodoApp/TaskListView.swift:40 | `localizedCaseInsensitiveContains`: the folded search text occurs in the folded title |
| Text.Less | TodoApp/TodoApp/TaskListView.swift:28 | String `<`: lexicographic on characters, a proper prefix first |
| Text.LoweredIdempotent | TodoApp/TodoApp/TaskListView.swift:40 | folding a folded string changes nothing |
| Text.ContainsAt | TodoApp/TodoApp/TaskListView.swift:40 | substring containment holds exactly when the search text occurs at some position of the title |
| Text.ContainsIgnoringCaseOfLowered | TodoApp/TodoApp/TaskListView.swift:40 | case-insensitive containment is unaffected by the case of either argument |
| Text.LessIrreflexive | TodoApp/TodoApp/TaskListView.swift:28 | no string is less than itself |
| Text.LessTransitive | TodoApp/TodoApp/TaskListView.swift:28 | string order is transitive |
| Text.LessTotal | TodoApp/TodoApp/TaskListView.swift:28 | of two different strings, one is less than the other |
| Text.StrictlyIncreasingIsDistinct | TodoApp/TodoApp/TaskListView.swift:27-28 | a strictly ascending list of strings holds no string twice |
| Text.InsertUnique | TodoApp/TodoApp/TaskListView.swift:27-28 | adding a string to an ascending duplicate-free list keeps it so, and its members are the old ones plus the new string |
| Text.SortedDistinct | TodoApp/TodoApp/TaskListView.swift:27-28 | `Array(Set(xs)).sorted()` holds exactly the strings of `xs`, strictly ascending, so each one once |
| TaskList.TaskListView.constructor | TodoApp/TodoApp/TaskListView.swift:18-24 | the initial screen state: filter `"All"`, empty search, empty title, category `"General"`, newest first |
| TaskList.TaskListView.Categories | TodoApp/TodoApp/TaskListView.swift:26-29 | `"All"` first, then strictly ascending; every task's category is listed, and every listed name is some task's category |
| TaskList.Precedes | TodoApp/TodoApp/TaskListView.swift:45-61 | the four `areInIncreasingOrder` closures, including the two `guard let`s of the due-date closure and the completion tie-break |
| TaskList.PrecedesComparesKeys | TodoApp/TodoApp/TaskListView.swift:44-62 | each of the four closures compares a pair-of-integers key lexicographically |
| TaskList.PrecedesIsStrictWeakOrder | TodoApp/TodoApp/TaskListView.swift:44-62 | each closure is irreflexive and transitive, and incomparability is transitive: the precondition `sort(by:)` places on its argument |
| TaskList.Insert | TodoApp/TodoApp/TaskListView.swift:44-62 | inserting into a sorted list adds exactly that one task and keeps the list sorted |
| TaskList.SortTasks | TodoApp/TodoApp/TaskListView.swift:44-62 | the sorted list is a rearrangement of the input in which no task is preceded by a later one |
| TaskList.NewestFirst | TodoApp/TodoApp/TaskListView.swift:45-46 | newest first: `createdAt` never increases along the list |
| TaskList.OldestFirst | TodoApp/TodoApp/TaskListView.swift:47-48 | oldest first: `createdAt` never decreases along the list |
| TaskList.DatedFirstByDate | TodoApp/TodoApp/TaskListView.swift:49-54 | by due date: every dated task comes before every undated one, and dated tasks are in ascending date order |
| TaskList.IncompleteFirstThenNewest | TodoApp/TodoApp/TaskListView.swift:55-61 | by completion: incomplete tasks come first, and within each group the newest comes first |
| TaskList.Retain | TodoApp/TodoApp/TaskListView.swift:35 | `filter` keeps exactly the matching tasks, each as often as in its input, and nothing else |
| TaskList.TaskListView.Passes | TodoApp/TodoApp/TaskListView.swift:34-42 | a task passes when it is in the selected category (unless `"All"`) and its title contains the search text (unless empty) |
| TaskList.TaskListView.FilteredTasks | TodoApp/TodoApp/TaskListView.swift:32-42 | the two filter stages: only tasks in the selected category (unless `"All"`) whose title contains the search text (unless empty); every such task, as often as it is stored; with neither filter, the store itself |
| TaskList.TaskListView.SearchedAndFilteredTasks | TodoApp/TodoApp/TaskListView.swift:31-64 | the projection shows exactly the stored tasks that pass both filters, each as often as stored, sorted by the chosen option; with neither filter it is a rearrangement of the store |
| TaskList.CategoryToSave | TodoApp/TodoApp/TaskListView.swift:135-136 | the saved category is never empty and never padded: the trimmed input, or `"General"` when the input is all whitespace |
| TaskList.TaskListView.AddButtonDisabled | TodoApp/TodoApp/TaskListView.swift:125 | the "+" button is disabled while the trimmed title is empty |
| TaskList.TaskListView.AddTask | TodoApp/TodoApp/TaskListView.swift:131-143 | a blank title changes nothing; otherwise exactly one fresh task is appended, with the given id and time, the trimmed title and the saved category, incomplete and undated, and both fields are reset; the store keeps each object once |
| TaskList.Without | TodoApp/TodoApp/TaskListView.swift:147 | deleting one object removes every occurrence of it and keeps every other task as often as before |
| TaskList.TaskListView.DeleteEach | TodoApp/TodoApp/TaskListView.swift:147 | deleting a set of tasks one by one removes exactly those tasks and keeps every other one |
| TaskList.TaskListView.DeleteTask | TodoApp/TodoApp/TaskListView.swift:145-149 | the offsets are read through the projected list: exactly the tasks on those rows of the projection leave the store, and every other stored task stays |
| TaskRow.TaskIsOverdue | TodoApp/TodoApp/TaskRow.swift:51-56 | `taskIsOverdue()`: false without a due date, otherwise whether the due date is before the start of today |
| TaskRow.HighlightedAsOverdue | TodoApp/TodoApp/TaskRow.swift:23 | the red highlight condition used at lines 23, 28 and 35: overdue and not completed |
| TaskRow.NoDueDateNeverOverdue | TodoApp/TodoApp/TaskRow.swift:52 | a task without a due date is never overdue |
| TaskRow.OverdueExactlyBeforeToday | TodoApp/TodoApp/TaskRow.swift:51-56 | a dated task is overdue exactly when its due date is before the start of today |
| TaskRow.OverdueStaysOverdue | TodoApp/TodoApp/TaskRow.swift:55 | once overdue, a task stays overdue on every later day |
| TaskRow.HighlightIgnoresCompletedTasks | TodoApp/TodoApp/TaskRow.swift:23 | a completed task is never drawn in red; an incomplete one is drawn in red exactly when it is overdue |
| TaskRow.ToggleCompletion | TodoApp/TodoApp/TaskRow.swift:14-16 | a tap negates `isCompleted` and writes no other field |
| TaskRow.TapTwice | TodoApp/TodoApp/TaskRow.swift:14-16 | two taps restore `isCompleted`, and no other field changes |
| EditTask.EditTaskView.constructor | TodoApp/TodoApp/EditTaskView.swift:11-15 | the switch is on exactly when the task has a due date; the picker shows that date, or the current time |
| EditTask.EditTaskView.EditTitle | TodoApp/TodoApp/EditTaskView.swift:20 | the title field writes into the task as typed, with no trimming or emptiness check |
| EditTask.EditTaskView.EditCategory | TodoApp/TodoApp/EditTaskView.swift:21 | the category field writes into the task as typed, with no trimming or default |
| EditTask.EditTaskView.SetHasDueDate | TodoApp/TodoApp/EditTaskView.swift:25 | the switch sets `hasDueDate` |
| EditTask.EditTaskView.PickDate | TodoApp/TodoApp/EditTaskView.swift:27 | the picker sets the pending date |
| EditTask.CommittedDueDate | TodoApp/TodoApp/EditTaskView.swift:35-39 | the committed due date is present exactly when the switch is on, and is then the picked date |
| EditTask.EditTaskView.Done | TodoApp/TodoApp/EditTaskView.swift:34-41 | "Done" writes the committed due date and no other field of the task |
| EditTask.OpenThenCommitKeepsDueDate | TodoApp/TodoApp/EditTaskView.swift:13-14 | opening the form and committing it untouched gives back the original due date |
| EditTask.CommitThenReopenShowsSameState | TodoApp/TodoApp/EditTaskView.swift:11-15 | reopening after a commit shows the switch as it was left and, if on, the picked date |
| EditTask.OpenAndDone | TodoApp/TodoApp/EditTaskView.swift:34-39 | opening the editor and pressing "Done" at once leaves every field of the task as it was |

## Left out

- SwiftUI rendering is not modelled: layout, colours, styling, navigation, `withAnimation`, `dismiss()` and all `#Preview` blocks.
- The pickers' and the search field's bindings into the list screen's state are plain field writes and are not modelled as operations.
- SwiftData persistence (`ModelContainer`, saving, change notification) is not modelled. The store is the sequence `TaskListView.allTasks`. `insert` appends to it and `delete` removes an object from it.
- TaskList.TaskListView.AddTask: appends the new task at the end of the store. `@Query` keeps the store sorted newest first, and the model does not. The projection sorts anyway, so only the order of tied tasks could differ.
- TaskList.TaskListView.DeleteTask: requires every offset to be a row of the projection. `onDelete` only ever passes such offsets, and an out-of-range offset would trap in the source.
- TaskList.SortTasks: states no order among tasks that the comparator leaves unordered, because `sort(by:)` is not guaranteed to be stable. The insertion sort is one admissible implementation, not Swift's algorithm.
- Text.ContainsIgnoringCase: folds ASCII letters only. Locale-aware case folding and diacritics handling in `localizedCaseInsensitiveContains` are not modelled.
- Text.Trim: treats each character as one code point and trims the Unicode White_Space characters. Grapheme clusters and normalisation are not modelled.
- Text.Less: compares code points lexicographically, and the model's string equality is equality of code-point sequences. Swift's `<`, `==` and `Set` all compare strings under Unicode canonical equivalence. This matters for the category filter and for the de-duplication in `categories`: two categories spelled with a precomposed "é" and with "e" plus a combining accent are one picker entry in Swift, and each matches the other in the filter; in the model they are two entries and neither matches the other. The model agrees with Swift on normalised text.
- The store invariant says each task object is stored once. It does not say that task ids are unique, because `UUID()` is a parameter here and its uniqueness is not modelled.
- `Date()`, `Calendar.current.startOfDay(for: Date())` and `UUID()` are parameters (`now`, `startOfToday`, `id`). Time zones and calendars are not modelled.
- The date picker shows only the date part (`displayedComponents: .date`), but the model stores the whole picked value. Time-of-day truncation is not modelled.
- TodoApp/TodoApp/TodoAppApp.swift, TodoApp/TodoApp/ContentView.swift and TodoApp/TodoApp/Item.swift are not part of this model: they are app bootstrap, a navigation wrapper and an unused template model.
