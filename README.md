# Tasking app: the task-list state machine

A Dafny model of the `App` component of a single-screen React Native to-do
app. The component keeps four state cells: `modalVisible` (the edit
dialog), `task` (an ordered list of `{id, text, isChecked}`), `taskText`
(the draft shared by the input bar and the edit dialog) and `selectedTasks`
(checkbox state by id). Its handlers add a task, edit one by id, delete the
selected tasks, toggle a checkbox, open the dialog for a row, save the
dialog and dismiss it. Two views are derived from the state: the "no tasks"
placeholder and the delete button.

- `JsString.dfy`: JavaScript's `trim` and the whitespace it removes. The
  emptiness test of `addTask` is proved to hold exactly for blank drafts,
  that is, drafts that are empty or all whitespace.
- `TaskList.dfy`: the pure values the handlers build. These are the
  appended list, the `map` of `editTask`, the `filter` of `deleteTasks`,
  the object spread of `toggleCheckBox`, the `some` behind the delete
  button and the `find` of the save handler. It also holds the lemmas about
  them: ids stay unique, the filter keeps order and multiplicity, toggling
  is an involution on what the checkboxes show, and saving the draft back
  leaves the list unchanged.
- `App.dfy`: class `App` with the four cells as fields. Each handler is a
  method that assigns the cells through the functions above. The ghost
  invariant `Valid()` says ids are unique. Two client methods replay two
  usage scenarios: add, blank add, select, delete; and editing one of two
  tasks with the same text.

Notes on what the code does:
- The save handler throws when no task has the draft's text. `find`
  yields `undefined` and reading `.id` throws before any setter runs. `App.SaveEdit` returns `ok == false` and leaves every cell
  unchanged.
- The save handler searches by the draft and writes the same draft back.
  The text it writes is therefore the matched task's own text. With unique
  ids the list never changes (`TaskList.EditSameTextIsIdentity`).
- Saving does not set the dialog flag to false. It flips it
  (`setModalVisible(!modalVisible)`), so the flag becomes false only when
  the dialog was open.
- Dismissing the dialog flips `modalVisible` and does not clear the draft.

## Model

| member | source | states |
|---|---|---|
| `JsString.SkipLeading` | App.tsx:13 | the scan stops at the end of the draft or at a non-whitespace character, and everything it skipped is whitespace |
| `JsString.SkipTrailing` | App.tsx:13 | the backward scan stops at its lower bound or after a non-whitespace character, and everything it dropped is whitespace |
| `JsString.Trim` | App.tsx:13 | `trim()` neither starts nor ends with whitespace, and it is empty (falsy) iff the draft is empty or all whitespace |
| `TaskList.NewTask` | App.tsx:14 | the new task carries the fresh id and the raw, untrimmed draft, and is not checked |
| `TaskList.AppendKeepsUniqueIds` | App.tsx:14 | appending a task whose id is not in use keeps the ids unique |
| `TaskList.EditTask` | App.tsx:20 | the mapped list keeps the length and the id sequence; tasks with the id get the new text and keep their other fields; all other tasks are identical |
| `TaskList.EditKeepsUniqueIds` | App.tsx:20 | editing by id keeps the ids unique |
| `TaskList.EditSameTextIsIdentity` | App.tsx:114 | with unique ids, writing a task's own text back under its id gives the same list |
| `TaskList.Toggle` | App.tsx:29 | the entry for the id ends up present and holding the negation of the shown value; other entries are unchanged and no other key is added |
| `TaskList.ToggleTwice` | App.tsx:28-30 | toggling twice restores the value every checkbox shows (a missing entry shows false); it restores the map itself when the id had an entry, and otherwise leaves a `false` entry |
| `TaskList.AnySelected` | App.tsx:89 | `Object.values(...).some(v => v)` holds iff some id maps to true |
| `TaskList.KeepUnselected` | App.tsx:24 | the filtered list is an in-order subsequence of the list |
| `TaskList.KeepUnselectedCounts` | App.tsx:24 | each task occurs in the filtered list as often as in the list if its id is not selected, and not at all if it is |
| `TaskList.KeepUnselectedAppend` | App.tsx:24 | filtering distributes over concatenation, so the kept tasks keep their relative order |
| `TaskList.KeepUnselectedKeepsUniqueIds` | App.tsx:24 | deleting keeps the ids unique |
| `TaskList.FindByText` | App.tsx:114 | `find` gives None (`undefined`) iff no task has the text; otherwise the index of the first task with it |
| `TaskApp.App.constructor` | App.tsx:7-10 | initial state: dialog closed, no tasks, empty draft, empty selection |
| `TaskApp.App.SetTaskText` | App.tsx:48 | `onChangeText` stores the typed text as the draft |
| `TaskApp.App.AddTask` | App.tsx:12-17 | a blank draft leaves list and draft unchanged; otherwise exactly one unchecked task with the raw draft and the fresh id is appended and the draft becomes ""; the list changes iff the draft is not blank; ids stay unique |
| `TaskApp.App.EditTask` | App.tsx:19-21 | the list becomes the id-wise edit of the old one; ids stay unique |
| `TaskApp.App.DeleteTasks` | App.tsx:23-26 | the list becomes the filter of the old list by the old selection; the selection becomes empty and the delete button is hidden |
| `TaskApp.App.ToggleCheckBox` | App.tsx:28-30 | the selection becomes the toggle of the old one at the id |
| `TaskApp.App.BeginEdit` | App.tsx:77-80 | the draft becomes the row's text and the dialog opens; for a row of the list, `find` on the draft then succeeds |
| `TaskApp.App.Dismiss` | App.tsx:101-103 | only the dialog flag changes, and it is flipped |
| `TaskApp.App.SaveEdit` | App.tsx:113-116 | succeeds iff some task's text equals the draft; the list never changes; on success the flag flips and the draft becomes ""; on failure (the `.id` of `undefined`) no cell changes |
| `TaskApp.App.ShowPlaceholder` | App.tsx:59 | the placeholder shows iff the list is empty |
| `TaskApp.App.ShowDeleteButton` | App.tsx:89 | the delete button shows iff some id maps to true |
| `TaskApp.App.CheckBoxValue` | App.tsx:66 | a row without a selection entry shows unchecked; a row with an entry shows its value |
| `TaskApp.ToggleTwiceRestoresCheckBoxes` | App.tsx:66-67 | two toggles of one checkbox through the component leave every checkbox showing what it showed before |

## Left out

- Rendering: the JSX tree, `FlatList`, `Modal`, `CheckBox`, icons and the
  style sheet (App.tsx:32-125, 127-256). Only the two visibility
  conditions (lines 59 and 89) and the checkbox value (line 66) are
  modelled.
- `Date.now().toString()` is clock I/O. `App.AddTask` takes the id as a
  parameter and requires that no task already uses it. When two adds fall
  in the same millisecond, the clock gives the same id twice; the model
  does not cover that case.
- React's batching of `useState` updates and stale closures: each handler
  runs to completion and its setters apply in order. This matches the
  code, since no handler reads a cell after setting it.
- The uncaught `TypeError` of the save handler becomes `ok == false` with
  an unchanged state. What the runtime then does (an error screen) is not
  modelled.
- JavaScript strings are UTF-16 code units and Dafny strings are Unicode
  scalar values. Every character `trim` removes is a single code unit, so
  the emptiness test is the same. Text equality is modelled as equality of
  `seq<char>`.
- The `isChecked` field is stored as false on creation and never read, and
  the model does the same.
- `Selected` reads a missing map entry as false. In JavaScript, `{}[id]`
  is truthy when `id` names a property of `Object.prototype`, such as
  "toString" or "constructor". The model does not cover such ids. The ids
  the app creates are digit strings from `Date.now().toString()`, so they
  never have these names.
