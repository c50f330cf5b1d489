# Task tracker state engine

A Dafny model of the task state engine of a small React task tracker
(the `App` component in `src/App.js`). A task has an id, a description
(`task`), a creation date (`date`), a due date, a status (`Pending`, `Hold`
or `Done`) and, once done, a done date. The component keeps the list of
tasks and the current page number as state, replaces the list through six
handlers (`addTask`, `deleteTask`, `markAsDone`, `undoTask`, `toggleStatus`,
`updateDueDate`), shows ten tasks per page with "Previous"/"Next" buttons,
and writes the list to browser storage after each change, unless the list
is empty.

The model has three modules:

- `Tasks` (`tasks.dfy`): the `Task` record and the six list transformers as
  pure functions on `seq<Task>`. The four `map`-by-id handlers share
  `UpdateById` over an `Edit` value. The lemmas cover consistency (unique
  ids, and a done date exactly when done), the mark-done/undo round trip,
  toggling twice, deletion order, and the status lifecycle that the table
  rows offer.
- `Pagination` (`pagination.dfy`): the current-page slice, including the
  index clamping of JavaScript's `Array.prototype.slice`. Also the page
  count `Math.ceil(n / 10)`, the two button guards, and lemmas that the pages
  cover the list once, in order.
- `Board` (`board.dfy`): class `TaskBoard`, holding `tasks`, `currentPage`
  and a ghost `stored` that stands for the stored list. Each handler is a
  method that replaces `tasks` and then runs the save-on-change guard.
  `Valid()` says that the page is at least 1 and that a non-empty list is
  what storage holds.

Side inputs become parameters:

- the id `uuidv4()` would return (`freshId`, required to be absent from the list);
- today's date that `markAsDone` reads from the clock (`currentDate`);
- the stored list at mount time (the constructor's `storage`).

The model follows the code as written, including where a reader might expect more checking:

- `updateDueDate` does not look at the status, so it would change a done
  task's due date. Only the UI prevents this: a done task's row shows no
  date input. `Tasks.UpdateDueDate` changes the due date whatever the
  status. The UI's restriction is the precondition of
  `Board.TaskBoard.UpdateDueDate`.
- `markAsDone`, `undoTask` and `toggleStatus` do not check the status
  either. `toggleStatus` on a done task would make it `Pending` and keep
  its done date, and `undoTask` on a held task would make it `Pending`. The rows offer each handler only in the statuses given by
  `Tasks.Offered`. The class methods require this.
- The page count is `Math.ceil(n / 10)`, which is 0 for an empty list. It
  is shown only when the list is non-empty, and then it is at least 1.
- `prevPage` and `nextPage` never clamp the page after deletions shrink
  the list. The model leaves the page where it is.
- Deleting the last task writes nothing, so storage keeps the list from
  before, deleted task included (`Board.TaskBoard.DeleteTask`).

## Model

| member | source | states |
|---|---|---|
| `Tasks.AddTask` | src/App.js:25-36 | with an empty description, date or due date the list is unchanged; otherwise it is one longer, keeps the old list as prefix, and its last task has the given fields, the fresh id, status Pending and no done date |
| `Tasks.AddTaskConsistent` | src/App.js:27-34 | a valid add keeps the list consistent (unique ids, done date exactly when done) if and only if the new id is not already present |
| `Tasks.AddAllGrows` | src/App.js:25-36 | after a series of valid adds the list has grown by the number of calls, keeps the old prefix, and stays consistent when the ids were fresh and distinct |
| `Tasks.DeleteTask` | src/App.js:38-40 | a task is in the result exactly when it was in the list and its id differs; the result is no longer than the list |
| `Tasks.DeleteAppend` | src/App.js:38-40 | deleting distributes over concatenation, so the kept tasks keep their relative order |
| `Tasks.DeleteOne` | src/App.js:39 | a one-task list loses its task exactly when the id matches |
| `Tasks.DeleteAbsent` | src/App.js:38-40 | deleting an id no task carries gives back the identical list |
| `Tasks.DeleteMiddle` | src/App.js:38-40 | when no task around it carries the middle task's id, deleting that id removes exactly the middle task |
| `Tasks.DeleteAt` | src/App.js:38-40 | with unique ids, deleting the id of task k gives the list with exactly position k removed |
| `Tasks.DeleteConsistent` | src/App.js:38-40 | deleting keeps a consistent list consistent |
| `Tasks.ApplyEdit` | src/App.js:42-75 | no map-by-id edit changes a task's id, description or creation date |
| `Tasks.UpdateById` | src/App.js:44-48 | the map keeps the length and position of every task; matching tasks are edited and all others unchanged |
| `Tasks.UpdateKeepsIds` | src/App.js:42-75 | map-by-id handlers keep every id in place, so unique ids stay unique |
| `Tasks.UpdateConsistent` | src/App.js:42-75 | a map-by-id handler keeps the list consistent when its edit keeps each matching task's done date in step with its status |
| `Tasks.MarkAsDone` | src/App.js:42-49 | matching tasks get status Done and done date `currentDate`, their other fields unchanged; all other tasks, the length and the order are unchanged |
| `Tasks.UndoTask` | src/App.js:51-55 | matching tasks get status Pending and no done date, their other fields unchanged; all other tasks unchanged |
| `Tasks.ToggleStatus` | src/App.js:58-69 | a matching Pending task becomes Hold, any other matching task (Done included) becomes Pending, keeping its done date; all other tasks unchanged |
| `Tasks.UpdateDueDate` | src/App.js:71-75 | only the due date of matching tasks changes, whatever their status |
| `Tasks.MarkDoneThenUndo` | src/App.js:42-55 | in a consistent list, marking pending tasks done and undoing restores the list exactly |
| `Tasks.ToggleTwice` | src/App.js:58-69 | toggling twice restores the list when the matching tasks are Pending or Hold |
| `Tasks.Offered` | src/App.js:152-185 | "Undo" is offered exactly for a Done task; "Done", the status button and the due-date input exactly for a task that is not Done |
| `Tasks.OfferedEditFollowsLifecycle` | src/App.js:152-185 | every edit a row offers keeps the done date in step with the status, keeps the status only for the due-date edit, and otherwise makes one step of Pending⇄Hold, Pending/Hold→Done, Done→Pending |
| `Tasks.LifecycleReachable` | src/App.js:164-185 | every step of that state machine is made by some edit the row offers |
| `Tasks.OfferedForAllMatches` | src/App.js:147-185 | with unique ids, an edit offered on the row of a task is offered for every task with that id |
| `Tasks.DoneTaskDueDateFrozen` | src/App.js:152-160 | with unique ids, a due-date change reachable from the date input never changes a Done task |
| `Pagination.RelativeIndex` | src/App.js:94 | a slice index lands in 0..n and a non-negative index is clipped to n |
| `Pagination.Slice` | src/App.js:94 | `slice` never returns more than the list, and for 0 <= start <= end it is the run from start to end clipped to the list's length |
| `Pagination.CurrentTasks` | src/App.js:91-94 | the current page holds at most 10 tasks and, for page p of at least 1, is the list from (p-1)*10 to p*10 clipped to its length |
| `Pagination.PageCount` | src/App.js:130 | the page count is the least number of 10-task pages holding the list: at least 1 for a non-empty list, 0 for an empty one |
| `Pagination.HasPrev` | src/App.js:104-108 | on a page of at least 1, the `prevPage` guard holds exactly when the "Previous" button (disabled at page 1, line 126) is enabled |
| `Pagination.HasNext` | src/App.js:97-101 | the `nextPage` guard holds exactly when the "Next" button's disabled test (line 132) fails, and from a page of at least 1 only when there are more than 10 tasks |
| `Pagination.HasNextIffMorePages` | src/App.js:132 | on a page of at least 1, "Next" is enabled exactly when the page is below the page count |
| `Pagination.NextPageNonEmpty` | src/App.js:97-101 | the page "Next" moves to is never empty |
| `Pagination.TaskOnItsPage` | src/App.js:92-94 | task i is row i mod 10 of page i/10 + 1, which lies within the page count |
| `Pagination.PagesArePrefix` | src/App.js:92-94 | pages 1 to k, one after another, are the first k*10 tasks in order |
| `Pagination.PagesCoverTasks` | src/App.js:92-130 | all pages together show every task once, in list order |
| `Pagination.TwentyFiveTasks` | src/App.js:88-108 | with 25 tasks: page 1 is tasks 1-10 with "Previous" off and "Next" on, 3 pages, page 3 is tasks 21-25 with "Next" off |
| `Board.TaskBoard.constructor` | src/App.js:12-17 | mounting loads the stored list if any, starts at page 1 and leaves storage untouched |
| `Board.TaskBoard.SaveOnChange` | src/App.js:19-23 | storage becomes the list when it is non-empty and is left alone otherwise |
| `Board.TaskBoard.AddTask` | src/App.js:25-36 | reports whether all fields were given, applies `Tasks.AddTask`, saves only on success, keeps consistency |
| `Board.TaskBoard.DeleteTask` | src/App.js:38-40 | applies `Tasks.DeleteTask`, saves a non-empty result and leaves storage untouched otherwise, so when the last task goes storage keeps the old list; keeps consistency |
| `Board.TaskBoard.MarkAsDone` | src/App.js:42-49 | offered for a task not yet done; applies `Tasks.MarkAsDone`, saves, keeps consistency |
| `Board.TaskBoard.UndoTask` | src/App.js:51-55 | offered for a done task; applies `Tasks.UndoTask`, saves, keeps consistency |
| `Board.TaskBoard.ToggleStatus` | src/App.js:58-69 | offered for a Pending or Hold task; applies `Tasks.ToggleStatus`, saves, keeps consistency |
| `Board.TaskBoard.UpdateDueDate` | src/App.js:71-75 | offered for a task not done; applies `Tasks.UpdateDueDate`, saves, leaves every Done task unchanged when ids are unique, keeps consistency |
| `Board.TaskBoard.NextPage` | src/App.js:97-101 | moves one page on exactly when tasks lie beyond the current page, onto a non-empty page; the page stays at least 1 |
| `Board.TaskBoard.PrevPage` | src/App.js:104-108 | moves one page back exactly when the page is above 1, so it never drops below 1 |
| `Board.TaskBoard.View` | src/App.js:88-135 | the rows shown are at most 10 and are the current page's slice; the page count is `Math.ceil(n / 10)`, covers the list and is at least 1 when there are tasks; "Previous" is enabled exactly when the `prevPage` guard holds and "Next" exactly when the `nextPage` guard holds, which is when the page is below the page count |
| `Board.BuyMilkScenario` | src/App.js:25-55 | adding "Buy milk" (2024-01-01, due 2024-01-05), marking it done on 2024-01-10 and undoing leaves one Pending task with no done date and its due date unchanged |

## Left out

- Rendering (JSX, CSS classes), the popup and its form fields, `closePopup` and `alert`: presentation only. A missing field is modelled by the unchanged list and `ok == false`.
- `localStorage` and `JSON.parse`/`JSON.stringify`: browser I/O and serialisation. Storage is the ghost field `stored`. `JSON.parse` on a malformed blob throws and nothing catches it; the model does not capture that failure.
- `uuidv4()`: a foreign call. Its id is the parameter `freshId`, required to be absent from the list.
- `new Date().toISOString()`: the clock and date formatting. The date is the parameter `currentDate`.
- `document.title`: a DOM side effect.
- React's hook scheduling: each handler is one atomic step, followed by the effect that saves the list.
- Task fields are strings whose format (ISO dates) the model does not check. The source does not check it either.
- Rows are offered per task in the full list, not only on the current page. Every row on the page is a task of the list.
- `Tasks.MarkDoneThenUndo`: the source tells a new task, which has no `doneDate` key, from an undone one, which has `doneDate: undefined`. The model gives both `None`, so "restores the list exactly" holds up to that difference. Rendering and JSON do not show it.
