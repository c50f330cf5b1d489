/**
  The state of the App component (src/App.js): the task list and the
  current page, which the handlers replace one step at a time, and the
  browser storage the save-on-change effect writes. Each handler is one
  atomic step: it replaces `tasks`, and then the effect on `[tasks]` runs.
*/
module Board {
  import opened Tasks
  import Pagination

  class TaskBoard {
    var tasks: seq<Task>
    var currentPage: int
    /** What `localStorage` holds under the key "tasks"; None when nothing was ever saved. */
    ghost var stored: Option<seq<Task>>

    /**
      The page number never drops below 1, and after every step a
      non-empty list is what storage holds.
    */
    ghost predicate Valid()
      reads this
    {
      && currentPage >= 1
      && (tasks != [] ==> stored == Some(tasks))
    }

    /**
      Mounting the component: the list starts empty, the load effect puts
      the stored list in place if there is one, and the save effect, seeing
      first the empty list and then the loaded one, writes back the same list.
    */
    constructor (storage: Option<seq<Task>>)
      ensures Valid()
      ensures currentPage == 1
      ensures tasks == (if storage.Some? then storage.value else [])
      ensures stored == storage
    {
      tasks := if storage.Some? then storage.value else [];
      currentPage := 1;
      stored := storage;
    }

    /** The effect on `[tasks]`: write the whole list, but only when it is non-empty. */
    method SaveOnChange()
      modifies this`stored
      ensures stored == if tasks != [] then Some(tasks) else old(stored)
    {
      if |tasks| > 0 {
        stored := Some(tasks);
      }
    }

    /**
      `addTask`; `freshId` is what `uuidv4()` returned, assumed distinct
      from every id in the list. `ok` is false when the alert is shown
      instead, and then nothing changes.
    */
    method AddTask(task: string, date: string, dueDate: string, freshId: string) returns (ok: bool)
      requires Valid()
      requires !HasId(tasks, freshId)
      modifies this`tasks, this`stored
      ensures Valid()
      ensures ok == AllFieldsGiven(task, date, dueDate)
      ensures tasks == Tasks.AddTask(old(tasks), task, date, dueDate, freshId)
      ensures stored == if ok then Some(tasks) else old(stored)
      ensures Consistent(old(tasks)) ==> Consistent(tasks)
    {
      if !AllFieldsGiven(task, date, dueDate) {
        return false;
      }
      if Consistent(tasks) {
        AddTaskConsistent(tasks, task, date, dueDate, freshId);
      }
      tasks := Tasks.AddTask(tasks, task, date, dueDate, freshId);
      SaveOnChange();
      ok := true;
    }

    /**
      `deleteTask`, offered on every row. Deleting the last task leaves
      storage holding the list from before, deleted task included.
    */
    method DeleteTask(id: string)
      requires Valid()
      modifies this`tasks, this`stored
      ensures Valid()
      ensures tasks == Tasks.DeleteTask(old(tasks), id)
      ensures stored == if tasks != [] then Some(tasks) else old(stored)
      ensures old(tasks) != [] && tasks == [] ==> stored == Some(old(tasks))
      ensures Consistent(old(tasks)) ==> Consistent(tasks)
    {
      if Consistent(tasks) {
        DeleteConsistent(tasks, id);
      }
      tasks := Tasks.DeleteTask(tasks, id);
      SaveOnChange();
    }

    /** `markAsDone`, offered on the row of a task that is not done; `currentDate` is today's date. */
    method MarkAsDone(id: string, currentDate: string)
      requires Valid()
      requires exists t :: t in tasks && t.id == id && Offered(MarkDone(currentDate), t.status)
      modifies this`tasks, this`stored
      ensures Valid()
      ensures tasks == Tasks.MarkAsDone(old(tasks), id, currentDate)
      ensures stored == Some(tasks)
      ensures Consistent(old(tasks)) ==> Consistent(tasks)
    {
      if Consistent(tasks) {
        UpdateConsistent(tasks, id, MarkDone(currentDate));
      }
      tasks := Tasks.MarkAsDone(tasks, id, currentDate);
      SaveOnChange();
    }

    /** `undoTask`, offered on the row of a done task. */
    method UndoTask(id: string)
      requires Valid()
      requires exists t :: t in tasks && t.id == id && Offered(Undo, t.status)
      modifies this`tasks, this`stored
      ensures Valid()
      ensures tasks == Tasks.UndoTask(old(tasks), id)
      ensures stored == Some(tasks)
      ensures Consistent(old(tasks)) ==> Consistent(tasks)
    {
      if Consistent(tasks) {
        UpdateConsistent(tasks, id, Undo);
      }
      tasks := Tasks.UndoTask(tasks, id);
      SaveOnChange();
    }

    /** `toggleStatus`, offered on the row of a pending or held task. */
    method ToggleStatus(id: string)
      requires Valid()
      requires exists t :: t in tasks && t.id == id && Offered(Toggle, t.status)
      modifies this`tasks, this`stored
      ensures Valid()
      ensures tasks == Tasks.ToggleStatus(old(tasks), id)
      ensures stored == Some(tasks)
      ensures Consistent(old(tasks)) ==> Consistent(tasks)
    {
      if Consistent(tasks) {
        OfferedForAllMatches(tasks, id, Toggle);
        forall t | t in tasks && t.id == id ensures DoneDateMatchesStatus(ApplyEdit(Toggle, t)) {
          OfferedEditFollowsLifecycle(Toggle, t);
        }
        UpdateConsistent(tasks, id, Toggle);
      }
      tasks := Tasks.ToggleStatus(tasks, id);
      SaveOnChange();
    }

    /**
      `updateDueDate`, reachable only from the date input of a task that is
      not done; a done task's due date is therefore left alone.
    */
    method UpdateDueDate(id: string, newDueDate: string)
      requires Valid()
      requires exists t :: t in tasks && t.id == id && Offered(SetDueDate(newDueDate), t.status)
      modifies this`tasks, this`stored
      ensures Valid()
      ensures tasks == Tasks.UpdateDueDate(old(tasks), id, newDueDate)
      ensures stored == Some(tasks)
      ensures UniqueIds(old(tasks)) ==>
        forall i :: 0 <= i < |tasks| && old(tasks)[i].status == Done ==> tasks[i] == old(tasks)[i]
      ensures Consistent(old(tasks)) ==> Consistent(tasks)
    {
      var next := Tasks.UpdateDueDate(tasks, id, newDueDate);
      if UniqueIds(tasks) {
        DoneTaskDueDateFrozen(tasks, id, newDueDate);
      }
      if Consistent(tasks) {
        UpdateConsistent(tasks, id, SetDueDate(newDueDate));
      }
      tasks := next;
      SaveOnChange();
    }

    /** `nextPage`: one page on, only while tasks lie beyond the current page. */
    method NextPage()
      requires Valid()
      modifies this`currentPage
      ensures Valid()
      ensures currentPage == if Pagination.HasNext(old(currentPage), |tasks|)
                             then old(currentPage) + 1 else old(currentPage)
      ensures currentPage != old(currentPage) ==> Pagination.CurrentTasks(tasks, currentPage) != []
    {
      if currentPage * Pagination.TasksPerPage < |tasks| {
        Pagination.NextPageNonEmpty(tasks, currentPage);
        currentPage := currentPage + 1;
      }
    }

    /** `prevPage`: one page back, never below page 1. */
    method PrevPage()
      requires Valid()
      modifies this`currentPage
      ensures Valid()
      ensures currentPage == if Pagination.HasPrev(old(currentPage))
                             then old(currentPage) - 1 else old(currentPage)
    {
      if currentPage > 1 {
        currentPage := currentPage - 1;
      }
    }

    /**
      What the table shows: the rows of the current page, the page count,
      and whether "Previous" and "Next" are enabled. Changes nothing.
    */
    method View() returns (rows: seq<Task>, pageCount: nat, prevEnabled: bool, nextEnabled: bool)
      requires Valid()
      ensures |rows| <= Pagination.TasksPerPage
      ensures rows == tasks[Pagination.Min((currentPage - 1) * Pagination.TasksPerPage, |tasks|)
                            ..Pagination.Min(currentPage * Pagination.TasksPerPage, |tasks|)]
      ensures pageCount == Pagination.PageCount(|tasks|)
      ensures tasks != [] ==> pageCount >= 1
      ensures pageCount * Pagination.TasksPerPage >= |tasks|
      ensures prevEnabled <==> Pagination.HasPrev(currentPage)
      ensures nextEnabled <==> Pagination.HasNext(currentPage, |tasks|)
      ensures nextEnabled <==> currentPage < pageCount
    {
      rows := Pagination.CurrentTasks(tasks, currentPage);
      pageCount := Pagination.PageCount(|tasks|);
      prevEnabled := currentPage != 1;
      nextEnabled := !(currentPage * Pagination.TasksPerPage >= |tasks|);
      Pagination.HasNextIffMorePages(currentPage, |tasks|);
    }
  }

  /**
    The scenario of one task: add it, mark it done on a later day, undo.
    The task ends pending with no done date and its due date untouched.
  */
  method BuyMilkScenario() returns (final: seq<Task>)
    ensures final == [Task("id-1", "Buy milk", "2024-01-01", "2024-01-05", Pending, None)]
  {
    var board := new TaskBoard(None);
    var ok := board.AddTask("Buy milk", "2024-01-01", "2024-01-05", "id-1");
    assert ok && |board.tasks| == 1 && board.tasks[0].status == Pending;
    assert board.tasks[0] in board.tasks;
    board.MarkAsDone("id-1", "2024-01-10");
    assert board.tasks[0].status == Done && board.tasks[0].doneDate == Some("2024-01-10");
    assert board.tasks[0] in board.tasks;
    board.UndoTask("id-1");
    assert board.stored == Some(board.tasks);
    final := board.tasks;
  }
}
