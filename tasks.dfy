/**
  The task records of the tracker and the list transformers of the App
  component (src/App.js). Each transformer builds a new list from the old
  one by validation and append, by `filter`, or by `map` over the tasks
  whose id matches; nothing is changed in place.
*/
module Tasks {

  datatype Option<T> = None | Some(value: T)

  /** The three values the source ever stores in a task's `status`. */
  datatype Status = Pending | Hold | Done

  /**
    A task record as `addTask` builds it: `task` is the description and
    `date` the creation date. `doneDate` is absent (`undefined`) until the
    task is marked done.
  */
  datatype Task = Task(id: string, task: string, date: string, dueDate: string,
                       status: Status, doneDate: Option<string>)

  predicate HasId(tasks: seq<Task>, id: string) {
    exists t :: t in tasks && t.id == id
  }

  predicate UniqueIds(tasks: seq<Task>) {
    forall i, j :: 0 <= i < j < |tasks| ==> tasks[i].id != tasks[j].id
  }

  /** A done date is recorded exactly when the task is done. */
  predicate DoneDateMatchesStatus(t: Task) {
    t.doneDate.Some? <==> t.status == Done
  }

  /** The invariants every handler keeps of the whole collection. */
  predicate Consistent(tasks: seq<Task>) {
    UniqueIds(tasks) && forall t :: t in tasks ==> DoneDateMatchesStatus(t)
  }

  // ---------------------------------------------------------------------
  // addTask

  /** The guard `!task || !date || !dueDate` fails: no field is the empty string. */
  predicate AllFieldsGiven(task: string, date: string, dueDate: string) {
    task != [] && date != [] && dueDate != []
  }

  /**
    `addTask` with the form's three fields and the id that `uuidv4()`
    would have produced. A missing field leaves the list as it was (the
    source shows an alert instead).
  */
  function AddTask(tasks: seq<Task>, task: string, date: string, dueDate: string,
                   freshId: string): (r: seq<Task>)
    ensures !AllFieldsGiven(task, date, dueDate) ==> r == tasks
    ensures AllFieldsGiven(task, date, dueDate) ==>
      && |r| == |tasks| + 1
      && r[..|tasks|] == tasks
      && r[|tasks|].id == freshId
      && r[|tasks|].task == task
      && r[|tasks|].date == date
      && r[|tasks|].dueDate == dueDate
      && r[|tasks|].status == Pending
      && r[|tasks|].doneDate == None
  {
    if !AllFieldsGiven(task, date, dueDate) then tasks
    else tasks + [Task(freshId, task, date, dueDate, Pending, None)]
  }

  /** Adding keeps the collection consistent exactly when the new id is fresh. */
  lemma AddTaskConsistent(tasks: seq<Task>, task: string, date: string, dueDate: string,
                          freshId: string)
    requires Consistent(tasks)
    requires AllFieldsGiven(task, date, dueDate)
    ensures Consistent(AddTask(tasks, task, date, dueDate, freshId)) <==> !HasId(tasks, freshId)
  {
    var r := AddTask(tasks, task, date, dueDate, freshId);
    if HasId(tasks, freshId) {
      var t :| t in tasks && t.id == freshId;
      var i :| 0 <= i < |tasks| && tasks[i] == t;
      assert r[i] == tasks[i];
      assert r[i].id == r[|tasks|].id;
    } else {
      forall i, j | 0 <= i < j < |r| ensures r[i].id != r[j].id {
        if j == |tasks| {
          assert r[i] == tasks[i];
          assert tasks[i] in tasks;
        } else {
          assert r[i] == tasks[i] && r[j] == tasks[j];
        }
      }
      forall t | t in r ensures DoneDateMatchesStatus(t) {
        if t !in tasks {
          assert t == r[|tasks|];
        }
      }
    }
  }

  /** The fields of one task the user fills in, with its fresh id. */
  datatype NewTaskInput = NewTaskInput(id: string, task: string, date: string, dueDate: string)

  /** A series of `addTask` calls, one after another. */
  function AddAll(tasks: seq<Task>, inputs: seq<NewTaskInput>): seq<Task>
    decreases |inputs|
  {
    if inputs == [] then tasks
    else
      var n := inputs[0];
      AddAll(AddTask(tasks, n.task, n.date, n.dueDate, n.id), inputs[1..])
  }

  predicate AllValid(inputs: seq<NewTaskInput>) {
    forall k :: 0 <= k < |inputs| ==> AllFieldsGiven(inputs[k].task, inputs[k].date, inputs[k].dueDate)
  }

  /** The ids of the inputs differ from each other and from every id already in `tasks`. */
  predicate FreshIds(tasks: seq<Task>, inputs: seq<NewTaskInput>) {
    && (forall k :: 0 <= k < |inputs| ==> !HasId(tasks, inputs[k].id))
    && (forall k, m :: 0 <= k < m < |inputs| ==> inputs[k].id != inputs[m].id)
  }

  /**
    After a series of valid `addTask` calls the collection has grown by the
    number of calls, keeps the old tasks as its prefix, and stays
    consistent when every produced id was fresh.
  */
  lemma {:induction false} AddAllGrows(tasks: seq<Task>, inputs: seq<NewTaskInput>)
    requires AllValid(inputs)
    ensures |AddAll(tasks, inputs)| == |tasks| + |inputs|
    ensures AddAll(tasks, inputs)[..|tasks|] == tasks
    ensures Consistent(tasks) && FreshIds(tasks, inputs) ==> Consistent(AddAll(tasks, inputs))
    decreases |inputs|
  {
    if inputs != [] {
      var n := inputs[0];
      var next := AddTask(tasks, n.task, n.date, n.dueDate, n.id);
      assert AllValid(inputs[1..]) by {
        forall k | 0 <= k < |inputs[1..]|
          ensures AllFieldsGiven(inputs[1..][k].task, inputs[1..][k].date, inputs[1..][k].dueDate)
        {
          assert inputs[1..][k] == inputs[k + 1];
        }
      }
      AddAllGrows(next, inputs[1..]);
      assert AddAll(tasks, inputs) == AddAll(next, inputs[1..]);
      assert AddAll(tasks, inputs)[..|tasks|] == AddAll(next, inputs[1..])[..|next|][..|tasks|];
      if Consistent(tasks) && FreshIds(tasks, inputs) {
        AddTaskConsistent(tasks, n.task, n.date, n.dueDate, n.id);
        forall k | 0 <= k < |inputs[1..]| ensures !HasId(next, inputs[1..][k].id) {
          assert inputs[1..][k] == inputs[k + 1];
          forall t | t in next ensures t.id != inputs[k + 1].id {
            if t in tasks {
              assert !HasId(tasks, inputs[k + 1].id);
            } else {
              assert t == next[|tasks|];
            }
          }
        }
        forall k, m | 0 <= k < m < |inputs[1..]| ensures inputs[1..][k].id != inputs[1..][m].id {
          assert inputs[1..][k] == inputs[k + 1] && inputs[1..][m] == inputs[m + 1];
        }
      }
    }
  }

  // ---------------------------------------------------------------------
  // deleteTask

  /** `tasks.filter((t) => t.id !== id)`. */
  function DeleteTask(tasks: seq<Task>, id: string): (r: seq<Task>)
    ensures forall t :: t in r <==> t in tasks && t.id != id
    ensures |r| <= |tasks|
    decreases |tasks|
  {
    if tasks == [] then []
    else if tasks[0].id == id then DeleteTask(tasks[1..], id)
    else [tasks[0]] + DeleteTask(tasks[1..], id)
  }

  /**
    Together with `DeleteOne`, deleting distributes over concatenation:
    the kept tasks appear in their original relative order.
  */
  lemma {:induction false} DeleteAppend(a: seq<Task>, b: seq<Task>, id: string)
    ensures DeleteTask(a + b, id) == DeleteTask(a, id) + DeleteTask(b, id)
    decreases |a|
  {
    if a != [] {
      assert (a + b)[0] == a[0];
      assert (a + b)[1..] == a[1..] + b;
      DeleteAppend(a[1..], b, id);
      if a[0].id != id {
        assert DeleteTask(a + b, id) == [a[0]] + (DeleteTask(a[1..], id) + DeleteTask(b, id));
      }
    } else {
      assert a + b == b;
    }
  }

  lemma DeleteOne(t: Task, id: string)
    ensures DeleteTask([t], id) == if t.id == id then [] else [t]
  {
    assert [t][1..] == [];
  }

  /** Deleting an id that no task carries gives back the identical list. */
  lemma {:induction false} DeleteAbsent(tasks: seq<Task>, id: string)
    requires !HasId(tasks, id)
    ensures DeleteTask(tasks, id) == tasks
    decreases |tasks|
  {
    if tasks != [] {
      assert tasks[0] in tasks;
      assert !HasId(tasks[1..], id) by {
        forall t | t in tasks[1..] ensures t.id != id {
          assert t in tasks;
        }
      }
      DeleteAbsent(tasks[1..], id);
      assert tasks == [tasks[0]] + tasks[1..];
    }
  }

  /** With unique ids, no task but the one at index `k` carries its id. */
  lemma OthersLackId(tasks: seq<Task>, k: nat)
    requires UniqueIds(tasks)
    requires k < |tasks|
    ensures !HasId(tasks[..k], tasks[k].id)
    ensures !HasId(tasks[k + 1..], tasks[k].id)
  {
    forall t | t in tasks[..k] ensures t.id != tasks[k].id {
      var i :| 0 <= i < k && tasks[..k][i] == t;
      assert tasks[i] == t;
    }
    forall t | t in tasks[k + 1..] ensures t.id != tasks[k].id {
      var i :| 0 <= i < |tasks| - k - 1 && tasks[k + 1..][i] == t;
      assert tasks[k + 1 + i] == t;
    }
  }

  /** Deleting the id of the middle task, when the parts around it keep all their tasks, removes just that task. */
  lemma DeleteMiddle(prefix: seq<Task>, t: Task, suffix: seq<Task>)
    requires DeleteTask(prefix, t.id) == prefix && DeleteTask(suffix, t.id) == suffix
    ensures DeleteTask(prefix + [t] + suffix, t.id) == prefix + suffix
  {
    var id := t.id;
    DeleteAppend(prefix, [t] + suffix, id);
    DeleteAppend([t], suffix, id);
    DeleteOne(t, id);
    assert prefix + [t] + suffix == prefix + ([t] + suffix);
    assert [] + suffix == suffix;
  }

  /** With unique ids, deleting the id at index `k` removes that one task and nothing else. */
  lemma DeleteAt(tasks: seq<Task>, k: nat)
    requires UniqueIds(tasks)
    requires k < |tasks|
    ensures DeleteTask(tasks, tasks[k].id) == tasks[..k] + tasks[k + 1..]
  {
    var prefix, t, suffix := tasks[..k], tasks[k], tasks[k + 1..];
    OthersLackId(tasks, k);
    assert DeleteTask(prefix, t.id) == prefix by {
      DeleteAbsent(prefix, t.id);
    }
    assert DeleteTask(suffix, t.id) == suffix by {
      DeleteAbsent(suffix, t.id);
    }
    SplitAt(tasks, k);
    DeleteMiddle(prefix, t, suffix);
  }

  lemma SplitAt<T>(s: seq<T>, k: nat)
    requires k < |s|
    ensures s == s[..k] + [s[k]] + s[k + 1..]
  {
  }

  /** Uniqueness of ids over a list with one task in front. */
  lemma UniqueCons(t: Task, rest: seq<Task>)
    requires UniqueIds(rest)
    requires !HasId(rest, t.id)
    ensures UniqueIds([t] + rest)
  {
    var s := [t] + rest;
    forall i, j | 0 <= i < j < |s| ensures s[i].id != s[j].id {
      assert s[j] == rest[j - 1];
      if i == 0 {
        assert rest[j - 1] in rest;
      } else {
        assert s[i] == rest[i - 1];
      }
    }
  }

  lemma {:induction false} DeleteConsistent(tasks: seq<Task>, id: string)
    requires Consistent(tasks)
    ensures Consistent(DeleteTask(tasks, id))
    decreases |tasks|
  {
    if tasks != [] {
      var rest := tasks[1..];
      assert Consistent(rest) by {
        forall i, j | 0 <= i < j < |rest| ensures rest[i].id != rest[j].id {
          assert rest[i] == tasks[i + 1] && rest[j] == tasks[j + 1];
        }
        forall t | t in rest ensures DoneDateMatchesStatus(t) {
          assert t in tasks;
        }
      }
      DeleteConsistent(rest, id);
      if tasks[0].id != id {
        var r := DeleteTask(rest, id);
        assert !HasId(r, tasks[0].id) by {
          forall u | u in r ensures u.id != tasks[0].id {
            var j :| 0 <= j < |rest| && rest[j] == u;
            assert tasks[j + 1] == u;
          }
        }
        UniqueCons(tasks[0], r);
        assert tasks[0] in tasks;
      }
    }
  }

  // ---------------------------------------------------------------------
  // markAsDone, undoTask, toggleStatus, updateDueDate: map by id

  /** The change each `map` handler makes to a task whose id matches. */
  datatype Edit = MarkDone(currentDate: string) | Undo | Toggle | SetDueDate(newDueDate: string)

  /** No edit touches the id, the description or the creation date. */
  function ApplyEdit(e: Edit, t: Task): (r: Task)
    ensures r.id == t.id && r.task == t.task && r.date == t.date
  {
    match e
    case MarkDone(d) => t.(status := Done, doneDate := Some(d))
    case Undo => t.(status := Pending, doneDate := None)
    case Toggle => t.(status := if t.status == Pending then Hold else Pending)
    case SetDueDate(v) => t.(dueDate := v)
  }

  /** `tasks.map((t) => t.id === id ? edited(t) : t)`. */
  function UpdateById(tasks: seq<Task>, id: string, e: Edit): (r: seq<Task>)
    ensures |r| == |tasks|
    ensures forall i :: 0 <= i < |tasks| ==>
      r[i] == if tasks[i].id == id then ApplyEdit(e, tasks[i]) else tasks[i]
    decreases |tasks|
  {
    if tasks == [] then []
    else
      var head := if tasks[0].id == id then ApplyEdit(e, tasks[0]) else tasks[0];
      [head] + UpdateById(tasks[1..], id, e)
  }

  /** Every map-by-id handler keeps the ids in place, so unique ids stay unique. */
  lemma UpdateKeepsIds(tasks: seq<Task>, id: string, e: Edit)
    ensures forall i :: 0 <= i < |tasks| ==> UpdateById(tasks, id, e)[i].id == tasks[i].id
    ensures UniqueIds(tasks) ==> UniqueIds(UpdateById(tasks, id, e))
  {
  }

  /**
    Consistency survives a map-by-id handler when the edit keeps the done
    date in step with the status on every matching task.
  */
  lemma UpdateConsistent(tasks: seq<Task>, id: string, e: Edit)
    requires Consistent(tasks)
    requires forall t :: t in tasks && t.id == id ==> DoneDateMatchesStatus(ApplyEdit(e, t))
    ensures Consistent(UpdateById(tasks, id, e))
  {
    var r := UpdateById(tasks, id, e);
    UpdateKeepsIds(tasks, id, e);
    forall u | u in r ensures DoneDateMatchesStatus(u) {
      var i :| 0 <= i < |r| && r[i] == u;
      assert tasks[i] in tasks;
    }
  }

  /** `markAsDone(id)`: the matching tasks become done on `currentDate`; nothing else changes. */
  function MarkAsDone(tasks: seq<Task>, id: string, currentDate: string): (r: seq<Task>)
    ensures |r| == |tasks|
    ensures forall i :: 0 <= i < |tasks| && tasks[i].id != id ==> r[i] == tasks[i]
    ensures forall i :: 0 <= i < |tasks| && tasks[i].id == id ==>
      && r[i].status == Done && r[i].doneDate == Some(currentDate)
      && r[i].id == tasks[i].id && r[i].task == tasks[i].task
      && r[i].date == tasks[i].date && r[i].dueDate == tasks[i].dueDate
  {
    UpdateById(tasks, id, MarkDone(currentDate))
  }

  /** `undoTask(id)`: the matching tasks go back to pending with no done date. */
  function UndoTask(tasks: seq<Task>, id: string): (r: seq<Task>)
    ensures |r| == |tasks|
    ensures forall i :: 0 <= i < |tasks| && tasks[i].id != id ==> r[i] == tasks[i]
    ensures forall i :: 0 <= i < |tasks| && tasks[i].id == id ==>
      && r[i].status == Pending && r[i].doneDate == None
      && r[i].id == tasks[i].id && r[i].task == tasks[i].task
      && r[i].date == tasks[i].date && r[i].dueDate == tasks[i].dueDate
  {
    UpdateById(tasks, id, Undo)
  }

  /**
    `toggleStatus(id)`: a pending task goes on hold and any other matching
    task, a done one included, becomes pending; its done date is kept.
  */
  function ToggleStatus(tasks: seq<Task>, id: string): (r: seq<Task>)
    ensures |r| == |tasks|
    ensures forall i :: 0 <= i < |tasks| && tasks[i].id != id ==> r[i] == tasks[i]
    ensures forall i :: 0 <= i < |tasks| && tasks[i].id == id ==>
      && (tasks[i].status == Pending ==> r[i].status == Hold)
      && (tasks[i].status != Pending ==> r[i].status == Pending)
      && r[i].id == tasks[i].id && r[i].task == tasks[i].task && r[i].date == tasks[i].date
      && r[i].dueDate == tasks[i].dueDate && r[i].doneDate == tasks[i].doneDate
  {
    UpdateById(tasks, id, Toggle)
  }

  /** `updateDueDate(id, v)`: only the due date of the matching tasks changes, whatever their status. */
  function UpdateDueDate(tasks: seq<Task>, id: string, newDueDate: string): (r: seq<Task>)
    ensures |r| == |tasks|
    ensures forall i :: 0 <= i < |tasks| && tasks[i].id != id ==> r[i] == tasks[i]
    ensures forall i :: 0 <= i < |tasks| && tasks[i].id == id ==>
      && r[i].dueDate == newDueDate
      && r[i].id == tasks[i].id && r[i].task == tasks[i].task && r[i].date == tasks[i].date
      && r[i].status == tasks[i].status && r[i].doneDate == tasks[i].doneDate
  {
    UpdateById(tasks, id, SetDueDate(newDueDate))
  }

  /**
    Round trip: marking a pending task done and then undoing it restores
    the list exactly (the done date is cleared again).
  */
  lemma MarkDoneThenUndo(tasks: seq<Task>, id: string, currentDate: string)
    requires Consistent(tasks)
    requires forall t :: t in tasks && t.id == id ==> t.status == Pending
    ensures UndoTask(MarkAsDone(tasks, id, currentDate), id) == tasks
  {
    var r := UndoTask(MarkAsDone(tasks, id, currentDate), id);
    forall i | 0 <= i < |tasks| ensures r[i] == tasks[i] {
      assert tasks[i] in tasks;
    }
  }

  /** Toggling twice restores every list whose matching tasks are pending or on hold. */
  lemma ToggleTwice(tasks: seq<Task>, id: string)
    requires forall t :: t in tasks && t.id == id ==> t.status != Done
    ensures ToggleStatus(ToggleStatus(tasks, id), id) == tasks
  {
    var r := ToggleStatus(ToggleStatus(tasks, id), id);
    forall i | 0 <= i < |tasks| ensures r[i] == tasks[i] {
      assert tasks[i] in tasks;
    }
  }

  // ---------------------------------------------------------------------
  // The status lifecycle the table rows offer (src/App.js:152-185)

  /**
    Whether a row for a task in status `s` offers the edit: the due-date
    input and the "Done" button unless the task is done, the status button
    for pending and held tasks, and "Undo" for done ones. "Delete" is
    offered in every status. With three statuses this comes to: "Undo"
    exactly for a done task, every other edit exactly for one not done.
  */
  predicate Offered(e: Edit, s: Status): (r: bool)
    ensures e.Undo? ==> (r <==> s == Done)
    ensures !e.Undo? ==> (r <==> s != Done)
  {
    match e
    case MarkDone(_) => s != Done
    case Undo => s == Done
    case Toggle => s == Pending || s == Hold
    case SetDueDate(_) => s != Done
  }

  /** The status state machine: Pending <-> Hold, Pending/Hold -> Done, Done -> Pending. */
  predicate Transition(s: Status, s': Status) {
    || (s == Pending && s' == Hold)
    || (s == Hold && s' == Pending)
    || (s != Done && s' == Done)
    || (s == Done && s' == Pending)
  }

  /**
    Every edit a row offers either keeps the status (the due date) or
    makes one step of the state machine, and keeps the done date in step.
  */
  lemma OfferedEditFollowsLifecycle(e: Edit, t: Task)
    requires Offered(e, t.status)
    requires DoneDateMatchesStatus(t)
    ensures DoneDateMatchesStatus(ApplyEdit(e, t))
    ensures e.SetDueDate? <==> ApplyEdit(e, t).status == t.status
    ensures !e.SetDueDate? ==> Transition(t.status, ApplyEdit(e, t).status)
  {
  }

  /** Conversely, every step of the state machine is made by some offered edit. */
  lemma LifecycleReachable(t: Task, s': Status)
    requires Transition(t.status, s')
    ensures exists e :: Offered(e, t.status) && ApplyEdit(e, t).status == s'
  {
    if s' == Done {
      assert Offered(MarkDone(t.dueDate), t.status) && ApplyEdit(MarkDone(t.dueDate), t).status == s';
    } else if t.status == Done {
      assert Offered(Undo, t.status) && ApplyEdit(Undo, t).status == s';
    } else {
      assert Offered(Toggle, t.status) && ApplyEdit(Toggle, t).status == s';
    }
  }

  /**
    A row offered for a task in a consistent list: the task with that id
    is unique, so an edit offered for it is offered for every match.
  */
  lemma OfferedForAllMatches(tasks: seq<Task>, id: string, e: Edit)
    requires UniqueIds(tasks)
    requires exists t :: t in tasks && t.id == id && Offered(e, t.status)
    ensures forall t :: t in tasks && t.id == id ==> Offered(e, t.status)
  {
    var t :| t in tasks && t.id == id && Offered(e, t.status);
    forall u | u in tasks && u.id == id ensures Offered(e, u.status) {
      var i :| 0 <= i < |tasks| && tasks[i] == t;
      var j :| 0 <= j < |tasks| && tasks[j] == u;
      assert i == j;
    }
  }

  /**
    The due-date input is offered only for a task that is not done, so with
    unique ids editing it never changes a done task.
  */
  lemma DoneTaskDueDateFrozen(tasks: seq<Task>, id: string, newDueDate: string)
    requires UniqueIds(tasks)
    requires exists t :: t in tasks && t.id == id && Offered(SetDueDate(newDueDate), t.status)
    ensures forall i :: 0 <= i < |tasks| && tasks[i].status == Done ==>
      UpdateDueDate(tasks, id, newDueDate)[i] == tasks[i]
  {
    OfferedForAllMatches(tasks, id, SetDueDate(newDueDate));
    forall i | 0 <= i < |tasks| && tasks[i].status == Done
      ensures UpdateDueDate(tasks, id, newDueDate)[i] == tasks[i]
    {
      assert tasks[i] in tasks;
    }
  }
}
