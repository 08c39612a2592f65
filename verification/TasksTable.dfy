/** The tasks table driven by the repository's statements, and its simulation by the in-memory task list. */
module TasksTable {
  import opened Wrappers
  import opened KeyedSequences
  import opened TaskLog

  datatype Row = Row(task: TaskRecord, createdAt: int)

  /**
    The table keyed by its primary key, with the next value of its serial column and the ids of the rows of
    `goals`, which the column `goal_id` references. The service never writes to `goals`.
   */
  datatype Table = Table(rows: map<int, Row>, nextSerial: int, goalRows: set<int>)

  function NewTable(goalRows: set<int>): Table {
    Table(map[], 1, goalRows)
  }

  /** The width of the column `title`. */
  const TITLE_WIDTH: nat := 255

  predicate AllBlank(text: string) {
    forall i :: 0 <= i < |text| ==> text[i] == ' '
  }

  /** What a VARCHAR(255) column stores of a text: blanks beyond its width are cut off, anything else is refused. */
  function ColumnText(text: string): Option<string> {
    if |text| <= TITLE_WIDTH then Some(text)
    else if AllBlank(text[TITLE_WIDTH..]) then Some(text[..TITLE_WIDTH])
    else None
  }

  /**
    INSERT ... VALUES ($1, $2, 'todo') RETURNING ...; `None` is the exception raised by the foreign key or by the
    width of the title. A refused insert has used up its serial.
   */
  function Insert(t: Table, goalId: int, title: string, createdAt: int): (Table, Option<TaskRecord>) {
    if goalId in t.goalRows && ColumnText(title).Some? then
      var task := TaskRecord(t.nextSerial, goalId, ColumnText(title).value, "todo");
      (t.(rows := t.rows[t.nextSerial := Row(task, createdAt)], nextSerial := t.nextSerial + 1), Some(task))
    else (t.(nextSerial := t.nextSerial + 1), None)
  }

  /** SELECT ... WHERE id = $1 */
  function SelectById(t: Table, id: int): Option<TaskRecord> {
    if id in t.rows then Some(t.rows[id].task) else None
  }

  /** A row with this primary key and this goal exists. */
  predicate Matches(t: Table, taskId: int, goalId: int) {
    taskId in t.rows && t.rows[taskId].task.goalId == goalId
  }

  predicate KnownStatus(status: string) {
    status == "todo" || status == "in_progress" || status == "done"
  }

  /**
    `UpdateStatus(task_id, goal_id, new_status)`: guard, then UPDATE ... WHERE id = $1 AND goal_id = $2
    RETURNING ...
   */
  function UpdateStatusIn(t: Table, taskId: int, goalId: int, status: string): (Table, Option<TaskRecord>) {
    if !KnownStatus(status) then (t, None)
    else if Matches(t, taskId, goalId) then
      var row := t.rows[taskId].(task := t.rows[taskId].task.(status := status));
      (t.(rows := t.rows[taskId := row]), Some(row.task))
    else (t, None)
  }

  /**
    What SELECT ... WHERE goal_id = $1 ORDER BY created_at may return: each matching row once,
    in an order that never goes back in `created_at`.
   */
  ghost predicate SelectByGoal(t: Table, goalId: int, out: seq<TaskRecord>) {
    && (forall i :: 0 <= i < |out| ==>
          out[i].id in t.rows && t.rows[out[i].id].task == out[i] && out[i].goalId == goalId)
    && (forall id :: id in t.rows && t.rows[id].task.goalId == goalId ==> t.rows[id].task in out)
    && (forall i, j :: 0 <= i < j < |out| ==> out[i].id != out[j].id)
    && (forall i, j :: 0 <= i < j < |out| ==> t.rows[out[i].id].createdAt <= t.rows[out[j].id].createdAt)
  }

  /** The repository object: the statements above run against its table. */
  class TasksRepository {
    var table: Table

    constructor (goalRows: set<int>)
      ensures table == NewTable(goalRows)
    {
      table := NewTable(goalRows);
    }

    method CreateTask(goalId: int, title: string, createdAt: int) returns (r: Option<TaskRecord>)
      modifies this
      ensures (table, r) == Insert(old(table), goalId, title, createdAt)
    {
      var serial := table.nextSerial;
      table := table.(nextSerial := serial + 1);
      var stored := ColumnText(title);
      if goalId !in table.goalRows || stored.None? {
        return None;
      }
      var task := TaskRecord(serial, goalId, stored.value, "todo");
      table := table.(rows := table.rows[serial := Row(task, createdAt)]);
      return Some(task);
    }

    method UpdateStatus(taskId: int, goalId: int, newStatus: string) returns (r: Option<TaskRecord>)
      modifies this
      ensures (table, r) == UpdateStatusIn(old(table), taskId, goalId, newStatus)
    {
      if newStatus != "todo" && newStatus != "in_progress" && newStatus != "done" {
        return None;
      }
      if taskId !in table.rows || table.rows[taskId].task.goalId != goalId {
        return None;
      }
      var task := table.rows[taskId].task.(status := newStatus);
      table := table.(rows := table.rows[taskId := table.rows[taskId].(task := task)]);
      return Some(task);
    }
  }

  function TableStep(t: Table, op: Op): Table {
    match op
    case Create(goalId, title, createdAt) => Insert(t, goalId, title, createdAt).0
    case Update(goalId, taskId, status) => UpdateStatusIn(t, taskId, goalId, StatusToString(status)).0
    case _ => t
  }

  /** The answers the table may give to an operation; none to an insert it refuses. */
  ghost predicate TableAnswers(t: Table, op: Op, answer: Answer) {
    match op
    case Create(goalId, title, createdAt) =>
      Insert(t, goalId, title, createdAt).1.Some? && answer == Created(Insert(t, goalId, title, createdAt).1.value)
    case Update(goalId, taskId, status) => answer == Found(UpdateStatusIn(t, taskId, goalId, StatusToString(status)).1)
    case GetById(id) => answer == Found(SelectById(t, id))
    case GetByGoal(goalId) => answer.Listed? && SelectByGoal(t, goalId, answer.tasks)
  }

  /** The table after the first `n` operations on `start`. */
  function TableFrom(start: Table, ops: seq<Op>, n: nat): Table
    requires n <= |ops|
  {
    if n == 0 then start else TableStep(TableFrom(start, ops, n - 1), ops[n - 1])
  }

  function TableAt(goalRows: set<int>, ops: seq<Op>, n: nat): Table
    requires n <= |ops|
  {
    TableFrom(NewTable(goalRows), ops, n)
  }

  // ---- What every run keeps --------------------------------------------------------------------

  /** Rows are stored under their own ids, which the serial column has left behind, and reference rows of `goals`. */
  ghost predicate Sound(t: Table) {
    forall id :: id in t.rows ==>
      id < t.nextSerial && t.rows[id].task.id == id && t.rows[id].task.goalId in t.goalRows
  }

  /** `later` still holds the task, with any status. */
  ghost predicate StillHolds(later: Table, task: TaskRecord) {
    task.id in later.rows && later.rows[task.id].task == task.(status := later.rows[task.id].task.status)
  }

  /** Every run keeps a sound table sound, its goals the same and its tasks in place, but for their status. */
  lemma {:induction false} RunsKeepTasks(start: Table, ops: seq<Op>, n: nat, id: int)
    requires Sound(start) && n <= |ops|
    ensures Sound(TableFrom(start, ops, n)) && TableFrom(start, ops, n).goalRows == start.goalRows
    ensures id in start.rows ==> StillHolds(TableFrom(start, ops, n), start.rows[id].task)
  {
    if n > 0 {
      RunsKeepTasks(start, ops, n - 1, id);
    }
  }

  // ---- The list the table simulates ------------------------------------------------------------

  /** The creation stamp of the latest task created by the first `n` operations. */
  function LastStamp(ops: seq<Op>, n: nat): Option<int>
    requires n <= |ops|
  {
    if n == 0 then None else if ops[n - 1].Create? then Some(ops[n - 1].createdAt) else LastStamp(ops, n - 1)
  }

  /** `created_at` strictly increases from one insertion to the next. */
  ghost predicate StampsIncrease(ops: seq<Op>) {
    forall n :: 0 <= n < |ops| && ops[n].Create? && LastStamp(ops, n).Some? ==>
      LastStamp(ops, n).value < ops[n].createdAt
  }

  /** The table holds the list's tasks under ids 1, 2, 3, ..., stamped in that order. */
  ghost predicate Agrees(t: Table, tasks: seq<TaskRecord>) {
    && t.nextSerial == |tasks| + 1
    && NumberedBy(tasks, IdOf)
    && (forall id :: id in t.rows <==> 1 <= id <= |tasks|)
    && (forall id :: id in t.rows ==> t.rows[id].task == tasks[id - 1])
    && (forall i, j :: 1 <= i < j <= |tasks| ==> t.rows[i].createdAt < t.rows[j].createdAt)
  }

  ghost predicate StampedBefore(t: Table, last: Option<int>) {
    forall id :: id in t.rows ==> last.Some? && t.rows[id].createdAt <= last.value
  }

  lemma InsertKeepsAgreement(t: Table, tasks: seq<TaskRecord>, goalId: int, title: string, createdAt: int)
    requires Agrees(t, tasks) && forall id :: id in t.rows ==> t.rows[id].createdAt < createdAt
    requires goalId in t.goalRows && |title| <= TITLE_WIDTH
    ensures Agrees(Insert(t, goalId, title, createdAt).0, Append(tasks, goalId, title))
    ensures StampedBefore(Insert(t, goalId, title, createdAt).0, Some(createdAt))
  {
    var t', tasks' := Insert(t, goalId, title, createdAt).0, Append(tasks, goalId, title);
    assert NumberedBy(tasks', IdOf) by {
      assert forall i :: 0 <= i < |tasks| ==> IdOf(tasks[i]) == i + 1;
    }
    forall id | id in t'.rows
      ensures t'.rows[id].task == tasks'[id - 1] && t'.rows[id].createdAt <= createdAt
    {
    }
  }

  /** The list's update by a status text, which the store's parser must accept first. */
  function SetStatusText(
    tasks: seq<TaskRecord>, goalId: int, taskId: int, text: string): (seq<TaskRecord>, Option<TaskRecord>) {
    match StatusFromString(text)
    case None => (tasks, None)
    case Some(st) => SetStatus(tasks, goalId, taskId, StatusToString(st))
  }

  /** Whatever the text, the guarded update keeps the table and the list with its status parser in step. */
  lemma UpdateKeepsAgreement(t: Table, tasks: seq<TaskRecord>, goalId: int, taskId: int, text: string)
    requires Agrees(t, tasks)
    ensures Agrees(UpdateStatusIn(t, taskId, goalId, text).0, SetStatusText(tasks, goalId, taskId, text).0)
    ensures UpdateStatusIn(t, taskId, goalId, text).1 == SetStatusText(tasks, goalId, taskId, text).1
  {
    UpdateAnswersAgree(t, tasks, goalId, taskId, text);
    if KnownStatus(text) && Addresses(tasks, goalId, taskId) {
      WriteKeepsAgreement(t, tasks, taskId, text);
    }
  }

  /** Writing the same status to one task on both sides keeps them in step. */
  lemma WriteKeepsAgreement(t: Table, tasks: seq<TaskRecord>, taskId: int, status: string)
    requires Agrees(t, tasks) && 1 <= taskId <= |tasks|
    ensures var row := t.rows[taskId].(task := t.rows[taskId].task.(status := status));
            Agrees(t.(rows := t.rows[taskId := row]), tasks[taskId - 1 := tasks[taskId - 1].(status := status)])
  {
    var rows := t.rows[taskId := t.rows[taskId].(task := t.rows[taskId].task.(status := status))];
    var tasks' := tasks[taskId - 1 := tasks[taskId - 1].(status := status)];
    forall i | 0 <= i < |tasks'|
      ensures tasks'[i].id == i + 1 && rows[i + 1].task == tasks'[i] && rows[i + 1].createdAt == t.rows[i + 1].createdAt
    {
      assert IdOf(tasks[i]) == i + 1;
    }
    assert NumberedBy(tasks', IdOf);
  }

  lemma UpdateKeepsStamps(t: Table, goalId: int, taskId: int, status: string, last: Option<int>)
    requires StampedBefore(t, last)
    ensures StampedBefore(UpdateStatusIn(t, taskId, goalId, status).0, last)
  {
  }

  /** The WHERE clause of the update picks out the task the list addresses. */
  lemma UpdateAnswersAgree(t: Table, tasks: seq<TaskRecord>, goalId: int, taskId: int, text: string)
    requires Agrees(t, tasks)
    ensures Matches(t, taskId, goalId) <==> Addresses(tasks, goalId, taskId)
    ensures KnownStatus(text) <==> StatusFromString(text).Some?
    ensures UpdateStatusIn(t, taskId, goalId, text).1 == SetStatusText(tasks, goalId, taskId, text).1
  {
  }

  /** If the operation creates a task, it is for a row of `goals` and under a title that fits its column. */
  predicate Acceptable(goalRows: set<int>, op: Op) {
    op.Create? ==> op.goalId in goalRows && |op.title| <= TITLE_WIDTH
  }

  lemma {:induction false} TableFollowsList(goalRows: set<int>, ops: seq<Op>, n: nat)
    requires StampsIncrease(ops) && n <= |ops| && forall i :: 0 <= i < n ==> Acceptable(goalRows, ops[i])
    ensures Agrees(TableAt(goalRows, ops, n), TasksAt(ops, n)) && TableAt(goalRows, ops, n).goalRows == goalRows
    ensures StampedBefore(TableAt(goalRows, ops, n), LastStamp(ops, n))
  {
    if n > 0 {
      TableFollowsList(goalRows, ops, n - 1);
      var t, tasks, op := TableAt(goalRows, ops, n - 1), TasksAt(ops, n - 1), ops[n - 1];
      assert Acceptable(goalRows, op);
      match op
      case Create(goalId, title, createdAt) => InsertKeepsAgreement(t, tasks, goalId, title, createdAt);
      case Update(goalId, taskId, status) =>
        UpdateKeepsAgreement(t, tasks, goalId, taskId, StatusToString(status));
        UpdateKeepsStamps(t, goalId, taskId, StatusToString(status), LastStamp(ops, n - 1));
      case _ =>
    }
  }

  /** With distinct increasing stamps the ordered query has exactly one answer: the goal's tasks in id order. */
  lemma OrderedQueryIsGroup(t: Table, tasks: seq<TaskRecord>, goalId: int, out: seq<TaskRecord>)
    requires Agrees(t, tasks)
    ensures SelectByGoal(t, goalId, out) <==> out == OfGoal(tasks, goalId)
  {
    var own := OfGoal(tasks, goalId);
    NumberedIsSorted(tasks);
    GroupSorted(tasks, GoalOf, IdOf, goalId);
    GroupMembers(tasks, GoalOf, goalId);
    forall i | 0 <= i < |own|
      ensures own[i].id in t.rows && t.rows[own[i].id].task == own[i] && own[i].goalId == goalId
    {
      assert own[i] in own;
    }
    forall id | id in t.rows && t.rows[id].task.goalId == goalId
      ensures t.rows[id].task in own
    {
      assert tasks[id - 1] in tasks;
    }
    assert SelectByGoal(t, goalId, own);
    if SelectByGoal(t, goalId, out) {
      OrderedAnswersAreSorted(t, tasks, goalId, out);
      forall x
        ensures x in out <==> x in own
      {
        if x in out {
          var i :| 0 <= i < |out| && out[i] == x;
          assert tasks[x.id - 1] == x;
        }
        if x in own {
          assert tasks[x.id - 1] == x;
        }
      }
      SortedUnique(out, own, IdOf);
    }
  }

  lemma OrderedAnswersAreSorted(t: Table, tasks: seq<TaskRecord>, goalId: int, out: seq<TaskRecord>)
    requires Agrees(t, tasks) && SelectByGoal(t, goalId, out)
    ensures StrictlySorted(out, IdOf)
  {
    forall i, j | 0 <= i < j < |out|
      ensures out[i].id < out[j].id
    {
      assert out[i].id in t.rows && out[j].id in t.rows;
    }
  }

  /**
    As long as every insert was acceptable, every answer the table may give is the list's answer, and that answer is
    one it may give; to an insert that is not it never gives the list's answer.
   */
  lemma {:induction false} StoreSimulatesTable(goalRows: set<int>, ops: seq<Op>, i: nat, answer: Answer)
    requires StampsIncrease(ops) && i < |ops| && forall k :: 0 <= k < i ==> Acceptable(goalRows, ops[k])
    ensures Acceptable(goalRows, ops[i]) ==>
              (TableAnswers(TableAt(goalRows, ops, i), ops[i], answer) <==> answer == Step(TasksAt(ops, i), ops[i]).1)
    ensures !Acceptable(goalRows, ops[i]) ==>
              !TableAnswers(TableAt(goalRows, ops, i), ops[i], Step(TasksAt(ops, i), ops[i]).1)
  {
    TableFollowsList(goalRows, ops, i);
    AnswersAgree(TableAt(goalRows, ops, i), TasksAt(ops, i), ops[i], answer);
  }

  /** The table gives exactly the list's answers throughout a run iff every insert is acceptable. */
  lemma {:induction false} StoreSimulatesTableIff(goalRows: set<int>, ops: seq<Op>)
    requires StampsIncrease(ops)
    ensures (forall i, answer :: 0 <= i < |ops| ==>
               (TableAnswers(TableAt(goalRows, ops, i), ops[i], answer) <==> answer == Step(TasksAt(ops, i), ops[i]).1))
       <==> (forall i :: 0 <= i < |ops| ==> Acceptable(goalRows, ops[i]))
  {
    if forall i :: 0 <= i < |ops| ==> Acceptable(goalRows, ops[i]) {
      forall i, answer | 0 <= i < |ops|
        ensures TableAnswers(TableAt(goalRows, ops, i), ops[i], answer) <==>
                answer == Step(TasksAt(ops, i), ops[i]).1
      {
        StoreSimulatesTable(goalRows, ops, i, answer);
      }
    } else {
      var i := FirstStray(goalRows, ops, |ops|);
      StoreSimulatesTable(goalRows, ops, i, Step(TasksAt(ops, i), ops[i]).1);
    }
  }

  /** The first insert that is not acceptable. */
  lemma {:induction false} FirstStray(goalRows: set<int>, ops: seq<Op>, n: nat) returns (i: nat)
    requires n <= |ops| && exists k :: 0 <= k < n && !Acceptable(goalRows, ops[k])
    ensures i < n && !Acceptable(goalRows, ops[i]) && forall k :: 0 <= k < i ==> Acceptable(goalRows, ops[k])
  {
    if k :| 0 <= k < n - 1 && !Acceptable(goalRows, ops[k]) {
      i := FirstStray(goalRows, ops, n - 1);
    } else {
      i := n - 1;
    }
  }

  lemma AnswersAgree(t: Table, tasks: seq<TaskRecord>, op: Op, answer: Answer)
    requires Agrees(t, tasks)
    ensures Acceptable(t.goalRows, op) ==> (TableAnswers(t, op, answer) <==> answer == Step(tasks, op).1)
    ensures !Acceptable(t.goalRows, op) ==> !TableAnswers(t, op, Step(tasks, op).1)
  {
    match op
    case GetByGoal(goalId) =>
      if answer.Listed? {
        OrderedQueryIsGroup(t, tasks, goalId, answer.tasks);
      }
    case Update(goalId, taskId, status) => UpdateAnswersAgree(t, tasks, goalId, taskId, StatusToString(status));
    case _ =>
  }

  // ---- The handler's call ----------------------------------------------------------------------

  /**
    The update handler passes the goal id and the task id to `UpdateStatus(task_id, goal_id, new_status)`
    in the opposite order.
   */
  function HandlerUpdate(t: Table, goalId: int, taskId: int, status: string): (Table, Option<TaskRecord>) {
    UpdateStatusIn(t, goalId, taskId, status)
  }

  /**
    The swapped call does what the path asks for exactly when the status is unknown, the two ids are
    equal, or neither order of the ids names a row.
   */
  lemma SwappedUpdateCorrectIff(t: Table, goalId: int, taskId: int, status: string)
    ensures HandlerUpdate(t, goalId, taskId, status) == UpdateStatusIn(t, taskId, goalId, status) <==>
            (!KnownStatus(status) || goalId == taskId || (!Matches(t, taskId, goalId) && !Matches(t, goalId, taskId)))
  {
  }
}
