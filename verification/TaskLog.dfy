/** What a task store means: an append-only list of tasks whose statuses may change in place. */
module TaskLog {
  import opened Wrappers
  import opened KeyedSequences

  datatype TaskStatus = Todo | InProgress | Done

  datatype TaskRecord = TaskRecord(id: int, goalId: int, title: string, status: string)

  function StatusToString(st: TaskStatus): string {
    match st
    case Todo => "todo"
    case InProgress => "in_progress"
    case Done => "done"
  }

  /** `TaskStatusFromString`; `None` stands for the exception on any other text. */
  function StatusFromString(text: string): (r: Option<TaskStatus>)
    ensures forall st :: r == Some(st) <==> StatusToString(st) == text
  {
    if text == "todo" then Some(Todo)
    else if text == "in_progress" then Some(InProgress)
    else if text == "done" then Some(Done)
    else None
  }

  /** The texts of the three statuses; the parser takes these and no others. */
  lemma {:induction false} StatusTexts(text: string)
    ensures StatusToString(Todo) == "todo"
    ensures StatusToString(InProgress) == "in_progress" && StatusToString(Done) == "done"
    ensures StatusFromString(text).None? <==> text != "todo" && text != "in_progress" && text != "done"
  {
  }

  function GoalOf(task: TaskRecord): int { task.goalId }

  function IdOf(task: TaskRecord): int { task.id }

  function Append(tasks: seq<TaskRecord>, goalId: int, title: string): seq<TaskRecord> {
    tasks + [TaskRecord(|tasks| + 1, goalId, title, "todo")]
  }

  function Lookup(tasks: seq<TaskRecord>, id: int): Option<TaskRecord> {
    if 1 <= id <= |tasks| then Some(tasks[id - 1]) else None
  }

  function OfGoal(tasks: seq<TaskRecord>, goalId: int): seq<TaskRecord> {
    Group(tasks, GoalOf, goalId)
  }

  /** The task exists and belongs to the goal it is addressed under. */
  predicate Addresses(tasks: seq<TaskRecord>, goalId: int, taskId: int) {
    1 <= taskId <= |tasks| && tasks[taskId - 1].goalId == goalId
  }

  function SetStatus(
    tasks: seq<TaskRecord>, goalId: int, taskId: int, status: string): (seq<TaskRecord>, Option<TaskRecord>) {
    if Addresses(tasks, goalId, taskId) then
      var updated := tasks[taskId - 1].(status := status);
      (tasks[taskId - 1 := updated], Some(updated))
    else (tasks, None)
  }

  /** Creating a task lengthens its goal's list by that task and leaves every other list alone. */
  lemma AppendOfGoal(tasks: seq<TaskRecord>, goalId: int, title: string, g: int)
    ensures OfGoal(Append(tasks, goalId, title), g)
         == if g == goalId then OfGoal(tasks, g) + [TaskRecord(|tasks| + 1, goalId, title, "todo")]
           else OfGoal(tasks, g)
  {
    GroupSnoc(tasks, TaskRecord(|tasks| + 1, goalId, title, "todo"), GoalOf, g);
  }

  /** A goal no task belongs to has an empty list. */
  lemma NoTaskOf(tasks: seq<TaskRecord>, goalId: int)
    requires forall i :: 0 <= i < |tasks| ==> tasks[i].goalId != goalId
    ensures OfGoal(tasks, goalId) == []
  {
    GroupOfStranger(tasks, GoalOf, goalId);
  }

  lemma NumberedIsSorted(tasks: seq<TaskRecord>)
    requires NumberedBy(tasks, IdOf)
    ensures StrictlySorted(tasks, IdOf)
  {
  }

  /** The task with a given id sits at its rank in its goal's list, and at no other position. */
  lemma PositionInGoal(tasks: seq<TaskRecord>, taskId: int, position: nat)
    requires NumberedBy(tasks, IdOf) && 1 <= taskId <= |tasks|
    requires position < |OfGoal(tasks, tasks[taskId - 1].goalId)|
    ensures OfGoal(tasks, tasks[taskId - 1].goalId)[position].id == taskId <==>
      position == Rank(tasks, GoalOf, taskId - 1)
  {
    NumberedIsSorted(tasks);
    GroupSorted(tasks, GoalOf, IdOf, tasks[taskId - 1].goalId);
    GroupAtRank(tasks, GoalOf, taskId - 1);
  }

  lemma {:induction false} AddressesIff(tasks: seq<TaskRecord>, goalId: int, taskId: int)
    requires NumberedBy(tasks, IdOf)
    ensures Addresses(tasks, goalId, taskId) <==>
            exists task :: task in tasks && task.id == taskId && task.goalId == goalId
  {
    if Addresses(tasks, goalId, taskId) {
      assert IdOf(tasks[taskId - 1]) == taskId && tasks[taskId - 1] in tasks;
    }
    if task :| task in tasks && task.id == taskId && task.goalId == goalId {
      var k :| 0 <= k < |tasks| && tasks[k] == task;
      assert IdOf(tasks[k]) == k + 1;
    }
  }

  /**
    An update finds exactly the task with that id, provided it belongs to the goal; it answers the record now
    stored, which differs from the former one in the status written, and leaves all others alone.
   */
  lemma {:induction false} UpdateWritesOne(
    tasks: seq<TaskRecord>, goalId: int, taskId: int, status: string, i: nat)
    requires NumberedBy(tasks, IdOf) && i < |tasks|
    ensures var (tasks', r) := SetStatus(tasks, goalId, taskId, status);
            && |tasks'| == |tasks|
            && (r.None? <==> forall task :: task in tasks ==> task.id != taskId || task.goalId != goalId)
            && (r.Some? ==> r.value in tasks' && r.value.id == taskId && r.value.status == status)
            && (r.Some? && tasks[i].id == taskId ==> tasks'[i] == r.value == tasks[i].(status := status))
            && (r.None? || tasks[i].id != taskId ==> tasks'[i] == tasks[i])
  {
    assert IdOf(tasks[i]) == i + 1;
    AddressesIff(tasks, goalId, taskId);
    if Addresses(tasks, goalId, taskId) {
      assert IdOf(tasks[taskId - 1]) == taskId;
      assert SetStatus(tasks, goalId, taskId, status).0[taskId - 1] in SetStatus(tasks, goalId, taskId, status).0;
    }
  }

  // ---- Runs ------------------------------------------------------------------------------------

  datatype Op =
    | Create(goalId: int, title: string, createdAt: int)
    | Update(goalUpdated: int, taskId: int, status: TaskStatus)
    | GetById(id: int)
    | GetByGoal(goal: int)

  datatype Answer =
    | Created(task: TaskRecord)
    | Found(result: Option<TaskRecord>)
    | Listed(tasks: seq<TaskRecord>)

  function Step(tasks: seq<TaskRecord>, op: Op): (seq<TaskRecord>, Answer) {
    match op
    case Create(goalId, title, _) =>
      (Append(tasks, goalId, title), Created(TaskRecord(|tasks| + 1, goalId, title, "todo")))
    case Update(goalId, taskId, status) =>
      var (tasks', r) := SetStatus(tasks, goalId, taskId, StatusToString(status));
      (tasks', Found(r))
    case GetById(id) => (tasks, Found(Lookup(tasks, id)))
    case GetByGoal(goalId) => (tasks, Listed(OfGoal(tasks, goalId)))
  }

  /** The tasks after the first `n` operations on an empty store. */
  function TasksAt(ops: seq<Op>, n: nat): seq<TaskRecord>
    requires n <= |ops|
  {
    if n == 0 then [] else Step(TasksAt(ops, n - 1), ops[n - 1]).0
  }

  /** How many of the first `n` operations create a task. */
  function Creations(ops: seq<Op>, n: nat): nat
    requires n <= |ops|
  {
    if n == 0 then 0 else Creations(ops, n - 1) + if ops[n - 1].Create? then 1 else 0
  }

  /** An operation adds at most one task, at the end, and touches nothing but the status of the task it addresses. */
  lemma StepKeepsTasks(tasks: seq<TaskRecord>, op: Op)
    requires NumberedBy(tasks, IdOf)
    ensures var after := Step(tasks, op).0;
            && NumberedBy(after, IdOf)
            && |after| == |tasks| + (if op.Create? then 1 else 0)
            && (forall i :: 0 <= i < |tasks| ==> after[i] == tasks[i].(status := after[i].status))
            && (forall i :: 0 <= i < |tasks| ==>
                  after[i].status == if op.Update? && op.taskId == i + 1 && op.goalUpdated == tasks[i].goalId
                                     then StatusToString(op.status) else tasks[i].status)
            && (op.Create? ==> after[|tasks|].status == "todo")
  {
  }

  lemma {:induction false} TasksAtNumbered(ops: seq<Op>, n: nat)
    requires n <= |ops|
    ensures NumberedBy(TasksAt(ops, n), IdOf) && |TasksAt(ops, n)| == Creations(ops, n)
  {
    if n > 0 {
      TasksAtNumbered(ops, n - 1);
      StepKeepsTasks(TasksAt(ops, n - 1), ops[n - 1]);
    }
  }

  lemma TaskSurvivesStep(tasks: seq<TaskRecord>, op: Op, i: nat)
    requires i < |tasks|
    ensures i < |Step(tasks, op).0|
    ensures var after := Step(tasks, op).0[i]; after == tasks[i].(status := after.status)
  {
  }

  /** Tasks are never lost, and never change id, goal or title, in any continuation of any run. */
  lemma {:induction false} TasksKeepTheirIdentity(ops: seq<Op>, m: nat, n: nat, i: nat)
    requires m <= n <= |ops| && i < |TasksAt(ops, m)|
    ensures i < |TasksAt(ops, n)|
    ensures var before, after := TasksAt(ops, m)[i], TasksAt(ops, n)[i];
            after == before.(status := after.status)
  {
    if m < n {
      TasksKeepTheirIdentity(ops, m, n - 1, i);
      TaskSurvivesStep(TasksAt(ops, n - 1), ops[n - 1], i);
    }
  }

  /** The status of a task is the last one set by an update addressed to it, or "todo". */
  function LastStatus(ops: seq<Op>, n: nat, taskId: int, goalId: int): string
    requires n <= |ops|
  {
    if n == 0 then "todo"
    else
      var op := ops[n - 1];
      if op.Update? && op.taskId == taskId && op.goalUpdated == goalId && taskId <= Creations(ops, n - 1)
      then StatusToString(op.status)
      else LastStatus(ops, n - 1, taskId, goalId)
  }

  lemma {:induction false} NoStatusBeforeCreation(ops: seq<Op>, n: nat, taskId: int, goalId: int)
    requires n <= |ops| && Creations(ops, n) < taskId
    ensures LastStatus(ops, n, taskId, goalId) == "todo"
  {
    if n > 0 {
      NoStatusBeforeCreation(ops, n - 1, taskId, goalId);
    }
  }

  lemma {:induction false} StatusIsLastWritten(ops: seq<Op>, n: nat, i: nat)
    requires n <= |ops| && i < |TasksAt(ops, n)|
    ensures var task := TasksAt(ops, n)[i];
            task.status == LastStatus(ops, n, task.id, task.goalId)
  {
    TasksAtNumbered(ops, n);
    TasksAtNumbered(ops, n - 1);
    StepKeepsTasks(TasksAt(ops, n - 1), ops[n - 1]);
    if i < |TasksAt(ops, n - 1)| {
      StatusIsLastWritten(ops, n - 1, i);
    } else {
      NoStatusBeforeCreation(ops, n - 1, i + 1, TasksAt(ops, n)[i].goalId);
    }
  }
}
