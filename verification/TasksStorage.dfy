/** The in-memory task store: tasks indexed twice, by id and by goal. */
module TasksStorage {
  import opened Wrappers
  import opened KeyedSequences
  import opened TaskLog
  import Int64

  /** The two maps are exactly the two indexes of the task list. */
  ghost predicate Indexed(byId: map<int, TaskRecord>, byGoal: map<int, seq<TaskRecord>>, tasks: seq<TaskRecord>) {
    && NumberedBy(tasks, IdOf)
    && (forall id :: id in byId <==> 1 <= id <= |tasks|)
    && (forall id :: id in byId ==> byId[id] == tasks[id - 1])
    && (forall i :: 0 <= i < |tasks| ==> tasks[i].goalId in byGoal)
    && (forall g :: g in byGoal ==> byGoal[g] == OfGoal(tasks, g))
  }

  /** Adding a new task to both maps indexes the longer list. */
  lemma AppendKeepsIndexed(
    byId: map<int, TaskRecord>, byGoal: map<int, seq<TaskRecord>>, tasks: seq<TaskRecord>, task: TaskRecord)
    requires Indexed(byId, byGoal, tasks) && task.id == |tasks| + 1 && task.status == "todo"
    ensures var list := if task.goalId in byGoal then byGoal[task.goalId] else [];
            Indexed(byId[task.id := task], byGoal[task.goalId := list + [task]], Append(tasks, task.goalId, task.title))
  {
    hide OfGoal;
    if task.goalId !in byGoal {
      NoTaskOf(tasks, task.goalId);
    }
    assert NumberedBy(Append(tasks, task.goalId, task.title), IdOf) by {
      assert forall i :: 0 <= i < |tasks| ==> IdOf(tasks[i]) == i + 1;
    }
    var list := if task.goalId in byGoal then byGoal[task.goalId] else [];
    var byGoal' := byGoal[task.goalId := list + [task]];
    forall g | g in byGoal'
      ensures byGoal'[g] == OfGoal(Append(tasks, task.goalId, task.title), g)
    {
      AppendOfGoal(tasks, task.goalId, task.title, g);
    }
  }

  /** Writing a new status to a task in both maps indexes the updated list. */
  lemma UpdateKeepsIndexed(
    byId: map<int, TaskRecord>, byGoal: map<int, seq<TaskRecord>>, tasks: seq<TaskRecord>, updated: TaskRecord)
    requires Indexed(byId, byGoal, tasks) && updated.id in byId &&
      updated == byId[updated.id].(status := updated.status)
    ensures updated.goalId in byGoal && Rank(tasks, GoalOf, updated.id - 1) < |byGoal[updated.goalId]|
    ensures var list := byGoal[updated.goalId][Rank(tasks, GoalOf, updated.id - 1) := updated];
            Indexed(byId[updated.id := updated], byGoal[updated.goalId := list], tasks[updated.id - 1 := updated])
  {
    GroupUpdate(tasks, GoalOf, updated.id - 1, updated, updated.goalId);
    var list := byGoal[updated.goalId][Rank(tasks, GoalOf, updated.id - 1) := updated];
    var byGoal' := byGoal[updated.goalId := list];
    forall g | g in byGoal'
      ensures byGoal'[g] == OfGoal(tasks[updated.id - 1 := updated], g)
    {
      GroupUpdate(tasks, GoalOf, updated.id - 1, updated, g);
    }
  }

  class TasksStorage {
    var nextId: int
    var tasksById: map<int, TaskRecord>
    var tasksByGoal: map<int, seq<TaskRecord>>

    /** The tasks ever created, in id order, as they stand now. */
    ghost var tasks: seq<TaskRecord>

    ghost predicate Valid()
      reads this
    {
      nextId == |tasks| + 1 && Indexed(tasksById, tasksByGoal, tasks)
    }

    constructor ()
      ensures Valid() && tasks == []
    {
      nextId := 1;
      tasksById, tasksByGoal, tasks := map[], map[], [];
    }

    method CreateTask(goalId: int, title: string) returns (task: TaskRecord)
      requires Valid() && nextId < Int64.MAX
      modifies this
      ensures Valid() && tasks == Append(old(tasks), goalId, title) && task == tasks[|tasks| - 1]
      ensures task == TaskRecord(old(nextId), goalId, title, "todo") && tasks == old(tasks) + [task]
    {
      var id := nextId;
      nextId := nextId + 1;
      task := TaskRecord(id, goalId, title, StatusToString(Todo));
      AppendKeepsIndexed(tasksById, tasksByGoal, tasks, task);
      assert id !in tasksById;
      assert Append(tasks, goalId, title) == tasks + [task];
      hide OfGoal, Indexed, Append, StatusToString;
      ghost var list := if goalId in tasksByGoal then tasksByGoal[goalId] else [];

      if id !in tasksById {
        tasksById := tasksById[id := task];
      }
      if goalId !in tasksByGoal {
        tasksByGoal := tasksByGoal[goalId := []];
      }
      tasksByGoal := tasksByGoal[goalId := tasksByGoal[goalId] + [task]];
      assert tasksByGoal == old(tasksByGoal)[goalId := list + [task]];
      tasks := Append(tasks, goalId, title);
    }

    method GetById(id: int) returns (r: Option<TaskRecord>)
      requires Valid()
      ensures r == Lookup(tasks, id)
      ensures r.Some? ==> r.value in tasks && r.value.id == id
      ensures r.None? ==> forall i :: 0 <= i < |tasks| ==> tasks[i].id != id
    {
      assert forall i :: 0 <= i < |tasks| ==> IdOf(tasks[i]) == i + 1;
      if id !in tasksById {
        return None;
      }
      return Some(tasksById[id]);
    }

    method GetByGoal(goalId: int) returns (r: seq<TaskRecord>)
      requires Valid()
      ensures r == OfGoal(tasks, goalId)
      ensures forall task :: task in r <==> task in tasks && task.goalId == goalId
      ensures forall i, j :: 0 <= i < j < |r| ==> r[i].id < r[j].id
    {
      GroupMembers(tasks, GoalOf, goalId);
      NumberedIsSorted(tasks);
      GroupSorted(tasks, GoalOf, IdOf, goalId);
      if goalId !in tasksByGoal {
        NoTaskOf(tasks, goalId);
        return [];
      }
      return tasksByGoal[goalId];
    }

    method UpdateTaskStatus(goalId: int, taskId: int, newStatus: TaskStatus) returns (r: Option<TaskRecord>)
      requires Valid()
      modifies this
      ensures Valid() && nextId == old(nextId)
      ensures (tasks, r) == SetStatus(old(tasks), goalId, taskId, StatusToString(newStatus))
      ensures r.None? <==> forall task :: task in old(tasks) ==> task.id != taskId || task.goalId != goalId
      ensures r.None? ==> tasksById == old(tasksById) && tasksByGoal == old(tasksByGoal)
    {
      AddressesIff(tasks, goalId, taskId);
      if taskId !in tasksById {
        return None;
      }
      if tasksById[taskId].goalId != goalId {
        return None;
      }
      var updated := tasksById[taskId].(status := StatusToString(newStatus));
      UpdateKeepsIndexed(tasksById, tasksByGoal, tasks, updated);
      tasksById := tasksById[taskId := updated];

      if goalId in tasksByGoal {
        WriteStatusInList(goalId, taskId, newStatus, updated);
      }
      tasks := tasks[taskId - 1 := updated];
      return Some(updated);
    }

    /** The loop of `UpdateTaskStatus`: the first entry with the id is the task, and no other entry is touched. */
    method WriteStatusInList(goalId: int, taskId: int, newStatus: TaskStatus, ghost updated: TaskRecord)
      requires NumberedBy(tasks, IdOf) && 1 <= taskId <= |tasks| && tasks[taskId - 1].goalId == goalId
      requires goalId in tasksByGoal && tasksByGoal[goalId] == OfGoal(tasks, goalId)
      requires updated == tasks[taskId - 1].(status := StatusToString(newStatus))
      modifies `tasksByGoal
      ensures Rank(tasks, GoalOf, taskId - 1) < |old(tasksByGoal)[goalId]|
      ensures tasksByGoal
           == old(tasksByGoal)[goalId := old(tasksByGoal)[goalId][Rank(tasks, GoalOf, taskId - 1) := updated]]
    {
      ghost var rank := Rank(tasks, GoalOf, taskId - 1);
      GroupAtRank(tasks, GoalOf, taskId - 1);
      var i := 0;
      while i < |tasksByGoal[goalId]|
        invariant i <= rank && tasksByGoal == old(tasksByGoal)
      {
        PositionInGoal(tasks, taskId, i);
        if tasksByGoal[goalId][i].id == taskId {
          var task := tasksByGoal[goalId][i].(status := StatusToString(newStatus));
          tasksByGoal := tasksByGoal[goalId := tasksByGoal[goalId][i := task]];
          return;
        }
        i := i + 1;
      }
    }

    /** Any operation of a run: the store answers and moves as the task list does. */
    method Perform(op: Op) returns (answer: Answer)
      requires Valid() && (op.Create? ==> nextId < Int64.MAX)
      modifies this
      ensures Valid() && (tasks, answer) == Step(old(tasks), op)
    {
      match op
      case Create(goalId, title, _) =>
        var task := CreateTask(goalId, title);
        return Created(task);
      case Update(goalId, taskId, status) =>
        var r := UpdateTaskStatus(goalId, taskId, status);
        return Found(r);
      case GetById(id) =>
        var r := GetById(id);
        return Found(r);
      case GetByGoal(goalId) =>
        var list := GetByGoal(goalId);
        return Listed(list);
    }

    /** Once the id and its goal are known to match, the goal has a list: the missing-list case cannot arise. */
    lemma GoalOfTaskIsListed(taskId: int)
      requires Valid() && taskId in tasksById
      ensures tasksById[taskId].goalId in tasksByGoal && tasksById[taskId] in tasksByGoal[tasksById[taskId].goalId]
    {
      GroupMembers(tasks, GoalOf, tasksById[taskId].goalId);
      assert tasks[taskId - 1] in tasks;
    }

    /** The goal index lists every task once: its lists hold `nextId - 1` tasks in all. */
    lemma GoalIndexPartitions()
      requires Valid()
      ensures TotalSize(tasksByGoal) == nextId - 1 == |tasksById|
    {
      GroupsPartition(tasks, GoalOf, tasksByGoal);
      IdsAreAnInterval(tasksById.Keys, |tasks|);
    }

    /** The two indexes agree: a task is listed under a goal iff the id index holds that very record for it. */
    lemma IndexesAgree(goalId: int, task: TaskRecord)
      requires Valid()
      ensures (goalId in tasksByGoal && task in tasksByGoal[goalId])
         <==> (task.id in tasksById && tasksById[task.id] == task && task.goalId == goalId)
    {
      GroupMembers(tasks, GoalOf, goalId);
      if task.id in tasksById && tasksById[task.id] == task && task.goalId == goalId {
        assert tasks[task.id - 1] == task;
        assert task in OfGoal(tasks, goalId);
      }
    }
  }
}
