/** The in-memory goal store: one index, filtered by owner on request. */
module GoalsStorage {
  import opened Wrappers
  import opened KeyedSequences
  import Int64

  datatype GoalRecord = GoalRecord(id: int, title: string, description: string, userId: int)

  function OwnerOf(goal: GoalRecord): int { goal.userId }

  function IdOf(goal: GoalRecord): int { goal.id }

  class GoalsStorage {
    var nextId: int
    var goalsById: map<int, GoalRecord>

    /** The goals ever created, in id order. */
    ghost var goals: seq<GoalRecord>

    ghost predicate Valid()
      reads this
    {
      && nextId == |goals| + 1
      && NumberedBy(goals, IdOf)
      && (forall id :: id in goalsById <==> 1 <= id <= |goals|)
      && (forall id :: id in goalsById ==> goalsById[id] == goals[id - 1])
    }

    constructor ()
      ensures Valid() && goals == []
    {
      nextId := 1;
      goalsById, goals := map[], [];
    }

    method CreateGoal(title: string, description: string, userId: int) returns (goal: GoalRecord)
      requires Valid() && nextId < Int64.MAX
      modifies this
      ensures Valid()
      ensures goal == GoalRecord(old(nextId), title, description, userId) && goals == old(goals) + [goal]
    {
      var id := nextId;
      nextId := nextId + 1;
      goal := GoalRecord(id, title, description, userId);
      if id !in goalsById {
        goalsById := goalsById[id := goal];
      }
      goals := goals + [goal];
    }

    method GetById(id: int) returns (r: Option<GoalRecord>)
      requires Valid()
      ensures r == if 1 <= id <= |goals| then Some(goals[id - 1]) else None
    {
      if id !in goalsById {
        return None;
      }
      return Some(goalsById[id]);
    }

    /** The hash map is traversed in an arbitrary order: each step takes any id not yet seen. */
    method GetGoalsByUser(userId: int) returns (result: seq<GoalRecord>)
      requires Valid()
      ensures NoDuplicates(result)
      ensures multiset(result) == multiset(Group(goals, OwnerOf, userId))
      ensures forall goal :: goal in result <==> goal in goals && goal.userId == userId
    {
      result := [];
      var remaining := goalsById.Keys;
      while remaining != {}
        invariant remaining <= goalsById.Keys
        invariant NoDuplicates(result)
        invariant forall g :: g in result ==>
          g.id in goalsById && g.id !in remaining && goalsById[g.id] == g && g.userId == userId
        invariant forall id :: id in goalsById && id !in remaining && goalsById[id].userId == userId ==>
          goalsById[id] in result
        decreases remaining
      {
        SomeIdIn(remaining);
        var id :| id in remaining;
        remaining := remaining - {id};
        if goalsById[id].userId == userId {
          result := result + [goalsById[id]];
        }
      }
      OwnGoals(userId, result);
      GroupMembers(goals, OwnerOf, userId);
      SameMembersPermute(result, Group(goals, OwnerOf, userId));
    }

    lemma OwnGoals(userId: int, result: seq<GoalRecord>)
      requires Valid()
      requires forall g :: g in result ==> g.id in goalsById && goalsById[g.id] == g && g.userId == userId
      requires forall id :: id in goalsById && goalsById[id].userId == userId ==> goalsById[id] in result
      ensures NoDuplicates(Group(goals, OwnerOf, userId))
      ensures forall g :: g in result <==> g in Group(goals, OwnerOf, userId)
    {
      GroupMembers(goals, OwnerOf, userId);
      GroupSorted(goals, OwnerOf, IdOf, userId);
      forall g | g in Group(goals, OwnerOf, userId)
        ensures g in result
      {
        var i :| 0 <= i < |goals| && goals[i] == g;
        assert goalsById[i + 1] == g;
      }
    }

    /** The owners' lists partition the goals: over any users covering all owners the sizes sum to `nextId - 1`. */
    lemma OwnersPartitionGoals(lists: map<int, seq<GoalRecord>>)
      requires Valid()
      requires forall i :: 0 <= i < |goals| ==> goals[i].userId in lists
      requires forall u :: u in lists ==> multiset(lists[u]) == multiset(Group(goals, OwnerOf, u))
      ensures TotalSize(lists) == nextId - 1
    {
      var groups := map u | u in lists :: Group(goals, OwnerOf, u);
      forall u | u in lists
        ensures |lists[u]| == |groups[u]|
      {
        assert |multiset(lists[u])| == |multiset(groups[u])|;
      }
      TotalSizeOfLengths(lists, groups);
      GroupsPartition(goals, OwnerOf, groups);
    }
  }

  lemma SomeIdIn(ids: set<int>)
    ensures ids == {} || exists id :: id in ids
  {
    if forall id :: id !in ids {
      assert ids == {};
    }
  }
}
