/** The update-status handler: identify, limit, parse the path, check goal and body, update. */
module UpdateTask {
  import opened Wrappers
  import opened Clock
  import opened RateLimiter
  import opened IntegerText
  import opened ObjectIds
  import opened TaskLog
  import opened TasksTable
  import opened LimitedHandlers
  import GoalTasks
  import Int64

  /** `status` is absent when the body does not parse. */
  datatype Request = Request(
    user: Option<UserId>, goalArg: string, taskArg: string, status: Option<string>, now: Instant, created: Instant)

  /** `LookupFailed` is the exception raised for a goal id that is no object id. */
  datatype Response =
    | Unauthorized
    | TooManyRequests(limit: int, remaining: int, reset: int)
    | InvalidPath
    | LookupFailed
    | GoalNotFound
    | InvalidBody
    | TaskNotFound
    | Updated(task: TaskRecord)

  /** What happens once the limiter has let the request through. */
  function HandleAdmitted(goals: Goals, table: Table, request: Request): (Table, Response) {
    var goalId, taskId := WholeInteger(request.goalArg), WholeInteger(request.taskArg);
    if goalId.None? || taskId.None? then (table, InvalidPath)
    else
      match GoalById(goals, request.goalArg)
      case Malformed => (table, LookupFailed)
      case Missing => (table, GoalNotFound)
      case Found(_) =>
        if request.status.None? then (table, InvalidBody)
        else
          var (table', updated) := HandlerUpdate(table, goalId.value, taskId.value, request.status.value);
          (table', if updated.None? then TaskNotFound else Updated(updated.value))
  }

  function Handle(buckets: Buckets, goals: Goals, table: Table, request: Request): (Buckets, Table, Response) {
    if request.user.None? then (buckets, table, Unauthorized)
    else
      var (buckets', decision) := CheckMap(buckets, Call(request.user.value, request.now, request.created));
      if !decision.admitted then (buckets', table, TooManyRequests(2, decision.remaining, 1))
      else
        var (table', response) := HandleAdmitted(goals, table, request);
        (buckets', table', response)
  }

  class UpdateTaskHandler {
    const limiter: RateLimiter
    const tasks: TasksRepository

    constructor (limiter: RateLimiter, tasks: TasksRepository)
      ensures this.limiter == limiter && this.tasks == tasks
    {
      this.limiter, this.tasks := limiter, tasks;
    }

    method HandleRequest(request: Request, goals: Goals) returns (response: Response)
      modifies limiter, tasks
      ensures (limiter.rateLimits, tasks.table, response)
           == Handle(old(limiter.rateLimits), goals, old(tasks.table), request)
    {
      hide CheckMap, StollOf, UpdateStatusIn;
      if request.user.None? {
        return Unauthorized;
      }
      var admitted, remaining := limiter.CheckRateLimit(request.user.value, request.now, request.created);
      if !admitted {
        return TooManyRequests(2, remaining, 1);
      }
      var ok, goalId, taskId := false, 0, 0;
      ok, goalId := ParseInt(request.goalArg, goalId);
      if !ok {
        return InvalidPath;
      }
      ok, taskId := ParseInt(request.taskArg, taskId);
      if !ok {
        return InvalidPath;
      }
      match GoalById(goals, request.goalArg)
      case Malformed => return LookupFailed;
      case Missing => return GoalNotFound;
      case Found(_) =>
      if request.status.None? {
        return InvalidBody;
      }
      var updated := tasks.UpdateStatus(goalId, taskId, request.status.value);
      if updated.None? {
        return TaskNotFound;
      }
      return Updated(updated.value);
    }
  }

  // ---- Which answer, and what it changes -------------------------------------------------------

  /**
    Identification comes first and the limiter second: whatever the path, an identified request makes one limiter
    call, and is answered 429 exactly when that call is denied.
   */
  lemma {:induction false} LimiterComesFirst(buckets: Buckets, goals: Goals, table: Table, request: Request)
    ensures var (buckets', table', response) := Handle(buckets, goals, table, request);
            && (request.user.None? ==> buckets' == buckets && table' == table && response == Unauthorized)
            && (request.user.Some? ==>
                  var (after, decision) := CheckMap(buckets, Call(request.user.value, request.now, request.created));
                  && buckets' == after && response != Unauthorized
                  && (response.TooManyRequests? <==> !decision.admitted)
                  && (!decision.admitted ==>
                        response == TooManyRequests(2, decision.remaining, 1) && table' == table))
  {
    hide CheckMap;
  }

  function CallOf(visit: (Request, Goals)): Option<Call> {
    var request := visit.0;
    if request.user.None? then None else Some(Call(request.user.value, request.now, request.created))
  }

  /** The handler as its limiter sees it. */
  function Observed(buckets: Buckets, table: Table, visit: (Request, Goals)): (Buckets, Table, Verdict) {
    var (buckets', table', response) := Handle(buckets, visit.1, table, visit.0);
    (buckets', table',
     match response
     case TooManyRequests(limit, remaining, reset) => Limited(limit, remaining, reset)
     case _ => NotLimited)
  }

  lemma {:induction false} IsLimited()
    ensures Limits(Observed, CallOf)
  {
    hide CheckMap, HandleAdmitted;
    forall buckets, table, visit
      ensures ObeysLimiter(buckets, CallOf(visit), Observed(buckets, table, visit).0, Observed(buckets, table, visit).2)
    {
      LimiterComesFirst(buckets, visit.1, table, visit.0);
    }
  }

  /**
    Over any run, goals coming and going, the limiter's map is that of the calls of the identified requests, and of
    each user at most the window budget gets past it.
   */
  lemma {:induction false} RunsAreLimited(
    table: Table, visits: seq<(Request, Goals)>, user: UserId, from: Instant, length: int)
    ensures var calls := CallsOf(CallOf, visits, |visits|);
            && RunAt(Observed, table, visits, |visits|).0 == MapAt(calls, |calls|)
            && (0 <= length && Ordered(calls) ==>
                  Passed(Observed, CallOf, table, visits, user, |visits|, from, length) <= 2 + 2 * WholeSeconds(length))
  {
    IsLimited();
    DrivesLimiter(Observed, CallOf, table, visits, |visits|);
    if 0 <= length && Ordered(CallsOf(CallOf, visits, |visits|)) {
      PassedBound(Observed, CallOf, table, visits, user, from, length);
    }
  }

  /** The text spells the id of a stored goal. */
  ghost predicate SpellsStored(goals: Goals, text: string) {
    exists bytes :: SpellsOid(text, bytes) && OidText(bytes) in goals
  }

  lemma {:induction false} LookupIff(goals: Goals, text: string)
    ensures GoalById(goals, text).Malformed? <==> forall bytes :: !SpellsOid(text, bytes)
    ensures GoalById(goals, text).Missing? <==> exists bytes :: SpellsOid(text, bytes) && OidText(bytes) !in goals
    ensures GoalById(goals, text).Found? <==> SpellsStored(goals, text)
  {
    GoalByIdIff(goals, text, if GoalById(goals, text).Found? then GoalById(goals, text).owner else 0);
    hide GoalById, SpellsOid, OidText;
    if bytes :| SpellsOid(text, bytes) && OidText(bytes) in goals {
      GoalByIdIff(goals, text, goals[OidText(bytes)]);
    }
  }

  /** Both path arguments are integers from end to end. */
  ghost predicate PathParses(request: Request) {
    IsWhole(request.goalArg) && IsWhole(request.taskArg)
  }

  /** The status is one of the three, and the row named by the goal argument belongs to the task argument's number. */
  ghost predicate WritesRow(table: Table, request: Request) {
    && request.status in {Some("todo"), Some("in_progress"), Some("done")}
    && exists g, k ::
         Denotes(request.goalArg, g) && Denotes(request.taskArg, k) && g in table.rows && table.rows[g].task.goalId == k
  }

  /** Each answer to an admitted request, by what the request, the goals and the table hold. */
  lemma {:induction false} AdmittedAnswersIff(buckets: Buckets, goals: Goals, table: Table, request: Request)
    requires Passes(buckets, request)
    ensures var response := Handle(buckets, goals, table, request).2;
            var parses, stored := PathParses(request), SpellsStored(goals, request.goalArg);
            && (response == InvalidPath <==> !parses)
            && (response == LookupFailed <==> parses && forall bytes :: !SpellsOid(request.goalArg, bytes))
            && (response == GoalNotFound <==>
                  parses && exists bytes :: SpellsOid(request.goalArg, bytes) && OidText(bytes) !in goals)
            && (response == InvalidBody <==> parses && stored && request.status.None?)
            && (response == TaskNotFound <==>
                  parses && stored && request.status.Some? && !WritesRow(table, request))
            && (response.Updated? <==> parses && stored && WritesRow(table, request))
  {
    IsWholeIff(request.goalArg);
    IsWholeIff(request.taskArg);
    LookupIff(goals, request.goalArg);
    if WholeInteger(request.goalArg).Some? && WholeInteger(request.taskArg).Some? {
      WritesRowIff(table, request, WholeInteger(request.goalArg).value, WholeInteger(request.taskArg).value);
    }
    hide CheckMap, IsWhole, WholeInteger, GoalById, SpellsStored, SpellsOid, OidText, WritesRow;
  }

  lemma {:induction false} WritesRowIff(table: Table, request: Request, g: int, k: int)
    requires WholeInteger(request.goalArg) == Some(g) && WholeInteger(request.taskArg) == Some(k)
    ensures WritesRow(table, request) <==>
            request.status.Some? && HandlerUpdate(table, g, k, request.status.value).1.Some?
  {
    hide WholeInteger, Denotes;
    WholeIntegerIff(request.goalArg, g);
    WholeIntegerIff(request.taskArg, k);
    forall g', k' | Denotes(request.goalArg, g') && Denotes(request.taskArg, k')
      ensures g' == g && k' == k
    {
      WholeIntegerIff(request.goalArg, g');
      WholeIntegerIff(request.taskArg, k');
    }
  }

  /**
    An update writes the status sent to the row named by the goal argument and answers that row; nothing else
    writes.
   */
  lemma {:induction false} UpdateWritesAnswer(buckets: Buckets, goals: Goals, table: Table, request: Request)
    ensures var (_, table', response) := Handle(buckets, goals, table, request);
            && (!response.Updated? ==> table' == table)
            && (response.Updated? ==>
                  request.status.Some? &&
                  exists g :: Denotes(request.goalArg, g) && g in table.rows &&
                    response.task == table.rows[g].task.(status := request.status.value) &&
                    table' == table.(rows := table.rows[g := Row(response.task, table.rows[g].createdAt)]))
  {
    hide CheckMap, WholeInteger, GoalById, Denotes;
    if Handle(buckets, goals, table, request).2.Updated? {
      WholeIntegerIff(request.goalArg, WholeInteger(request.goalArg).value);
    }
  }

  // ---- Which requests update anything ----------------------------------------------------------

  /** The request names the user and gets past the limiter. */
  predicate Passes(buckets: Buckets, request: Request) {
    request.user.Some? && CheckMap(buckets, Call(request.user.value, request.now, request.created)).1.admitted
  }

  /** A goal argument that parses is found exactly when it is the padded spelling of its number and stored. */
  lemma {:induction false} WholeGoalFoundIff(goals: Goals, goalArg: string, goalId: int)
    requires WholeInteger(goalArg) == Some(goalId)
    ensures GoalById(goals, goalArg).Found? <==> 0 <= goalId && goalArg == Padded(goalId, 24) && goalArg in goals
  {
    assert Int64.Fits(goalId);
    hide StollOf, WholeInteger, Padded;
    if 0 <= goalId {
      MagnitudeOfPaddedId(goalId);
    }
    if ObjectIdText(goalArg) {
      WholeObjectIdIff(goalArg, goalId);
    }
  }

  /** The path's goal argument is a stored object id spelled by decimal digits that denote `goalId`. */
  predicate NamesStoredGoal(goals: Goals, goalArg: string, goalId: int) {
    0 <= goalId <= Int64.MAX && goalArg == Padded(goalId, 24) && goalArg in goals
  }

  /**
    The requests that update a task are exactly the admitted ones whose goal id is a stored object id spelled
    by 24 decimal digits that fit in 64 bits, and whose two ids, exchanged, name a row of the table.
   */
  lemma {:induction false} UpdatesIff(buckets: Buckets, goals: Goals, table: Table, request: Request)
    ensures Handle(buckets, goals, table, request).2.Updated? <==>
            && Passes(buckets, request)
            && request.status.Some? && KnownStatus(request.status.value)
            && exists goalId, taskId ::
                 NamesStoredGoal(goals, request.goalArg, goalId) && WholeInteger(request.taskArg) == Some(taskId) &&
                 Matches(table, goalId, taskId)
  {
    hide CheckMap, WholeInteger, GoalById, Padded;
    if Handle(buckets, goals, table, request).2.Updated? {
      WholeIntegerFits(request.goalArg);
      WholeGoalFoundIff(goals, request.goalArg, WholeInteger(request.goalArg).value);
      assert NamesStoredGoal(goals, request.goalArg, WholeInteger(request.goalArg).value);
    }
    if goalId, taskId :|
      NamesStoredGoal(goals, request.goalArg, goalId) && WholeInteger(request.taskArg) == Some(taskId) &&
      Matches(table, goalId, taskId)
    {
      MagnitudeOfPaddedId(goalId);
      WholeObjectIdIff(request.goalArg, goalId);
      WholeGoalFoundIff(goals, request.goalArg, goalId);
    }
  }

  lemma {:induction false} WholeIntegerFits(text: string)
    ensures WholeInteger(text).Some? ==> Int64.Fits(WholeInteger(text).value)
  {
  }

  /**
    Past the limiter it makes no difference who asks or who owns the goals: anyone may update the tasks of anyone's
    goal.
   */
  lemma {:induction false} OwnershipIsIgnored(
    buckets: Buckets, goals: Goals, buckets': Buckets, goals': Goals, table: Table, request: Request, user: UserId)
    requires goals.Keys == goals'.Keys
    requires Passes(buckets, request) && Passes(buckets', request.(user := Some(user)))
    ensures Handle(buckets, goals, table, request).1
         == Handle(buckets', goals', table, request.(user := Some(user))).1
    ensures Handle(buckets, goals, table, request).2
         == Handle(buckets', goals', table, request.(user := Some(user))).2
  {
    hide CheckMap, StollOf, WholeInteger, ObjectIdText, UpdateStatusIn;
  }

  /**
    No task of a goal whose id has a nonzero digit among its first five is ever updated, whatever the table holds:
    the path parser turns the request away. Ids carry their creation time in front, so that is every goal
    created later than the first 4096 seconds of 1970.
   */
  lemma {:induction false} GeneratedGoalsAreNeverUpdated(
    buckets: Buckets, goals: Goals, table: Table, request: Request, i: nat)
    requires ObjectIdText(request.goalArg) && i < 5 && request.goalArg[i] != '0'
    ensures var (_, table', response) := Handle(buckets, goals, table, request);
            table' == table && (Passes(buckets, request) ==> response == InvalidPath) && !response.Updated?
  {
    hide CheckMap, StollOf;
    GeneratedIdIsNoInteger(request.goalArg, i);
  }

  /** An admitted request for an existing task of an existing goal, both ids parsed from the path. */
  ghost predicate AddressesTask(
    buckets: Buckets, goals: Goals, table: Table, request: Request, goalId: int, taskId: int) {
    && Passes(buckets, request)
    && WholeInteger(request.goalArg) == Some(goalId) && GoalById(goals, request.goalArg).Found?
    && WholeInteger(request.taskArg) == Some(taskId)
    && request.status.Some? && KnownStatus(request.status.value)
    && Matches(table, taskId, goalId)
  }

  /**
    Among the requests that get as far as the table, one updates its task exactly when the task's id is its
    goal's id.
   */
  lemma {:induction false} RequestUpdatesItsTaskIff(
    buckets: Buckets, goals: Goals, table: Table, request: Request, goalId: int, taskId: int)
    requires AddressesTask(buckets, goals, table, request, goalId, taskId)
    ensures var (_, table', response) := Handle(buckets, goals, table, request);
            var wanted := UpdateStatusIn(table, taskId, goalId, request.status.value);
            (table', response) == (wanted.0, Updated(wanted.1.value)) <==> goalId == taskId
  {
    hide CheckMap, StollOf, GoalById;
    SwappedUpdateCorrectIff(table, goalId, taskId, request.status.value);
  }

  /** The first task ever created under goal 7 is missed by any admitted request that addresses it. */
  lemma {:induction false} FirstTaskIsMissed(buckets: Buckets, goals: Goals, request: Request)
    requires AddressesTask(buckets, goals, Insert(NewTable({7}), 7, "write tests", 0).0, request, 7, 1)
    ensures var table := Insert(NewTable({7}), 7, "write tests", 0).0;
            && UpdateStatusIn(table, 1, 7, request.status.value).1.Some?
            && Handle(buckets, goals, table, request).1 == table
            && Handle(buckets, goals, table, request).2 == TaskNotFound
  {
    hide CheckMap, StollOf, GoalById;
  }

  lemma {:induction false} PaddedGoalFound(n: nat, user: UserId)
    requires n <= Int64.MAX
    ensures GoalById(map[Padded(n, 24) := user], Padded(n, 24)) == Lookup.Found(user)
    ensures WholeInteger(Padded(n, 24)) == Some(n) && StollOf(Padded(n, 24)).Parsed?
  {
    hide StollOf;
    MagnitudeOfPaddedId(n);
    WholeObjectIdIff(Padded(n, 24), n);
  }

  lemma {:induction false} FirstRequestPasses(request: Request)
    requires request.user.Some? && request.created == request.now
    ensures Passes(map[], request)
  {
  }

  lemma {:induction false} PrintedIsWhole(n: int)
    requires Int64.Fits(n)
    ensures WholeInteger(ToString(n)) == Some(n)
  {
    RoundTrip(n);
  }

  /**
    A request that reaches the swap: goal 7 under its zero-padded id, with one task, which the request fails to
    find.
   */
  lemma {:induction false} SwappedRequestMisses(user: UserId, now: Instant)
    ensures var request := Request(Some(user), Padded(7, 24), ToString(1), Some("done"), now, now);
            var goals, table := map[Padded(7, 24) := user], Insert(NewTable({7}), 7, "write tests", 0).0;
            && AddressesTask(map[], goals, table, request, 7, 1)
            && UpdateStatusIn(table, 1, 7, "done").1.Some?
            && Handle(map[], goals, table, request).1 == table
            && Handle(map[], goals, table, request).2 == TaskNotFound
  {
    var request := Request(Some(user), Padded(7, 24), ToString(1), Some("done"), now, now);
    PaddedGoalFound(7, user);
    FirstRequestPasses(request);
    PrintedIsWhole(1);
    hide Padded, StollOf, ToString, Handle, GoalById, Passes, WholeInteger, UpdateStatusIn;
    FirstTaskIsMissed(map[], map[Padded(7, 24) := user], request);
  }

  /** Any admitted request for task 1 of goal 1, whoever makes it, finishes the task. */
  lemma {:induction false} FirstTaskFinished(buckets: Buckets, goals: Goals, request: Request)
    requires AddressesTask(buckets, goals, Insert(NewTable({1}), 1, "write tests", 0).0, request, 1, 1)
    requires request.status == Some("done")
    ensures var (_, table', response) := Handle(buckets, goals, Insert(NewTable({1}), 1, "write tests", 0).0, request);
            var task := TaskRecord(1, 1, "write tests", "done");
            response == Updated(task) && SelectById(table', 1) == Some(task)
  {
    hide CheckMap, StollOf, GoalById;
  }

  /** A user who does not own goal 1 finishes its task 1, though that user may neither list its tasks nor add one. */
  lemma {:induction false} StrangerUpdates(
    owner: UserId, stranger: UserId, now: Instant, select: GoalTasks.Query, title: string)
    requires owner != stranger
    ensures var request := Request(Some(stranger), Padded(1, 24), ToString(1), Some("done"), now, now);
            var goals, table := map[Padded(1, 24) := owner], Insert(NewTable({1}), 1, "write tests", 0).0;
            var (_, table', response) := Handle(map[], goals, table, request);
            var task := TaskRecord(1, 1, "write tests", "done");
            var other := GoalTasks.Request(title, Some(stranger), Padded(1, 24), now, now, 0);
            && response == Updated(task) && SelectById(table', 1) == Some(task)
            && GoalTasks.HandleList(map[], goals, select, other).1 == GoalTasks.GoalNotFound
            && (title != "" ==> GoalTasks.HandleCreate(map[], goals, table, other).2 == GoalTasks.GoalNotFound)
  {
    var request := Request(Some(stranger), Padded(1, 24), ToString(1), Some("done"), now, now);
    var goals, table := map[Padded(1, 24) := owner], Insert(NewTable({1}), 1, "write tests", 0).0;
    PaddedGoalFound(1, owner);
    FirstRequestPasses(request);
    PrintedIsWhole(1);
    hide Padded, StollOf, ToString, Handle, Passes, UpdateStatusIn, CheckMap, GoalById, WholeInteger, HandlerUpdate;
    var other := GoalTasks.Request(title, Some(stranger), Padded(1, 24), now, now, 0);
    StrangerIsRefused(goals, owner, other, select, table);
    FirstTaskFinished(map[], goals, request);
  }

  /** A first request of someone who does not own the goal is neither served its list nor given a task in it. */
  lemma {:induction false} StrangerIsRefused(
    goals: Goals, owner: UserId, other: GoalTasks.Request, select: GoalTasks.Query, table: Table)
    requires other.user.Some? && other.user.value != owner && other.now == other.created
    requires GoalById(goals, other.goalArg) == Lookup.Found(owner) && StollOf(other.goalArg).Parsed?
    ensures GoalTasks.HandleList(map[], goals, select, other).1 == GoalTasks.GoalNotFound
    ensures other.title != "" ==> GoalTasks.HandleCreate(map[], goals, table, other).2 == GoalTasks.GoalNotFound
  {
    GoalTasks.FirstIsNotLimited(other.user.value, other.now);
    hide StollOf, CheckMap, GoalById, Insert;
  }

  /** A request changes at most one row, the one whose id is the path's goal id, and in it only the status. */
  lemma {:induction false} OnlyStatusOfGoalIdChanges(
    buckets: Buckets, goals: Goals, table: Table, request: Request, id: int)
    requires id in table.rows
    ensures var (_, table', response) := Handle(buckets, goals, table, request);
            && table'.rows.Keys == table.rows.Keys
            && table'.rows[id] == table.rows[id].(task := table.rows[id].task.(status := table'.rows[id].task.status))
            && (table'.rows[id] != table.rows[id] ==>
                  response.Updated? && WholeInteger(request.goalArg) == Some(id) &&
                  WholeInteger(request.taskArg) == Some(table.rows[id].task.goalId))
  {
    hide CheckMap, StollOf, GoalById;
  }
}
