/** The create-task and list-tasks handlers, and which goals they give one task list. */
module GoalTasks {
  import opened Wrappers
  import opened Clock
  import opened RateLimiter
  import opened IntegerText
  import opened ObjectIds
  import opened TaskLog
  import opened TasksTable
  import opened LimitedHandlers
  import Int64

  /** `createdAt` is the stamp the database gives a new row; a request to list has neither title nor stamp. */
  datatype Request = Request(
    title: string, user: Option<UserId>, goalArg: string, now: Instant, created: Instant, createdAt: int)

  /** `InsertRefused` is the exception of the table's foreign key or title width. */
  datatype Response =
    | TitleRequired
    | Unauthorized
    | TooManyRequests(limit: int, remaining: int, reset: int)
    | InvalidGoalId
    | LookupFailed
    | GoalNotInAccount
    | GoalNotFound
    | InsertRefused
    | TaskCreated(task: TaskRecord)
    | TaskList(tasks: seq<TaskRecord>)

  /** The checks both handlers make on the goal: a leading integer, a stored goal, the caller's own. */
  function RefuseGoal(goals: Goals, user: UserId, goalArg: string): Option<Response> {
    if !StollOf(goalArg).Parsed? then Some(InvalidGoalId)
    else
      match GoalById(goals, goalArg)
      case Malformed => Some(LookupFailed)
      case Missing => Some(GoalNotInAccount)
      case Found(owner) => if owner != user then Some(GoalNotFound) else None
  }

  function HandleCreate(buckets: Buckets, goals: Goals, table: Table, request: Request): (Buckets, Table, Response) {
    if request.title == "" then (buckets, table, TitleRequired)
    else if request.user.None? then (buckets, table, Unauthorized)
    else
      var (buckets', decision) := CheckMap(buckets, Call(request.user.value, request.now, request.created));
      if !decision.admitted then (buckets', table, TooManyRequests(2, decision.remaining, 1))
      else
        var refused := RefuseGoal(goals, request.user.value, request.goalArg);
        if refused.Some? then (buckets', table, refused.value)
        else
          var (table', task) := Insert(table, StollOf(request.goalArg).value, request.title, request.createdAt);
          (buckets', table', if task.None? then InsertRefused else TaskCreated(task.value))
  }

  /** The rows the database returns for each goal id it is asked for. */
  type Query = int -> seq<TaskRecord>

  /** `select` answers the query by goal as the table allows. */
  ghost predicate AnswersQuery(table: Table, select: Query) {
    forall goalId :: SelectByGoal(table, goalId, select(goalId))
  }

  function HandleList(buckets: Buckets, goals: Goals, select: Query, request: Request): (Buckets, Response) {
    if request.user.None? then (buckets, Unauthorized)
    else
      var (buckets', decision) := CheckMap(buckets, Call(request.user.value, request.now, request.created));
      (buckets',
       if !decision.admitted then TooManyRequests(2, decision.remaining, 1)
       else
         var refused := RefuseGoal(goals, request.user.value, request.goalArg);
         if refused.Some? then refused.value else TaskList(select(StollOf(request.goalArg).value)))
  }

  class CreateTaskHandler {
    const limiter: RateLimiter
    const tasks: TasksRepository

    constructor (limiter: RateLimiter, tasks: TasksRepository)
      ensures this.limiter == limiter && this.tasks == tasks
    {
      this.limiter, this.tasks := limiter, tasks;
    }

    method HandleRequest(request: Request, goals: Goals) returns (response: Response)
      modifies limiter, tasks
      ensures (limiter.rateLimits, tasks.table, response)
           == HandleCreate(old(limiter.rateLimits), goals, old(tasks.table), request)
    {
      if request.title == "" {
        return TitleRequired;
      }
      if request.user.None? {
        return Unauthorized;
      }
      var admitted, remaining := limiter.CheckRateLimit(request.user.value, request.now, request.created);
      if !admitted {
        return TooManyRequests(2, remaining, 1);
      }
      match StollOf(request.goalArg)
      case InvalidArgument => return InvalidGoalId;
      case OutOfRange => return InvalidGoalId;
      case Parsed(goalId, _) =>
      match GoalById(goals, request.goalArg)
      case Malformed => return LookupFailed;
      case Missing => return GoalNotInAccount;
      case Found(owner) =>
      if owner != request.user.value {
        return GoalNotFound;
      }
      var task := tasks.CreateTask(goalId, request.title, request.createdAt);
      if task.None? {
        return InsertRefused;
      }
      return TaskCreated(task.value);
    }
  }

  class ListTasksHandler {
    const limiter: RateLimiter
    const tasks: TasksRepository

    constructor (limiter: RateLimiter, tasks: TasksRepository)
      ensures this.limiter == limiter && this.tasks == tasks
    {
      this.limiter, this.tasks := limiter, tasks;
    }

    /** Every answer the table may give to the query for the parsed goal id is listed record by record. */
    method HandleRequest(request: Request, goals: Goals, select: Query) returns (response: Response)
      requires AnswersQuery(tasks.table, select)
      modifies limiter
      ensures (limiter.rateLimits, response) == HandleList(old(limiter.rateLimits), goals, select, request)
      ensures response.TaskList? ==>
                StollOf(request.goalArg).Parsed? &&
                SelectByGoal(tasks.table, StollOf(request.goalArg).value, response.tasks)
    {
      if request.user.None? {
        return Unauthorized;
      }
      var admitted, remaining := limiter.CheckRateLimit(request.user.value, request.now, request.created);
      if !admitted {
        return TooManyRequests(2, remaining, 1);
      }
      match StollOf(request.goalArg)
      case InvalidArgument => return InvalidGoalId;
      case OutOfRange => return InvalidGoalId;
      case Parsed(goalId, _) =>
      match GoalById(goals, request.goalArg)
      case Malformed => return LookupFailed;
      case Missing => return GoalNotInAccount;
      case Found(owner) =>
      if owner != request.user.value {
        return GoalNotFound;
      }
      var rows := select(goalId);
      var resp := [];
      for i := 0 to |rows|
        invariant resp == rows[..i]
      {
        resp := resp + [TaskRecord(rows[i].id, rows[i].goalId, rows[i].title, rows[i].status)];
      }
      assert resp == rows;
      return TaskList(resp);
    }
  }

  // ---- Which answer ----------------------------------------------------------------------------

  /** The request names the user and gets past the limiter. */
  predicate Passes(buckets: Buckets, request: Request) {
    request.user.Some? && CheckMap(buckets, Call(request.user.value, request.now, request.created)).1.admitted
  }

  /**
    Listing identifies first and limits second: whatever the goal, an identified request makes one limiter call, and
    is answered 429 exactly when that call is denied.
   */
  lemma {:induction false} ListIsLimitedFirst(buckets: Buckets, goals: Goals, select: Query, request: Request)
    ensures var (buckets', response) := HandleList(buckets, goals, select, request);
            && (request.user.None? ==> buckets' == buckets && response == Unauthorized)
            && (request.user.Some? ==>
                  var (after, decision) := CheckMap(buckets, Call(request.user.value, request.now, request.created));
                  && buckets' == after && response != Unauthorized
                  && (response.TooManyRequests? <==> !decision.admitted)
                  && (!decision.admitted ==> response == TooManyRequests(2, decision.remaining, 1)))
  {
    hide CheckMap, StollOf;
  }

  /** Creating looks at the title before that: an untitled request costs nothing, whoever makes it. */
  lemma {:induction false} CreateIsLimitedFirst(buckets: Buckets, goals: Goals, table: Table, request: Request)
    ensures var (buckets', table', response) := HandleCreate(buckets, goals, table, request);
            && (response == TitleRequired <==> request.title == "")
            && (response == Unauthorized <==> request.title != "" && request.user.None?)
            && (request.title == "" || request.user.None? ==> buckets' == buckets && table' == table)
            && (request.title != "" && request.user.Some? ==>
                  var (after, decision) := CheckMap(buckets, Call(request.user.value, request.now, request.created));
                  && buckets' == after
                  && (response.TooManyRequests? <==> !decision.admitted)
                  && (!decision.admitted ==>
                        response == TooManyRequests(2, decision.remaining, 1) && table' == table))
  {
    hide CheckMap, StollOf;
  }

  /** The text spells the id of a goal of that owner. */
  ghost predicate SpellsGoalOf(goals: Goals, text: string, owner: UserId) {
    exists bytes :: SpellsOid(text, bytes) && OidText(bytes) in goals && goals[OidText(bytes)] == owner
  }

  /** What the checks on the goal refuse, and in which order. */
  ghost predicate RefusedAs(goals: Goals, user: UserId, goalArg: string, response: Response) {
    var parses := HasInteger(goalArg);
    && (response == InvalidGoalId <==> !parses)
    && (response == LookupFailed <==> parses && forall bytes :: !SpellsOid(goalArg, bytes))
    && (response == GoalNotInAccount <==>
          parses && exists bytes :: SpellsOid(goalArg, bytes) && OidText(bytes) !in goals)
    && (response == GoalNotFound <==> parses && exists owner :: owner != user && SpellsGoalOf(goals, goalArg, owner))
  }

  lemma {:induction false} RefuseGoalIff(goals: Goals, user: UserId, goalArg: string, response: Response)
    requires RefuseGoal(goals, user, goalArg).Some? ==> response == RefuseGoal(goals, user, goalArg).value
    requires RefuseGoal(goals, user, goalArg).None? ==>
               response.TaskList? || response.TaskCreated? || response.InsertRefused?
    ensures RefusedAs(goals, user, goalArg, response)
    ensures RefuseGoal(goals, user, goalArg).None? <==> HasInteger(goalArg) && SpellsGoalOf(goals, goalArg, user)
    ensures RefuseGoal(goals, user, goalArg).None? <==>
              response.TaskList? || response.TaskCreated? || response.InsertRefused?
  {
    HasIntegerIff(goalArg);
    hide StollOf, HasInteger, GoalById, SpellsOid, OidText, SpellsGoalOf;
    forall owner
      ensures GoalById(goals, goalArg) == Lookup.Found(owner) <==> SpellsGoalOf(goals, goalArg, owner)
    {
      OwnerFoundIff(goals, goalArg, owner);
    }
    GoalByIdIff(goals, goalArg, user);
  }

  lemma {:induction false} OwnerFoundIff(goals: Goals, text: string, owner: UserId)
    ensures GoalById(goals, text) == Lookup.Found(owner) <==> SpellsGoalOf(goals, text, owner)
  {
    GoalByIdIff(goals, text, owner);
  }

  /** Each answer to an admitted request to list: a list is served for goals of the caller's own, and no others. */
  lemma {:induction false} ListAnswersIff(buckets: Buckets, goals: Goals, select: Query, request: Request)
    requires Passes(buckets, request)
    ensures var response, user := HandleList(buckets, goals, select, request).1, request.user.value;
            && RefusedAs(goals, user, request.goalArg, response)
            && (response.TaskList? <==>
                  HasInteger(request.goalArg) && SpellsGoalOf(goals, request.goalArg, user))
            && (response.TaskList? ==>
                  exists n :: StartsWith(request.goalArg, n) && response.tasks == select(n))
  {
    hide CheckMap, StollOf, RefusedAs, HasInteger, SpellsGoalOf, StartsWith, RefuseGoal;
    RefuseGoalIff(goals, request.user.value, request.goalArg, HandleList(buckets, goals, select, request).1);
    HasIntegerIff(request.goalArg);
    if StollOf(request.goalArg).Parsed? {
      StollIff(request.goalArg, StollOf(request.goalArg).value);
    }
  }

  /** Each answer to an admitted, titled request to create, and what the table holds after it. */
  lemma {:induction false} CreateAnswersIff(buckets: Buckets, goals: Goals, table: Table, request: Request)
    requires request.title != "" && Passes(buckets, request)
    ensures var (_, table', response) := HandleCreate(buckets, goals, table, request);
            var user := request.user.value;
            && RefusedAs(goals, user, request.goalArg, response)
            && (response.TaskCreated? || response == InsertRefused <==>
                  HasInteger(request.goalArg) && SpellsGoalOf(goals, request.goalArg, user))
            && (response.TaskCreated? ==>
                  && StartsWith(request.goalArg, response.task.goalId)
                  && response.task.id == table.nextSerial && response.task.status == "todo"
                  && response.task.title <= request.title && |response.task.title| <= 255
                  && (|request.title| > 255 ==> |response.task.title| == 255)
                  && (|request.title| <= 255 ==> response.task.title == request.title)
                  && table' == Table(table.rows[table.nextSerial := Row(response.task, request.createdAt)],
                                     table.nextSerial + 1, table.goalRows))
            && (response == InsertRefused ==> table' == table.(nextSerial := table.nextSerial + 1))
            && (!response.TaskCreated? && response != InsertRefused ==> table' == table)
  {
    hide CheckMap, StollOf, RefusedAs, HasInteger, SpellsGoalOf, StartsWith, RefuseGoal;
    RefuseGoalIff(goals, request.user.value, request.goalArg, HandleCreate(buckets, goals, table, request).2);
    HasIntegerIff(request.goalArg);
    if StollOf(request.goalArg).Parsed? {
      StollIff(request.goalArg, StollOf(request.goalArg).value);
    }
  }

  lemma {:induction false} FirstIsNotLimited(user: UserId, now: Instant)
    ensures CheckMap(map[], Call(user, now, now)).1.admitted
  {
  }

  // ---- Runs against the limiter ----------------------------------------------------------------

  function VerdictOf(response: Response): Verdict {
    match response
    case TooManyRequests(limit, remaining, reset) => Limited(limit, remaining, reset)
    case _ => NotLimited
  }

  function CreateCallOf(visit: (Request, Goals)): Option<Call> {
    var request := visit.0;
    if request.title == "" || request.user.None? then None
    else Some(Call(request.user.value, request.now, request.created))
  }

  function ListCallOf(visit: (Request, Goals, Query)): Option<Call> {
    var request := visit.0;
    if request.user.None? then None else Some(Call(request.user.value, request.now, request.created))
  }

  /** The handlers as their limiters see them. */
  function CreateObserved(buckets: Buckets, table: Table, visit: (Request, Goals)): (Buckets, Table, Verdict) {
    var (buckets', table', response) := HandleCreate(buckets, visit.1, table, visit.0);
    (buckets', table', VerdictOf(response))
  }

  function ListObserved(buckets: Buckets, nothing: (), visit: (Request, Goals, Query)): (Buckets, (), Verdict) {
    var (buckets', response) := HandleList(buckets, visit.1, visit.2, visit.0);
    (buckets', nothing, VerdictOf(response))
  }

  lemma {:induction false} CreateIsLimited()
    ensures Limits(CreateObserved, CreateCallOf)
  {
    hide CheckMap;
    forall buckets, table, visit
      ensures ObeysLimiter(buckets, CreateCallOf(visit), CreateObserved(buckets, table, visit).0,
                           CreateObserved(buckets, table, visit).2)
    {
      CreateIsLimitedFirst(buckets, visit.1, table, visit.0);
    }
  }

  lemma {:induction false} ListIsLimited()
    ensures Limits(ListObserved, ListCallOf)
  {
    hide CheckMap;
    forall buckets, nothing, visit
      ensures ObeysLimiter(buckets, ListCallOf(visit), ListObserved(buckets, nothing, visit).0,
                           ListObserved(buckets, nothing, visit).2)
    {
      ListIsLimitedFirst(buckets, visit.1, visit.2, visit.0);
    }
  }

  /** Over any run of creations the limiter's map is that of the titled, identified requests, and its budget holds. */
  lemma {:induction false} CreateRunsAreLimited(
    table: Table, visits: seq<(Request, Goals)>, user: UserId, from: Instant, length: int)
    ensures var calls := CallsOf(CreateCallOf, visits, |visits|);
            && RunAt(CreateObserved, table, visits, |visits|).0 == MapAt(calls, |calls|)
            && (0 <= length && Ordered(calls) ==>
                  Passed(CreateObserved, CreateCallOf, table, visits, user, |visits|, from, length)
                  <= 2 + 2 * WholeSeconds(length))
  {
    CreateIsLimited();
    DrivesLimiter(CreateObserved, CreateCallOf, table, visits, |visits|);
    if 0 <= length && Ordered(CallsOf(CreateCallOf, visits, |visits|)) {
      PassedBound(CreateObserved, CreateCallOf, table, visits, user, from, length);
    }
  }

  /** Over any run of listings the limiter's map is that of the identified requests, and its budget holds. */
  lemma {:induction false} ListRunsAreLimited(
    visits: seq<(Request, Goals, Query)>, user: UserId, from: Instant, length: int)
    ensures var calls := CallsOf(ListCallOf, visits, |visits|);
            && RunAt(ListObserved, (), visits, |visits|).0 == MapAt(calls, |calls|)
            && (0 <= length && Ordered(calls) ==>
                  Passed(ListObserved, ListCallOf, (), visits, user, |visits|, from, length)
                  <= 2 + 2 * WholeSeconds(length))
  {
    ListIsLimited();
    DrivesLimiter(ListObserved, ListCallOf, (), visits, |visits|);
    if 0 <= length && Ordered(CallsOf(ListCallOf, visits, |visits|)) {
      PassedBound(ListObserved, ListCallOf, (), visits, user, from, length);
    }
  }

  // ---- Which goals can have tasks --------------------------------------------------------------

  /** What the prefix parse makes of an id: the number its leading digits denote, when there are any and they fit. */
  lemma {:induction false} GoalReadIff(goalArg: string, n: int)
    requires ObjectIdText(goalArg)
    ensures StollOf(goalArg).Parsed? && StollOf(goalArg).value == n <==>
            DecimalPrefix(goalArg) != "" && Magnitude(DecimalPrefix(goalArg)) == n <= Int64.MAX
  {
    StollOfObjectId(goalArg);
  }

  /**
    A task is created exactly for an admitted request, under a title that fits its column, for a goal of the caller's
    own whose id starts with decimal digits that spell the id of a row of `goals`, a table the goal itself is not in.
   */
  lemma {:induction false} TaskCreatedIff(buckets: Buckets, goals: Goals, table: Table, request: Request)
    ensures HandleCreate(buckets, goals, table, request).2.TaskCreated? <==>
            && request.title != "" && Passes(buckets, request)
            && SpellsGoalOf(goals, request.goalArg, request.user.value)
            && DecimalPrefix(request.goalArg) != "" && Magnitude(DecimalPrefix(request.goalArg)) <= Int64.MAX
            && Magnitude(DecimalPrefix(request.goalArg)) in table.goalRows
            && (|request.title| <= TITLE_WIDTH || AllBlank(request.title[TITLE_WIDTH..]))
  {
    if request.user.Some? {
      OwnerFoundIff(goals, request.goalArg, request.user.value);
    }
    hide CheckMap, StollOf, DecimalPrefix, SpellsGoalOf;
    if ObjectIdText(request.goalArg) {
      GoalReadIff(request.goalArg, Magnitude(DecimalPrefix(request.goalArg)));
      if StollOf(request.goalArg).Parsed? {
        GoalReadIff(request.goalArg, StollOf(request.goalArg).value);
      }
    }
  }

  /**
    A list is served exactly for an admitted request for a goal of the caller's own whose id starts with decimal
    digits that fit in 64 bits.
   */
  lemma {:induction false} ListServedIff(buckets: Buckets, goals: Goals, select: Query, request: Request)
    ensures HandleList(buckets, goals, select, request).1.TaskList? <==>
            && Passes(buckets, request) && SpellsGoalOf(goals, request.goalArg, request.user.value)
            && DecimalPrefix(request.goalArg) != "" && Magnitude(DecimalPrefix(request.goalArg)) <= Int64.MAX
  {
    if request.user.Some? {
      OwnerFoundIff(goals, request.goalArg, request.user.value);
    }
    hide CheckMap, StollOf, DecimalPrefix, SpellsGoalOf;
    if ObjectIdText(request.goalArg) {
      GoalReadIff(request.goalArg, Magnitude(DecimalPrefix(request.goalArg)));
      if StollOf(request.goalArg).Parsed? {
        GoalReadIff(request.goalArg, StollOf(request.goalArg).value);
      }
    }
  }

  /** While `goals` has no row 60, no request creates a task for a goal whose id starts with 60b. */
  lemma {:induction false} SeededGoalsGetNoTask(buckets: Buckets, goals: Goals, table: Table, request: Request)
    requires 60 !in table.goalRows && "60b" <= request.goalArg
    ensures var (_, table', response) := HandleCreate(buckets, goals, table, request);
            table'.rows == table.rows && !response.TaskCreated?
  {
    hide CheckMap, StollOf;
    if ObjectIdText(request.goalArg) {
      SeededIdsReadAsSixty(request.goalArg);
    }
  }

  /**
    Neither does any run of the table hold one: from any sound table without a goal row 60, a goal whose id starts
    with 60b is served the empty list for ever.
   */
  lemma {:induction false} SeededListsStayEmpty(
    start: Table, ops: seq<Op>, n: nat, buckets: Buckets, goals: Goals, select: Query, request: Request)
    requires Sound(start) && 60 !in start.goalRows && n <= |ops| && AnswersQuery(TableFrom(start, ops, n), select)
    requires "60b" <= request.goalArg && HandleList(buckets, goals, select, request).1.TaskList?
    ensures HandleList(buckets, goals, select, request).1 == TaskList([])
  {
    hide CheckMap, StollOf;
    SeededIdsReadAsSixty(request.goalArg);
    RunsKeepTasks(start, ops, n, 0);
    var rows := select(60);
    assert SelectByGoal(TableFrom(start, ops, n), 60, rows);
    assert rows != [] ==> rows[0].goalId == 60;
  }

  // ---- Which goals share a task list -----------------------------------------------------------

  /**
    A task created through one goal's path is in the list later served for another goal's path exactly when the two
    ids start with the same decimal digits, leading zeros aside, whoever owns the goals.
   */
  lemma {:induction false} ListShowsTaskIff(
    buckets: Buckets, goals: Goals, table: Table, create: Request,
    buckets': Buckets, goals': Goals, later: Table, select: Query, list: Request)
    requires var created := HandleCreate(buckets, goals, table, create).2;
             created.TaskCreated? && StillHolds(later, created.task)
    requires AnswersQuery(later, select) && HandleList(buckets', goals', select, list).1.TaskList?
    ensures var task := HandleCreate(buckets, goals, table, create).2.task;
            (exists r :: r in HandleList(buckets', goals', select, list).1.tasks && r.id == task.id) <==>
            StripZeros(DecimalPrefix(create.goalArg)) == StripZeros(DecimalPrefix(list.goalArg))
  {
    hide CheckMap, StollOf, StripZeros, DecimalPrefix, ObjectIdText;
    ObjectIdsCollideIff(create.goalArg, list.goalArg);
    var task, goalId := HandleCreate(buckets, goals, table, create).2.task, StollOf(list.goalArg).value;
    assert SelectByGoal(later, goalId, select(goalId));
    if task.goalId == goalId {
      assert later.rows[task.id].task in select(goalId);
    }
  }

  /** A task a request created is held by the table ever after, whatever is created and updated next. */
  lemma {:induction false} CreatedTaskStays(
    buckets: Buckets, goals: Goals, table: Table, create: Request, ops: seq<Op>, n: nat)
    requires Sound(table) && n <= |ops| && HandleCreate(buckets, goals, table, create).2.TaskCreated?
    ensures var (_, table', created) := HandleCreate(buckets, goals, table, create);
            Sound(table') && StillHolds(TableFrom(table', ops, n), created.task)
  {
    hide CheckMap, StollOf;
    var (_, table', created) := HandleCreate(buckets, goals, table, create);
    RunsKeepTasks(table', ops, n, created.task.id);
  }

  /**
    Two users with a goal each, the ids starting with 6a and 6b, and a goal row 6: the first user's task is the
    second user's whole list.
   */
  lemma {:induction false} StrangersShareAList(
    owner: UserId, stranger: UserId, ownId: string, otherId: string, now: Instant, select: Query)
    requires ObjectIdText(ownId) && ObjectIdText(otherId) && "6a" <= ownId && "6b" <= otherId && owner != stranger
    requires var (table, _) := Insert(NewTable({6}), 6, "write tests", 0); AnswersQuery(table, select)
    ensures var goals := map[Canonical(ownId) := owner, Canonical(otherId) := stranger];
            var create := Request("write tests", Some(owner), ownId, now, now, 0);
            var list := Request("", Some(stranger), otherId, now, now, 0);
            var (_, table, created) := HandleCreate(map[], goals, NewTable({6}), create);
            created == TaskCreated(TaskRecord(1, 6, "write tests", "todo")) && AnswersQuery(table, select) &&
            HandleList(map[], goals, select, list).1 == TaskList([created.task])
  {
    DigitThenLetter(ownId);
    DigitThenLetter(otherId);
    assert Canonical(ownId)[1] == 'a' && Canonical(otherId)[1] == 'b';
    OnlyTaskListed(select);
    hide StollOf, AnswersQuery, ObjectIdText, Canonical;
  }

  /** When a table holds one task the query for its goal has one answer. */
  lemma {:induction false} OnlyTaskListed(select: Query)
    requires var (table, _) := Insert(NewTable({6}), 6, "write tests", 0); AnswersQuery(table, select)
    ensures select(6) == [TaskRecord(1, 6, "write tests", "todo")]
  {
    var (table, _) := Insert(NewTable({6}), 6, "write tests", 0);
    var task := TaskRecord(1, 6, "write tests", "todo");
    assert SelectByGoal(table, 6, select(6));
    InsertKeepsAgreement(NewTable({6}), [], 6, "write tests", 0);
    assert Append([], 6, "write tests") == [task];
    OrderedQueryIsGroup(table, [task], 6, select(6));
    NoTaskOf([], 6);
    AppendOfGoal([], 6, "write tests", 6);
  }
}
