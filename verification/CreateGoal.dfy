/** The create-goal handler: validate, identify, limit, insert. */
module CreateGoal {
  import opened Wrappers
  import opened Clock
  import opened TokenBuckets
  import opened Bursts
  import opened RateLimiter

  /** A document of the goals collection. */
  datatype Goal = Goal(id: string, title: string, description: string, userId: UserId)

  /**
    A parsed request: `user` is absent when the request context carries no user id, `oid` is the generated
    document id.
   */
  datatype Request = Request(
    title: string, description: Option<string>, user: Option<UserId>, oid: string, now: Instant, created: Instant)

  datatype Response =
    | BadRequest
    | Unauthorized
    | TooManyRequests(limit: int, remaining: int, reset: int)
    | Created(goal: Goal)

  /** What the handler reads and writes: its limiter's map and the goals collection in insertion order. */
  datatype Server = Server(buckets: Buckets, goals: seq<Goal>)

  /** The request passes validation and carries a user, so it reaches the limiter. */
  predicate ReachesLimiter(request: Request) {
    request.title != "" && request.user.Some?
  }

  function LimiterCall(request: Request): Call
    requires ReachesLimiter(request)
  {
    Call(request.user.value, request.now, request.created)
  }

  function NewGoal(request: Request): Goal
    requires request.user.Some?
  {
    Goal(request.oid, request.title,
         if request.description.Some? then request.description.value else "", request.user.value)
  }

  function Handle(server: Server, request: Request): (Server, Response) {
    if request.title == "" then (server, BadRequest)
    else if request.user.None? then (server, Unauthorized)
    else
      var (buckets, decision) := CheckMap(server.buckets, LimiterCall(request));
      if decision.admitted then
        (Server(buckets, server.goals + [NewGoal(request)]), Created(NewGoal(request)))
      else
        (server.(buckets := buckets), TooManyRequests(2, decision.remaining, 1))
  }

  class CreateGoalHandler {
    const limiter: RateLimiter
    var goals: seq<Goal>

    constructor (limiter: RateLimiter)
      ensures this.limiter == limiter && goals == []
    {
      this.limiter := limiter;
      goals := [];
    }

    method HandleRequest(request: Request) returns (response: Response)
      modifies this, limiter
      ensures (Server(limiter.rateLimits, goals), response) ==
        Handle(Server(old(limiter.rateLimits), old(goals)), request)
    {
      if request.title == "" {
        return BadRequest;
      }
      if request.user.None? {
        return Unauthorized;
      }
      var user := request.user.value;
      var admitted, remaining := limiter.CheckRateLimit(user, request.now, request.created);
      if !admitted {
        return TooManyRequests(2, remaining, 1);
      }
      var goal := Goal(request.oid, request.title, match request.description case Some(d) => d case None => "", user);
      goals := goals + [goal];
      return Created(goal);
    }
  }

  // ---- Which answer, and what it stores --------------------------------------------------------

  /** The goal carries the request's text, an absent description being empty, its generated id and its user. */
  predicate Carries(goal: Goal, request: Request) {
    && goal.id == request.oid && goal.title == request.title && request.user == Some(goal.userId)
    && goal.description == match request.description { case Some(text) => text case None => "" }
  }

  /** The answers that come before the limiter: a missing title first, then a missing user; neither costs a token. */
  lemma {:induction false} RefusedBeforeLimiter(server: Server, request: Request)
    ensures var (server', response) := Handle(server, request);
            && (response == BadRequest <==> request.title == "")
            && (response == Unauthorized <==> request.title != "" && request.user.None?)
            && (request.title == "" || request.user.None? ==> server' == server)
  {
    hide CheckMap;
  }

  /** Any other request makes one limiter call: a denial is answered 429, an admission stores what it carries. */
  lemma {:induction false} LimiterDecides(server: Server, request: Request)
    requires request.title != "" && request.user.Some?
    ensures var (server', response) := Handle(server, request);
            var (after, decision) := CheckMap(server.buckets, Call(request.user.value, request.now, request.created));
            && server'.buckets == after
            && (!decision.admitted ==>
                  response == TooManyRequests(2, decision.remaining, 1) && server'.goals == server.goals)
            && (decision.admitted ==>
                  response.Created? && Carries(response.goal, request) &&
                  server'.goals == server.goals + [response.goal])
  {
    hide CheckMap;
  }

  // ---- Runs ------------------------------------------------------------------------------------

  /** The server after the first `n` requests to a new one. */
  function ServerAt(requests: seq<Request>, n: nat): Server
    requires n <= |requests|
  {
    if n == 0 then Server(map[], []) else Handle(ServerAt(requests, n - 1), requests[n - 1]).0
  }

  function ResponseAt(requests: seq<Request>, i: nat): Response
    requires i < |requests|
  {
    Handle(ServerAt(requests, i), requests[i]).1
  }

  /** The limiter calls made by the first `n` requests. */
  function LimiterCalls(requests: seq<Request>, n: nat): seq<Call>
    requires n <= |requests|
  {
    if n == 0 then []
    else if ReachesLimiter(requests[n - 1]) then LimiterCalls(requests, n - 1) + [LimiterCall(requests[n - 1])]
    else LimiterCalls(requests, n - 1)
  }

  /** The handler drives its limiter with exactly the valid requests; the others cost no tokens. */
  lemma {:induction false} HandlerDrivesLimiter(requests: seq<Request>, n: nat)
    requires n <= |requests|
    ensures var calls := LimiterCalls(requests, n);
            ServerAt(requests, n).buckets == MapAt(calls, |calls|)
    ensures n > 0 ==>
              var calls := LimiterCalls(requests, n);
              var response := ResponseAt(requests, n - 1);
              (response.Created? <==> ReachesLimiter(requests[n - 1]) && AnswerAt(calls, |calls| - 1).admitted) &&
              (response.TooManyRequests? ==>
                 ReachesLimiter(requests[n - 1]) && !AnswerAt(calls, |calls| - 1).admitted &&
                 response == TooManyRequests(2, AnswerAt(calls, |calls| - 1).remaining, 1))
  {
    hide CheckMap;
    if n > 0 {
      HandlerDrivesLimiter(requests, n - 1);
      if ReachesLimiter(requests[n - 1]) {
        AnswersAfterOneMore(LimiterCalls(requests, n - 1), LimiterCall(requests[n - 1]));
      }
    }
  }

  /** A limited client is always told: two allowed, none left, try again in a second. */
  lemma {:induction false} LimitedResponse(requests: seq<Request>, i: nat)
    requires OrderedRequests(requests) && i < |requests| && requests[i].user.Some?
    requires var calls := LimiterCalls(requests, i + 1); PromptFor(calls, requests[i].user.value, |calls|)
    requires ResponseAt(requests, i).TooManyRequests?
    ensures ResponseAt(requests, i) == TooManyRequests(2, 0, 1)
  {
    hide CheckMap;
    var calls := LimiterCalls(requests, i + 1);
    HandlerDrivesLimiter(requests, i + 1);
    LimiterCallsOrdered(requests, i + 1);
    DenialLeavesNothing(calls, |calls| - 1);
  }

  /** The goals answered with 201 among the first `n` requests, in order. */
  function CreatedGoals(requests: seq<Request>, n: nat): seq<Goal>
    requires n <= |requests|
  {
    if n == 0 then []
    else if ResponseAt(requests, n - 1).Created? then CreatedGoals(requests, n - 1) + [ResponseAt(requests, n - 1).goal]
    else CreatedGoals(requests, n - 1)
  }

  /** The collection holds exactly the goals clients were told were created, each owned by its requester. */
  lemma {:induction false} CollectionIsWhatWasAcknowledged(requests: seq<Request>, n: nat)
    requires n <= |requests|
    ensures ServerAt(requests, n).goals == CreatedGoals(requests, n)
    ensures n > 0 && ResponseAt(requests, n - 1).Created? ==>
              requests[n - 1].user == Some(ResponseAt(requests, n - 1).goal.userId)
    ensures n > 0 && !ResponseAt(requests, n - 1).Created? ==>
              ServerAt(requests, n).goals == ServerAt(requests, n - 1).goals
  {
    if n > 0 {
      CollectionIsWhatWasAcknowledged(requests, n - 1);
    }
  }

  /**
    The collection holds, in the order of the requests, what each request answered with 201 carried: yields the
    request behind every goal.
   */
  lemma {:induction false} GoalsCarryRequests(requests: seq<Request>, n: nat) returns (positions: seq<nat>)
    requires n <= |requests|
    ensures var goals := ServerAt(requests, n).goals;
            && |positions| == |goals|
            && (forall k :: 0 <= k < |goals| ==> positions[k] < n && Carries(goals[k], requests[positions[k]]))
    ensures forall j, k :: 0 <= j < k < |positions| ==> positions[j] < positions[k]
    ensures forall i :: 0 <= i < n ==> (i in positions <==> ResponseAt(requests, i).Created?)
  {
    if n == 0 {
      positions := [];
    } else {
      positions := GoalsCarryRequests(requests, n - 1);
      RefusedBeforeLimiter(ServerAt(requests, n - 1), requests[n - 1]);
      if requests[n - 1].title != "" && requests[n - 1].user.Some? {
        LimiterDecides(ServerAt(requests, n - 1), requests[n - 1]);
      }
      hide Handle, CheckMap, Carries;
      if ResponseAt(requests, n - 1).Created? {
        positions := positions + [n - 1];
      }
    }
  }

  /** Request `i` made the collection grow by a goal of `user`. */
  predicate Inserts(requests: seq<Request>, user: UserId, i: nat)
    requires i < |requests|
  {
    var before, after := ServerAt(requests, i).goals, ServerAt(requests, i + 1).goals;
    |before| < |after| && after[|before|].userId == user
  }

  lemma InsertsIff(requests: seq<Request>, user: UserId, i: nat)
    requires i < |requests|
    ensures Inserts(requests, user, i) <==> ResponseAt(requests, i).Created? && requests[i].user == Some(user)
  {
  }

  /**
    How many of the first `n` requests whose limiter read the clock in `[from, from + length]` inserted a goal
    for `user`.
   */
  function WindowInsertions(requests: seq<Request>, user: UserId, n: nat, from: Instant, length: int): nat
    requires n <= |requests|
  {
    if n == 0 then 0
    else
      WindowInsertions(requests, user, n - 1, from, length) +
      if from <= requests[n - 1].now <= from + length && Inserts(requests, user, n - 1) then 1 else 0
  }

  /** The limiter window grows with a request exactly when the handler inserts. */
  lemma LimiterWindowStep(requests: seq<Request>, user: UserId, n: nat, from: Instant, length: int)
    requires 0 < n <= |requests|
    ensures var before, after := LimiterCalls(requests, n - 1), LimiterCalls(requests, n);
            UserWindow(after, user, |after|, from, length) ==
            UserWindow(before, user, |before|, from, length) +
            if from <= requests[n - 1].now <= from + length && Inserts(requests, user, n - 1) then 1 else 0
  {
    hide CheckMap;
    InsertsIff(requests, user, n - 1);
    HandlerDrivesLimiter(requests, n);
    if ReachesLimiter(requests[n - 1]) {
      var calls := LimiterCalls(requests, n - 1);
      UserWindowPrefix(calls, [LimiterCall(requests[n - 1])], user, |calls|, from, length);
    }
  }

  lemma {:induction false} InsertionsAreAdmissions(
    requests: seq<Request>, user: UserId, n: nat, from: Instant, length: int)
    requires n <= |requests|
    ensures var calls := LimiterCalls(requests, n);
            WindowInsertions(requests, user, n, from, length) == UserWindow(calls, user, |calls|, from, length)
  {
    hide CheckMap;
    if n > 0 {
      InsertionsAreAdmissions(requests, user, n - 1, from, length);
      LimiterWindowStep(requests, user, n, from, length);
    }
  }

  /** Requests are listed in the order of the clock reads made under the limiter's lock. */
  ghost predicate OrderedRequests(requests: seq<Request>) {
    forall i, j :: 0 <= i <= j < |requests| ==> requests[i].now <= requests[j].now
  }

  lemma {:induction false} LimiterCallsOrdered(requests: seq<Request>, n: nat)
    requires OrderedRequests(requests) && n <= |requests|
    ensures Ordered(LimiterCalls(requests, n))
    ensures n > 0 ==> forall k :: 0 <= k < |LimiterCalls(requests, n)| ==>
      LimiterCalls(requests, n)[k].now <= requests[n - 1].now
  {
    if n > 0 {
      LimiterCallsOrdered(requests, n - 1);
      assert n > 1 ==> requests[n - 2].now <= requests[n - 1].now;
    }
  }

  /**
    The limiter's window budget carries over to insertions, counted by the limiter's clock reads. `ServedGoals`
    counts them by the time they are made.
   */
  lemma GoalThroughputBound(requests: seq<Request>, user: UserId, from: Instant, length: int)
    requires OrderedRequests(requests) && 0 <= length
    ensures WindowInsertions(requests, user, |requests|, from, length) <= 2 + 2 * WholeSeconds(length)
  {
    InsertionsAreAdmissions(requests, user, |requests|, from, length);
    LimiterCallsOrdered(requests, |requests|);
    UserWindowBound(LimiterCalls(requests, |requests|), user, from, length);
  }

  // ---- Exactly how many goals ------------------------------------------------------------------

  function GoalsOf(goals: seq<Goal>, user: UserId): nat {
    if goals == [] then 0
    else GoalsOf(goals[..|goals| - 1], user) + if goals[|goals| - 1].userId == user then 1 else 0
  }

  function AdmittedIn(answers: seq<Decision>): nat {
    if answers == [] then 0
    else AdmittedIn(answers[..|answers| - 1]) + if answers[|answers| - 1].admitted then 1 else 0
  }

  lemma GoalsOfSnoc(goals: seq<Goal>, goal: Goal, user: UserId)
    ensures GoalsOf(goals + [goal], user) == GoalsOf(goals, user) + if goal.userId == user then 1 else 0
  {
    assert (goals + [goal])[..|goals|] == goals;
  }

  lemma AdmittedInSnoc(answers: seq<Decision>, answer: Decision)
    ensures AdmittedIn(answers + [answer]) == AdmittedIn(answers) + if answer.admitted then 1 else 0
  {
    assert (answers + [answer])[..|answers|] == answers;
  }

  /** One more limiter call adds its answer to its own user's answers. */
  lemma UserAnswersStep(calls: seq<Call>, call: Call, user: UserId)
    ensures var more := calls + [call];
            UserAnswers(more, user, |more|) ==
            if call.user == user then UserAnswers(calls, user, |calls|) + [AnswerAt(more, |calls|)]
            else UserAnswers(calls, user, |calls|)
  {
    UserAnswersPrefix(calls, [call], user, |calls|);
  }

  /** A request adds one to its user's goals exactly when it inserts. */
  lemma GoalsStep(requests: seq<Request>, user: UserId, i: nat)
    requires i < |requests|
    ensures GoalsOf(ServerAt(requests, i + 1).goals, user) ==
            GoalsOf(ServerAt(requests, i).goals, user) + if Inserts(requests, user, i) then 1 else 0
  {
    if ResponseAt(requests, i).Created? {
      GoalsOfSnoc(ServerAt(requests, i).goals, NewGoal(requests[i]), user);
    }
  }

  function UserAdmissions(calls: seq<Call>, user: UserId): nat {
    AdmittedIn(UserAnswers(calls, user, |calls|))
  }

  lemma UserAdmissionsStep(calls: seq<Call>, call: Call, user: UserId)
    ensures UserAdmissions(calls + [call], user) ==
            UserAdmissions(calls, user) +
            if call.user == user && AnswerAt(calls + [call], |calls|).admitted then 1 else 0
  {
    UserAnswersStep(calls, call, user);
    AdmittedInSnoc(UserAnswers(calls, user, |calls|), AnswerAt(calls + [call], |calls|));
  }

  /** A request adds one to its user's admissions exactly when it inserts. */
  lemma AdmissionsStep(requests: seq<Request>, user: UserId, i: nat)
    requires i < |requests|
    ensures UserAdmissions(LimiterCalls(requests, i + 1), user) ==
            UserAdmissions(LimiterCalls(requests, i), user) + if Inserts(requests, user, i) then 1 else 0
  {
    hide CheckMap;
    InsertsIff(requests, user, i);
    HandlerDrivesLimiter(requests, i + 1);
    if ReachesLimiter(requests[i]) {
      UserAdmissionsStep(LimiterCalls(requests, i), LimiterCall(requests[i]), user);
    }
  }

  lemma {:induction false} GoalsCountAnswers(requests: seq<Request>, user: UserId, n: nat)
    requires n <= |requests|
    ensures GoalsOf(ServerAt(requests, n).goals, user) == UserAdmissions(LimiterCalls(requests, n), user)
  {
    if n > 0 {
      hide *;
      GoalsCountAnswers(requests, user, n - 1);
      GoalsStep(requests, user, n - 1);
      AdmissionsStep(requests, user, n - 1);
    }
  }

  /** How many of the first `n` requests of a client whose bucket was built `late` seconds late are admitted. */
  ghost function LateAdmissions(late: int, times: seq<Instant>, n: nat): nat
    requires n <= |times|
  {
    if n == 0 then 0
    else
      LateAdmissions(late, times, n - 1) +
      if Paused(times, n - 1) >= late && RecentSilence(times, n - 1) then 1 else 0
  }

  lemma {:induction false} AdmittedAreCounted(answers: seq<Decision>, late: int, times: seq<Instant>, n: nat)
    requires n <= |answers| == |times|
    requires forall k :: 0 <= k < |times| ==> answers[k] == LateDecision(late, times, k)
    ensures AdmittedIn(answers[..n]) == LateAdmissions(late, times, n)
  {
    if n > 0 {
      AdmittedAreCounted(answers, late, times, n - 1);
      LateAdmitsIff(late, times, n - 1);
      assert answers[..n][..n - 1] == answers[..n - 1];
    }
  }

  /** How many of a user's calls the limiter admits, by the spacing of that user's own calls. */
  lemma {:induction false} UserAdmissionsExactly(calls: seq<Call>, user: UserId)
    requires Ordered(calls) && forall i :: 0 <= i < |calls| ==> calls[i].now <= calls[i].created
    ensures var times := UserTimes(calls, user, |calls|);
            UserAdmissions(calls, user) == LateAdmissions(LateBy(calls, user, |calls|), times, |times|)
  {
    hide LateDecision, CheckMap;
    var times, answers := UserTimes(calls, user, |calls|), UserAnswers(calls, user, |calls|);
    UserLateClosedForm(calls, user);
    AdmittedAreCounted(answers, LateBy(calls, user, |calls|), times, |times|);
    assert answers[..|times|] == answers;
  }

  /** Every call reads the clock before it may build a bucket. */
  ghost predicate ReadThenBuilt(calls: seq<Call>) {
    forall i :: 0 <= i < |calls| ==> calls[i].now <= calls[i].created
  }

  lemma {:induction false} OneMoreRead(calls: seq<Call>, call: Call)
    requires ReadThenBuilt(calls) && call.now <= call.created
    ensures ReadThenBuilt(calls + [call])
  {
  }

  lemma {:induction false} LimiterCallsRead(requests: seq<Request>, n: nat)
    requires n <= |requests| && forall i :: 0 <= i < |requests| ==> requests[i].now <= requests[i].created
    ensures ReadThenBuilt(LimiterCalls(requests, n))
  {
    if n == 0 {
      assert LimiterCalls(requests, 0) == [];
    } else {
      LimiterCallsRead(requests, n - 1);
      hide ReadThenBuilt;
      if ReachesLimiter(requests[n - 1]) {
        OneMoreRead(LimiterCalls(requests, n - 1), LimiterCall(requests[n - 1]));
      }
    }
  }

  /**
    The number of goals a user ends up with is a function of the spacing of that user's own valid requests and of
    how late that user's bucket was built.
   */
  lemma {:induction false} GoalsStoredExactly(requests: seq<Request>, user: UserId)
    requires OrderedRequests(requests) && forall i :: 0 <= i < |requests| ==> requests[i].now <= requests[i].created
    ensures var calls := LimiterCalls(requests, |requests|);
            var times := UserTimes(calls, user, |calls|);
            GoalsOf(ServerAt(requests, |requests|).goals, user) ==
            LateAdmissions(LateBy(calls, user, |calls|), times, |times|)
  {
    GoalsCountAnswers(requests, user, |requests|);
    LimiterCallsOrdered(requests, |requests|);
    LimiterCallsRead(requests, |requests|);
    UserAdmissionsExactly(LimiterCalls(requests, |requests|), user);
  }
}
