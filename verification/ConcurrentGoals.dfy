/**
  The create-goal endpoint under concurrency: threads validate a request, run the rate-limit check step by step, and
  insert into the goals collection when they have given the mutex back.
 */
module ConcurrentGoals {
  import opened Wrappers
  import opened Clock
  import opened RateLimiter
  import opened CreateGoal
  import opened ConcurrentLimiter
  import opened ServedGoals

  /** The limiter's world, what each thread is working on, and the goals collection in insertion order. */
  datatype Backend = Backend(world: World, requests: map<ThreadId, Request>, goals: seq<Goal>)

  /** A step of the endpoint; the clock reads in a request are not used, the steps make their own. */
  datatype Event =
    | Receive(thread: ThreadId, request: Request)
    | Inside(action: Action)
    | Insert(thread: ThreadId)

  predicate Possible(b: Backend, e: Event) {
    match e
    case Receive(t, _) => b.world.PhaseOf(t).Idle?
    case Inside(a) => !a.Invoke? && !a.Serve? && Enabled(b.world, a)
    case Insert(t) => b.world.PhaseOf(t).Serving? && t in b.requests && b.requests[t].user.Some?
  }

  function Do(b: Backend, e: Event): Backend
    requires Possible(b, e)
  {
    match e
    case Receive(t, request) =>
      if ReachesLimiter(request) then
        b.(world := Apply(b.world, Invoke(t, request.user.value)), requests := b.requests[t := request])
      else b
    case Inside(a) => b.(world := Apply(b.world, a))
    case Insert(t) => b.(world := Apply(b.world, Serve(t)), goals := b.goals + [NewGoal(b.requests[t])])
  }

  /** The endpoint after a list of events, when each was possible in its turn. */
  function Run(clock: Instant, events: seq<Event>): Option<Backend> {
    if events == [] then Some(Backend(Initial(clock), map[], []))
    else
      match Run(clock, events[..|events| - 1])
      case None => None
      case Some(b) =>
        var e := events[|events| - 1];
        if Possible(b, e) then Some(Do(b, e)) else None
  }

  // ---- The limiter inside ----------------------------------------------------------------------

  /** What the limiter sees of the events: requests that fail validation never reach it. */
  function LimiterActions(events: seq<Event>): seq<Action> {
    if events == [] then []
    else
      var before := LimiterActions(events[..|events| - 1]);
      match events[|events| - 1]
      case Receive(t, request) => if ReachesLimiter(request) then before + [Invoke(t, request.user.value)] else before
      case Inside(a) => before + [a]
      case Insert(t) => before + [Serve(t)]
  }

  /** Every run of the endpoint is an execution of its limiter. */
  lemma {:induction false} RunsTheLimiter(clock: Instant, events: seq<Event>)
    requires Run(clock, events).Some?
    ensures After(clock, LimiterActions(events)) == Some(Run(clock, events).value.world)
  {
    hide Apply, Enabled;
    if events != [] {
      RunsTheLimiter(clock, events[..|events| - 1]);
      RunsOneMore(clock, events);
    }
  }

  lemma {:induction false} RunsOneMore(clock: Instant, events: seq<Event>)
    requires events != [] && Run(clock, events).Some?
    requires var before := events[..|events| - 1];
             After(clock, LimiterActions(before)) == Some(Run(clock, before).value.world)
    ensures After(clock, LimiterActions(events)) == Some(Run(clock, events).value.world)
  {
    hide Apply, After;
    var before := LimiterActions(events[..|events| - 1]);
    match events[|events| - 1]
    case Receive(t, request) =>
      if ReachesLimiter(request) {
        AfterOneMore(clock, before, Invoke(t, request.user.value));
      }
    case Inside(a) => AfterOneMore(clock, before, a);
    case Insert(t) => AfterOneMore(clock, before, Serve(t));
  }

  // ---- The collection against the limiter's log ------------------------------------------------

  /** A thread at `phase` works for `user`. */
  predicate WorksFor(log: seq<Entry>, phase: Phase, user: UserId) {
    match phase
    case Idle => true
    case Waiting(u, _) => u == user
    case Locked(u, _) => u == user
    case Stamped(u, _, _) => u == user
    case Found(call, _) => call.user == user
    case Credited(call, _) => call.user == user
    case Refilled(call, _) => call.user == user
    case Decided(call, _, _) => call.user == user
    case Serving(entry) => entry < |log| && log[entry].call.user == user
  }

  /** Each busy thread has a valid request of the user it works for. */
  ghost predicate RequestsMatch(b: Backend) {
    forall t :: !b.world.PhaseOf(t).Idle? ==>
      t in b.requests && ReachesLimiter(b.requests[t]) &&
      WorksFor(b.world.log, b.world.PhaseOf(t), b.requests[t].user.value)
  }

  /** The goals are, in order, those of the services: titled, and owned by the user whose call was admitted. */
  ghost predicate GoalsMatch(b: Backend) {
    && |b.goals| == |b.world.served|
    && forall k :: 0 <= k < |b.goals| ==>
         b.goals[k].title != "" && b.world.served[k].entry < |b.world.log| &&
         b.goals[k].userId == b.world.log[b.world.served[k].entry].call.user
  }

  /** The limiter's steps change neither the user a thread works for nor who is idle, but for a denied return. */
  lemma {:induction false} WorkKept(w: World, a: Action, t: ThreadId, user: UserId)
    requires Enabled(w, a) && !a.Invoke? && WorksFor(w.log, w.PhaseOf(t), user)
    ensures WorksFor(Apply(w, a).log, Apply(w, a).PhaseOf(t), user)
    ensures w.PhaseOf(t).Idle? ==> Apply(w, a).PhaseOf(t).Idle?
  {
    hide WholeSeconds, Truncate;
  }

  lemma {:induction false} LogGrows(w: World, a: Action)
    requires Enabled(w, a)
    ensures |w.log| <= |Apply(w, a).log| && Apply(w, a).log[..|w.log|] == w.log
    ensures Apply(w, a).served
         == if a.Serve? then w.served + [Service(w.PhaseOf(a.thread).entry, w.clock)] else w.served
  {
    hide WholeSeconds, Truncate;
  }

  lemma {:induction false} RequestsMatchKept(b: Backend, e: Event)
    requires Possible(b, e) && RequestsMatch(b)
    ensures RequestsMatch(Do(b, e))
  {
    var b' := Do(b, e);
    forall t | !b'.world.PhaseOf(t).Idle?
      ensures t in b'.requests && ReachesLimiter(b'.requests[t])
      ensures WorksFor(b'.world.log, b'.world.PhaseOf(t), b'.requests[t].user.value)
    {
      match e
      case Receive(u, request) =>
      case Inside(a) =>
        WorkKept(b.world, a, t, if t in b.requests && b.requests[t].user.Some? then b.requests[t].user.value else 0);
      case Insert(u) =>
    }
  }

  lemma {:induction false} GoalsMatchKept(b: Backend, e: Event)
    requires Possible(b, e) && RequestsMatch(b) && GoalsMatch(b)
    ensures GoalsMatch(Do(b, e))
  {
    match e
    case Receive(t, request) =>
    case Inside(a) =>
      hide Apply, Enabled;
      LogGrows(b.world, a);
      assert forall k :: 0 <= k < |b.world.log| ==> Apply(b.world, a).log[k] == b.world.log[k];
    case Insert(t) =>
  }

  lemma {:induction false} RunKeepsMatch(clock: Instant, events: seq<Event>)
    requires Run(clock, events).Some?
    ensures RequestsMatch(Run(clock, events).value) && GoalsMatch(Run(clock, events).value)
  {
    if events != [] {
      hide RequestsMatch, GoalsMatch, Possible, Do;
      RunKeepsMatch(clock, events[..|events| - 1]);
      RequestsMatchKept(Run(clock, events[..|events| - 1]).value, events[|events| - 1]);
      GoalsMatchKept(Run(clock, events[..|events| - 1]).value, events[|events| - 1]);
    } else {
      assert Run(clock, events) == Some(Backend(Initial(clock), map[], []));
    }
  }

  // ---- Where each goal comes from --------------------------------------------------------------

  /** How many of the events insert. */
  function Inserts(events: seq<Event>): nat {
    if events == [] then 0 else Inserts(events[..|events| - 1]) + if events[|events| - 1].Insert? then 1 else 0
  }

  /** Event `e` has the thread take up a new request that passes validation. */
  predicate TakesUp(e: Event, thread: ThreadId) {
    e.Receive? && e.thread == thread && ReachesLimiter(e.request)
  }

  /** Event `i` is the last before `j` with which the thread took up a request. */
  ghost predicate LastTakenUp(events: seq<Event>, thread: ThreadId, i: nat, j: nat) {
    && i < j <= |events| && TakesUp(events[i], thread)
    && forall m :: i < m < j ==> !TakesUp(events[m], thread)
  }

  /** Goal number `k` was inserted by the `k`-th insertion and carries the request its thread had last taken up. */
  ghost predicate Traced(events: seq<Event>, goal: Goal, k: nat) {
    exists i, j ::
      && 0 <= i < j < |events| && events[j].Insert? && Inserts(events[..j]) == k
      && LastTakenUp(events, events[j].thread, i, j) && Carries(goal, events[i].request)
  }

  /** The request on a thread's desk is the one it last took up. */
  lemma {:induction false} DeskIsLastTakenUp(clock: Instant, events: seq<Event>, t: ThreadId) returns (i: nat)
    requires Run(clock, events).Some? && t in Run(clock, events).value.requests
    ensures LastTakenUp(events, t, i, |events|) && events[i].request == Run(clock, events).value.requests[t]
  {
    var before, last := events[..|events| - 1], events[|events| - 1];
    if TakesUp(last, t) {
      i := |events| - 1;
    } else {
      i := DeskIsLastTakenUp(clock, before, t);
      assert forall m :: 0 <= m < |before| ==> before[m] == events[m];
    }
  }

  lemma {:induction false} TracedExtends(events: seq<Event>, e: Event, goal: Goal, k: nat)
    requires Traced(events, goal, k)
    ensures Traced(events + [e], goal, k)
  {
    var i, j :|
      && 0 <= i < j < |events| && events[j].Insert? && Inserts(events[..j]) == k
      && LastTakenUp(events, events[j].thread, i, j) && Carries(goal, events[i].request);
    var longer := events + [e];
    assert longer[..j] == events[..j] && longer[j] == events[j] && longer[i] == events[i];
    assert LastTakenUp(longer, longer[j].thread, i, j);
  }

  /**
    Under every interleaving the collection holds one goal for each insertion, in that order, and each goal carries
    the id, title, description and user of the request its thread had last taken up.
   */
  lemma {:induction false} GoalsCarryTheirRequests(clock: Instant, events: seq<Event>)
    requires Run(clock, events).Some?
    ensures var goals := Run(clock, events).value.goals;
            |goals| == Inserts(events) && forall k :: 0 <= k < |goals| ==> Traced(events, goals[k], k)
  {
    if events != [] {
      var before, e := events[..|events| - 1], events[|events| - 1];
      GoalsCarryTheirRequests(clock, before);
      var b, goals := Run(clock, before).value, Run(clock, events).value.goals;
      assert events == before + [e];
      hide Apply, Enabled, Traced;
      forall k | 0 <= k < |b.goals|
        ensures Traced(events, goals[k], k)
      {
        TracedExtends(before, e, b.goals[k], k);
      }
      if e.Insert? {
        InsertIsTraced(clock, events);
      }
    }
  }

  lemma {:induction false} InsertIsTraced(clock: Instant, events: seq<Event>)
    requires events != [] && Run(clock, events).Some? && events[|events| - 1].Insert?
    requires |Run(clock, events[..|events| - 1]).value.goals| == Inserts(events[..|events| - 1])
    ensures var goals := Run(clock, events).value.goals;
            goals != [] && Traced(events, goals[|goals| - 1], |goals| - 1)
  {
    hide Apply, Enabled;
    var j := |events| - 1;
    var before := events[..j];
    var i := DeskIsLastTakenUp(clock, before, events[j].thread);
    assert forall m :: 0 <= m < j ==> before[m] == events[m];
    assert LastTakenUp(events, events[j].thread, i, j);
  }

  /** A thread with an admitted call can always make its insertion. */
  lemma {:induction false} InsertNeverBlocked(clock: Instant, events: seq<Event>, t: ThreadId)
    requires Run(clock, events).Some? && Run(clock, events).value.world.PhaseOf(t).Serving?
    ensures Possible(Run(clock, events).value, Insert(t))
  {
    RunKeepsMatch(clock, events);
  }

  lemma RunOneMore(clock: Instant, events: seq<Event>, e: Event)
    requires Run(clock, events).Some? && Possible(Run(clock, events).value, e)
    ensures Run(clock, events + [e]) == Some(Do(Run(clock, events).value, e))
  {
    assert (events + [e])[..|events|] == events;
  }

  /** Conversely every execution of the limiter is what some run of the endpoint drives it through. */
  lemma {:induction false} EveryExecutionRuns(clock: Instant, actions: seq<Action>) returns (events: seq<Event>)
    requires After(clock, actions).Some?
    ensures Run(clock, events).Some? && Run(clock, events).value.world == After(clock, actions).value
  {
    if actions == [] {
      events := [];
    } else {
      hide Apply, After, Run;
      events := EveryExecutionRuns(clock, actions[..|actions| - 1]);
      events := OneMoreEvent(clock, events, actions[|actions| - 1]);
    }
  }

  lemma {:induction false} OneMoreEvent(
    clock: Instant, events: seq<Event>, a: Action) returns (longer: seq<Event>)
    requires Run(clock, events).Some? && Enabled(Run(clock, events).value.world, a)
    ensures Run(clock, longer).Some? && Run(clock, longer).value.world == Apply(Run(clock, events).value.world, a)
  {
    var e := match a {
      case Invoke(t, user) => Receive(t, Request("goal", None, Some(user), "", 0, 0))
      case Serve(t) => Insert(t)
      case _ => Inside(a)
    };
    if a.Serve? {
      InsertNeverBlocked(clock, events, a.thread);
    }
    hide Apply, Run;
    RunOneMore(clock, events, e);
    longer := events + [e];
  }

  // ---- Goals by the time they are stored -------------------------------------------------------

  /** How many of the first `n` goals of the collection are `user`'s and were inserted in `[from, from + length]`. */
  function GoalsStored(b: Backend, user: UserId, n: nat, from: Instant, length: int): nat
    requires n <= |b.goals| == |b.world.served|
  {
    if n == 0 then 0
    else
      GoalsStored(b, user, n - 1, from, length) +
      if b.goals[n - 1].userId == user && from <= b.world.served[n - 1].at <= from + length then 1 else 0
  }

  lemma {:induction false} GoalsAreServices(b: Backend, user: UserId, n: nat, from: Instant, length: int)
    requires GoalsMatch(b) && n <= |b.goals|
    ensures GoalsStored(b, user, n, from, length) == StoredIn(b.world, user, n, from, length)
  {
    if n > 0 {
      GoalsAreServices(b, user, n - 1, from, length);
    }
  }

  /**
    Under every interleaving the collection gains at most two goals of one user within `length`, plus two for each
    whole second of `length` and the longest time an insertion trails its check.
   */
  lemma {:induction false} GoalsStoredBound(
    clock: Instant, events: seq<Event>, user: UserId, from: Instant, length: int, lag: int)
    requires Run(clock, events).Some? && 0 <= length && 0 <= lag
    requires StoredWithin(Run(clock, events).value.world, user, lag)
    ensures var b := Run(clock, events).value;
            |b.goals| == |b.world.served| &&
            GoalsStored(b, user, |b.goals|, from, length) <= 2 + 2 * WholeSeconds(length + lag)
  {
    RunKeepsMatch(clock, events);
    RunsTheLimiter(clock, events);
    hide Run, StoredWithin, WholeSeconds;
    var b := Run(clock, events).value;
    GoalsAreServices(b, user, |b.goals|, from, length);
    StoredThroughputBound(clock, LimiterActions(events), user, from, length, lag);
  }

  /**
    The bound is attained: some run stores `2 + 2 * k` goals of one user at a single instant, none more than `k`
    seconds after its check.
   */
  lemma {:induction false} GoalsMayBunch(user: UserId, k: nat) returns (events: seq<Event>)
    ensures Run(0, events).Some?
    ensures var b := Run(0, events).value;
            |b.goals| == |b.world.served| && StoredWithin(b.world, user, k * SECOND) &&
            GoalsStored(b, user, |b.goals|, k * SECOND, 0) == 2 + 2 * k
  {
    var actions := InsertionsMayBunch(user, k);
    events := EveryExecutionRuns(0, actions);
    RunKeepsMatch(0, events);
    hide Run, After;
    var b := Run(0, events).value;
    GoalsAreServices(b, user, |b.goals|, k * SECOND, 0);
  }

  // ---- Exactly how many goals ------------------------------------------------------------------

  /** No admitted call is still waiting for its insertion. */
  ghost predicate Settled(w: World) {
    forall t :: !w.PhaseOf(t).Serving?
  }

  /** In a window that holds the whole run, the goals stored are all the user's goals. */
  lemma {:induction false} AllGoalsStored(b: Backend, user: UserId, n: nat, from: Instant, length: int)
    requires n <= |b.goals| == |b.world.served|
    requires forall k :: 0 <= k < |b.world.served| ==> from <= b.world.served[k].at <= from + length
    ensures GoalsStored(b, user, n, from, length) == GoalsOf(b.goals[..n], user)
  {
    if n > 0 {
      StoredStep(b, user, n, from, length);
      hide *;
      AllGoalsStored(b, user, n - 1, from, length);
      GoalsOfPrefix(b.goals, n, user);
    } else {
      assert b.goals[..0] == [];
    }
  }

  lemma {:induction false} StoredStep(b: Backend, user: UserId, n: nat, from: Instant, length: int)
    requires 0 < n <= |b.goals| == |b.world.served|
    requires from <= b.world.served[n - 1].at <= from + length
    ensures GoalsStored(b, user, n, from, length) ==
            GoalsStored(b, user, n - 1, from, length) + if b.goals[n - 1].userId == user then 1 else 0
  {
  }

  lemma {:induction false} GoalsOfPrefix(goals: seq<Goal>, n: nat, user: UserId)
    requires 0 < n <= |goals|
    ensures GoalsOf(goals[..n], user) == GoalsOf(goals[..n - 1], user) + if goals[n - 1].userId == user then 1 else 0
  {
    hide *;
    assert goals[..n] == goals[..n - 1] + [goals[n - 1]];
    GoalsOfSnoc(goals[..n - 1], goals[n - 1], user);
  }

  /** In a window that holds the whole run, the calls admitted are all the user's admitted calls. */
  lemma {:induction false} AllCallsAdmitted(calls: seq<Call>, user: UserId, n: nat, from: Instant, length: int)
    requires n <= |calls| && forall i :: 0 <= i < |calls| ==> from <= calls[i].now <= from + length
    ensures UserWindow(calls, user, n, from, length) == AdmittedIn(UserAnswers(calls, user, n))
  {
    hide AnswerAt;
    if n > 0 {
      AllCallsAdmitted(calls, user, n - 1, from, length);
      AdmittedInSnoc(UserAnswers(calls, user, n - 1), AnswerAt(calls, n - 1));
    }
  }

  /** Every instant of a run, as a window. */
  lemma {:induction false} RunSpan(clock: Instant, actions: seq<Action>)
    requires After(clock, actions).Some?
    ensures var w := After(clock, actions).value;
            && (forall k :: 0 <= k < |w.served| ==> clock <= w.served[k].at <= w.clock)
            && (forall i :: 0 <= i < |w.log| ==> clock <= Calls(w.log)[i].now <= w.clock)
            && (forall i :: 0 <= i < |w.log| ==> Calls(w.log)[i].now <= Calls(w.log)[i].created)
            && clock <= w.clock
  {
    Linearizable(clock, actions);
    ReachableSince(clock, actions);
    ServicesAreDistinct(clock, actions);
    hide After, CheckMap;
    var w := After(clock, actions).value;
    forall i | 0 <= i < |w.log|
      ensures clock <= w.log[i].call.now <= w.log[i].call.created && w.log[i].call.now <= w.log[i].returned <= w.clock
    {
      assert EntryTimes(w.log[i], w.clock);
    }
  }

  /**
    Under every interleaving, once every admitted call has made its insertion, the number of a user's goals is a
    function of the spacing of that user's own clock reads and of how late that user's bucket was built.
   */
  lemma {:induction false} GoalsStoredExactlyConcurrently(clock: Instant, events: seq<Event>, user: UserId)
    requires Run(clock, events).Some? && Settled(Run(clock, events).value.world)
    ensures var b := Run(clock, events).value;
            var calls := Calls(b.world.log);
            var times := UserTimes(calls, user, |calls|);
            GoalsOf(b.goals, user) == LateAdmissions(LateBy(calls, user, |calls|), times, |times|)
  {
    RunKeepsMatch(clock, events);
    RunsTheLimiter(clock, events);
    var b, actions := Run(clock, events).value, LimiterActions(events);
    var w := b.world;
    var calls, length := Calls(w.log), w.clock - clock;
    RunSpan(clock, actions);
    Linearizable(clock, actions);
    SettledStoresAll(clock, actions, user, clock, length);
    hide Run, After, Settled, GoalsMatch, RequestsMatch;
    GoalsAreServices(b, user, |b.goals|, clock, length);
    AllGoalsStored(b, user, |b.goals|, clock, length);
    assert b.goals[..|b.goals|] == b.goals;
    AllCallsAdmitted(calls, user, |calls|, clock, length);
    UserAdmissionsExactly(calls, user);
  }

  /** Between two events at which nobody is serving, as many goals are stored as calls are admitted. */
  lemma {:induction false} SettledStoresAll(
    clock: Instant, actions: seq<Action>, user: UserId, from: Instant, length: int)
    requires After(clock, actions).Some? && Settled(After(clock, actions).value)
    requires var w := After(clock, actions).value; clock == from && w.clock == from + length
    ensures var w := After(clock, actions).value;
            StoredIn(w, user, |w.served|, from, length) == UserWindow(Calls(w.log), user, |w.log|, from, length)
  {
    RunSpan(clock, actions);
    Linearizable(clock, actions);
    ServicesAreDistinct(clock, actions);
    AdmittedAreAccountedFor(clock, actions);
    hide After, CheckMap, MapAt;
    var w := After(clock, actions).value;
    var stored := StoredEntries(w, user, |w.served|, from, length);
    var admitted := AdmittedEntries(w.log, user, |w.log|, from, length);
    StoredEntriesCount(w, user, |w.served|, from, length);
    AdmittedEntriesCount(w.log, user, |w.log|, from, length);
    AdmittedEntriesMembers(w.log, user, |w.log|, from, length);
    forall e: nat
      ensures e in stored <==> e in admitted
    {
      if e in stored {
        var k :| 0 <= k < |w.served| && StoresIn(w, user, k, from, length) && w.served[k].entry == e;
        assert Calls(w.log)[e].now == w.log[e].call.now;
      }
      if e in admitted {
        assert Admitted(w.log, e) && AccountedFor(w, e);
        var k :| 0 <= k < |w.served| && w.served[k].entry == e;
        StoredEntriesHas(w, user, |w.served|, from, length, k);
      }
    }
    assert stored == admitted;
  }
}
