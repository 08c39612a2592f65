/**
  Threads running `CheckRateLimit` step by step under the mutex, with the clock advancing between any two steps,
  and doing the rest of an admitted request after they have given the mutex back.
 */
module ConcurrentLimiter {
  import opened Wrappers
  import opened Clock
  import opened TokenBuckets
  import opened Bursts
  import opened RateLimiter

  type ThreadId = int

  /**
    How far a thread has got; from `Locked` to `Decided` it holds the mutex, and while `Serving` it still has to
    do the work of the admitted call with that number in the log.
   */
  datatype Phase =
    | Idle
    | Waiting(user: UserId, invoked: Instant)
    | Locked(user: UserId, invoked: Instant)
    | Stamped(user: UserId, invoked: Instant, now: Instant)
    | Found(call: Call, invoked: Instant)
    | Credited(call: Call, invoked: Instant)
    | Refilled(call: Call, invoked: Instant)
    | Decided(call: Call, invoked: Instant, decision: Decision)
    | Serving(entry: nat)
  {
    predicate HoldsMutex() {
      !Idle? && !Waiting? && !Serving?
    }
  }

  /** A finished call, recorded when it gives the mutex back. */
  datatype Entry = Entry(thread: ThreadId, call: Call, decision: Decision, invoked: Instant, returned: Instant)

  /** The work of an admitted call, done at `at`: for the create-goal endpoint, the insertion of its goal. */
  datatype Service = Service(entry: nat, at: Instant)

  datatype World = World(
    clock: Instant, owner: Option<ThreadId>, buckets: Buckets, phases: map<ThreadId, Phase>, log: seq<Entry>,
    served: seq<Service>)
  {
    function PhaseOf(t: ThreadId): Phase {
      if t in phases then phases[t] else Idle
    }

    function Put(t: ThreadId, phase: Phase): World {
      this.(phases := phases[t := phase])
    }
  }

  datatype Action =
    | Tick(nanos: nat)
    | Invoke(thread: ThreadId, user: UserId)
    | Lock(thread: ThreadId)
    | ReadClock(thread: ThreadId)
    | FindBucket(thread: ThreadId)
    | Credit(thread: ThreadId)
    | StampRefill(thread: ThreadId)
    | Decide(thread: ThreadId)
    | Return(thread: ThreadId)
    | Serve(thread: ThreadId)

  predicate Enabled(w: World, a: Action) {
    match a
    case Tick(_) => true
    case Invoke(t, _) => w.PhaseOf(t).Idle?
    case Lock(t) => w.PhaseOf(t).Waiting? && w.owner.None?
    case ReadClock(t) => w.PhaseOf(t).Locked?
    case FindBucket(t) => w.PhaseOf(t).Stamped?
    case Credit(t) => w.PhaseOf(t).Found? && w.PhaseOf(t).call.user in w.buckets
    case StampRefill(t) => w.PhaseOf(t).Credited? && w.PhaseOf(t).call.user in w.buckets
    case Decide(t) => w.PhaseOf(t).Refilled? && w.PhaseOf(t).call.user in w.buckets
    case Return(t) => w.PhaseOf(t).Decided?
    case Serve(t) => w.PhaseOf(t).Serving?
  }

  /** One atomic step of the program, or of the clock. */
  function Apply(w: World, a: Action): World
    requires Enabled(w, a)
  {
    match a
    case Tick(nanos) => w.(clock := w.clock + nanos)
    case Invoke(t, user) => w.Put(t, Waiting(user, w.clock))
    case Lock(t) =>
      var p := w.PhaseOf(t);
      w.Put(t, Locked(p.user, p.invoked)).(owner := Some(t))
    case ReadClock(t) =>
      var p := w.PhaseOf(t);
      w.Put(t, Stamped(p.user, p.invoked, w.clock))
    case FindBucket(t) =>
      var p := w.PhaseOf(t);
      var stored := if p.user in w.buckets then w.buckets else w.buckets[p.user := Bucket(2.0, w.clock)];
      w.Put(t, Found(Call(p.user, p.now, w.clock), p.invoked)).(buckets := stored)
    case Credit(t) =>
      var p := w.PhaseOf(t);
      var bucket := w.buckets[p.call.user];
      var credited := bucket.tokens + WholeSeconds(p.call.now - bucket.lastRefill) as real * 2.0;
      w.Put(t, Credited(p.call, p.invoked))
       .(buckets := w.buckets[p.call.user := bucket.(tokens := if credited < 2.0 then credited else 2.0)])
    case StampRefill(t) =>
      var p := w.PhaseOf(t);
      w.Put(t, Refilled(p.call, p.invoked))
       .(buckets := w.buckets[p.call.user := w.buckets[p.call.user].(lastRefill := p.call.now)])
    case Decide(t) =>
      var p := w.PhaseOf(t);
      var bucket := w.buckets[p.call.user];
      if bucket.tokens >= 1.0 then
        w.Put(t, Decided(p.call, p.invoked, Decision(true, Truncate(bucket.tokens) - 1)))
         .(buckets := w.buckets[p.call.user := bucket.(tokens := bucket.tokens - 1.0)])
      else
        w.Put(t, Decided(p.call, p.invoked, Decision(false, Truncate(bucket.tokens))))
    case Return(t) =>
      var p := w.PhaseOf(t);
      w.Put(t, if p.decision.admitted then Serving(|w.log|) else Idle)
       .(owner := None, log := w.log + [Entry(t, p.call, p.decision, p.invoked, w.clock)])
    case Serve(t) =>
      w.Put(t, Idle).(served := w.served + [Service(w.PhaseOf(t).entry, w.clock)])
  }

  function Initial(clock: Instant): World {
    World(clock, None, map[], map[], [], [])
  }

  /** The world after a list of actions, when each was enabled in its turn. */
  function After(clock: Instant, actions: seq<Action>): Option<World> {
    if actions == [] then Some(Initial(clock))
    else
      match After(clock, actions[..|actions| - 1])
      case None => None
      case Some(w) =>
        var a := actions[|actions| - 1];
        if Enabled(w, a) then Some(Apply(w, a)) else None
  }

  /** The calls of a log, in the order they gave the mutex back. */
  function Calls(log: seq<Entry>): seq<Call> {
    seq(|log|, i requires 0 <= i < |log| => log[i].call)
  }

  /** The map the sequential limiter would hold after the finished calls. */
  function Committed(log: seq<Entry>): Buckets {
    MapAt(Calls(log), |log|)
  }

  // ---- The invariant ---------------------------------------------------------------------------

  /** How the shared map differs from the committed one while a thread is at `phase`. */
  ghost predicate Progress(committed: Buckets, buckets: Buckets, phase: Phase) {
    match phase
    case Found(call, _) =>
      buckets == committed[call.user := BucketFor(committed, call)]
    case Credited(call, _) =>
      var bucket := BucketFor(committed, call);
      buckets == committed[call.user := Bucket(Refill(ENDPOINT_LIMITS, bucket, call.now), bucket.lastRefill)]
    case Refilled(call, _) =>
      buckets == committed[call.user := Bucket(Refill(ENDPOINT_LIMITS, BucketFor(committed, call), call.now), call.now)]
    case Decided(call, _, decision) =>
      (buckets, decision) == CheckMap(committed, call)
    case _ =>
      buckets == committed
  }

  ghost predicate MutexInv(w: World) {
    && (forall t :: w.PhaseOf(t).HoldsMutex() <==> w.owner == Some(t))
    && (w.owner.None? ==> w.buckets == Committed(w.log))
    && (w.owner.Some? ==> Progress(Committed(w.log), w.buckets, w.PhaseOf(w.owner.value)))
  }

  /** Every finished call read the clock, and built its bucket if it had to, between being made and returning. */
  ghost predicate EntryTimes(e: Entry, clock: Instant) {
    e.invoked <= e.call.now <= e.call.created <= e.returned <= clock
  }

  /** Entry `i` carries the answer the sequential limiter gives it. */
  ghost predicate Answered(log: seq<Entry>, i: nat)
    requires i < |log|
  {
    log[i].decision == AnswerAt(Calls(log), i)
  }

  ghost predicate LogInv(w: World) {
    && (forall i :: 0 <= i < |w.log| ==> EntryTimes(w.log[i], w.clock))
    && (forall i, j :: 0 <= i < j < |w.log| ==> w.log[i].returned <= w.log[j].call.now)
    && (forall i :: 0 <= i < |w.log| ==> Answered(w.log, i))
  }

  ghost predicate PhaseTimes(w: World, phase: Phase) {
    match phase
    case Idle => true
    case Waiting(_, invoked) => invoked <= w.clock
    case Locked(_, invoked) => invoked <= w.clock
    case Stamped(_, invoked, now) => invoked <= now <= w.clock && AfterLog(w.log, now)
    case Found(call, invoked) => invoked <= call.now <= call.created <= w.clock && AfterLog(w.log, call.now)
    case Credited(call, invoked) => invoked <= call.now <= call.created <= w.clock && AfterLog(w.log, call.now)
    case Refilled(call, invoked) => invoked <= call.now <= call.created <= w.clock && AfterLog(w.log, call.now)
    case Decided(call, invoked, _) => invoked <= call.now <= call.created <= w.clock && AfterLog(w.log, call.now)
    case Serving(_) => true
  }

  ghost predicate AfterLog(log: seq<Entry>, now: Instant) {
    forall i :: 0 <= i < |log| ==> log[i].returned <= now
  }

  ghost predicate Inv(w: World) {
    MutexInv(w) && LogInv(w) && forall t :: PhaseTimes(w, w.PhaseOf(t))
  }

  lemma OwnershipKept(w: World, a: Action)
    requires Enabled(w, a) && Inv(w)
    ensures forall t :: Apply(w, a).PhaseOf(t).HoldsMutex() <==> Apply(w, a).owner == Some(t)
  {
  }

  /** A thread outside the mutex changes neither the buckets nor the log nor the holder's phase. */
  lemma OutsidersDoNotTouch(w: World, a: Action)
    requires Enabled(w, a) && Inv(w) && (a.Tick? || a.Invoke? || a.Lock? || a.Serve?)
    ensures var w' := Apply(w, a);
            w'.buckets == w.buckets && w'.log == w.log &&
            (w'.owner.None? ==> w.owner.None?) &&
            (w.owner.Some? ==> w'.owner == w.owner && w'.PhaseOf(w.owner.value) == w.PhaseOf(w.owner.value)) &&
            (w.owner.None? && w'.owner.Some? ==> w'.PhaseOf(w'.owner.value).Locked?)
  {
  }

  /** Each step of the holder takes the shared map one stage further from the committed one. */
  lemma HolderAdvances(w: World, a: Action)
    requires Enabled(w, a) && Inv(w)
    requires a.ReadClock? || a.FindBucket? || a.Credit? || a.StampRefill? || a.Decide?
    ensures var w' := Apply(w, a);
            w'.owner == w.owner == Some(a.thread) && w'.log == w.log &&
            Progress(Committed(w.log), w'.buckets, w'.PhaseOf(a.thread))
  {
    assert w.PhaseOf(a.thread).HoldsMutex();
    if !a.ReadClock? {
      BucketsAdvance(w, a, Committed(w.log));
    }
  }

  lemma BucketsAdvance(w: World, a: Action, committed: Buckets)
    requires a.FindBucket? || a.Credit? || a.StampRefill? || a.Decide?
    requires Enabled(w, a) && Progress(committed, w.buckets, w.PhaseOf(a.thread))
    ensures Progress(committed, Apply(w, a).buckets, Apply(w, a).PhaseOf(a.thread))
  {
    if a.FindBucket? {
      var p := w.PhaseOf(a.thread);
      assert Apply(w, a).buckets == committed[p.user := BucketFor(committed, Call(p.user, p.now, w.clock))];
    } else if a.Decide? {
      assert Apply(w, a).buckets == CheckMap(committed, w.PhaseOf(a.thread).call).0;
    }
  }

  /** Giving the mutex back commits exactly the holder's call. */
  lemma ReturnCommits(w: World, a: Action)
    requires Enabled(w, a) && Inv(w) && a.Return?
    ensures Apply(w, a).buckets == Committed(Apply(w, a).log) && Apply(w, a).owner.None?
  {
    hide Refill;
    var call := w.PhaseOf(a.thread).call;
    assert w.PhaseOf(a.thread).HoldsMutex();
    assert Calls(Apply(w, a).log) == Calls(w.log) + [call];
    AnswersAfterOneMore(Calls(w.log), call);
  }

  lemma MutexKept(w: World, a: Action)
    requires Enabled(w, a) && Inv(w)
    ensures MutexInv(Apply(w, a))
  {
    OwnershipKept(w, a);
    if a.Return? {
      ReturnCommits(w, a);
    } else if a.Tick? || a.Invoke? || a.Lock? || a.Serve? {
      OutsidersDoNotTouch(w, a);
    } else {
      HolderAdvances(w, a);
    }
  }

  lemma LogKept(w: World, a: Action)
    requires Enabled(w, a) && Inv(w)
    ensures LogInv(Apply(w, a))
  {
    hide CheckMap;
    var w' := Apply(w, a);
    if a.Return? {
      var p := w.PhaseOf(a.thread);
      assert PhaseTimes(w, p) && w.owner == Some(a.thread);
      assert Calls(w'.log) == Calls(w.log) + [p.call];
      AnswersAfterOneMore(Calls(w.log), p.call);
      forall i | 0 <= i < |w'.log|
        ensures Answered(w'.log, i)
      {
        assert i < |w.log| ==> Answered(w.log, i);
      }
    } else {
      assert w'.log == w.log;
    }
  }

  lemma PhaseKept(w: World, a: Action, t: ThreadId)
    requires Enabled(w, a) && Inv(w)
    ensures PhaseTimes(Apply(w, a), Apply(w, a).PhaseOf(t))
  {
    hide Progress, Committed, Answered, Truncate, WholeSeconds;
    assert PhaseTimes(w, w.PhaseOf(t));
    if a.Return? && t != a.thread {
      assert w.PhaseOf(a.thread).HoldsMutex() && w.owner == Some(a.thread) && !w.PhaseOf(t).HoldsMutex();
    }
  }

  lemma PhasesKept(w: World, a: Action)
    requires Enabled(w, a) && Inv(w)
    ensures forall t :: PhaseTimes(Apply(w, a), Apply(w, a).PhaseOf(t))
  {
    forall t
      ensures PhaseTimes(Apply(w, a), Apply(w, a).PhaseOf(t))
    {
      PhaseKept(w, a, t);
    }
  }

  /** Every reachable world satisfies the invariant, however the threads interleave. */
  lemma {:induction false} Reachable(clock: Instant, actions: seq<Action>)
    requires After(clock, actions).Some?
    ensures Inv(After(clock, actions).value)
  {
    if actions != [] {
      var before := actions[..|actions| - 1];
      Reachable(clock, before);
      var w, a := After(clock, before).value, actions[|actions| - 1];
      MutexKept(w, a);
      LogKept(w, a);
      PhasesKept(w, a);
    }
  }

  /** The last clock read of a sequence of calls made from `clock` on. */
  function LastRead(clock: Instant, calls: seq<Call>): Instant {
    if calls == [] then clock else calls[|calls| - 1].created
  }

  /** Each call reads the clock no earlier than the call before it last did. */
  predicate Sequential(clock: Instant, calls: seq<Call>) {
    calls == [] ||
    var init, call := calls[..|calls| - 1], calls[|calls| - 1];
    Sequential(clock, init) && LastRead(clock, init) <= call.now <= call.created
  }

  /** A sequence of calls in which each starts after those before it have read the clock for the last time. */
  lemma {:induction false} SequentialWhenOrdered(clock: Instant, calls: seq<Call>)
    requires forall i :: 0 <= i < |calls| ==> clock <= calls[i].now <= calls[i].created
    requires forall i, j :: 0 <= i < j < |calls| ==> calls[i].created <= calls[j].now
    ensures Sequential(clock, calls)
  {
    if calls != [] {
      SequentialWhenOrdered(clock, calls[..|calls| - 1]);
    }
  }

  /** Nothing in the world was read off the clock before `start`. */
  ghost predicate Since(w: World, start: Instant) {
    && start <= w.clock
    && (forall i :: 0 <= i < |w.log| ==> start <= w.log[i].call.now)
    && (forall t :: StampedSince(w.PhaseOf(t), start))
  }

  ghost predicate StampedSince(phase: Phase, start: Instant) {
    match phase
    case Stamped(_, _, now) => start <= now
    case Found(call, _) => start <= call.now
    case Credited(call, _) => start <= call.now
    case Refilled(call, _) => start <= call.now
    case Decided(call, _, _) => start <= call.now
    case _ => true
  }

  lemma SinceKept(w: World, a: Action, start: Instant)
    requires Enabled(w, a) && Since(w, start)
    ensures Since(Apply(w, a), start)
  {
    var w' := Apply(w, a);
    forall t
      ensures StampedSince(w'.PhaseOf(t), start)
    {
      assert StampedSince(w.PhaseOf(t), start);
    }
    if a.Return? {
      assert StampedSince(w.PhaseOf(a.thread), start);
    }
  }

  lemma {:induction false} ReachableSince(clock: Instant, actions: seq<Action>)
    requires After(clock, actions).Some?
    ensures Since(After(clock, actions).value, clock)
  {
    if actions != [] {
      ReachableSince(clock, actions[..|actions| - 1]);
      SinceKept(After(clock, actions[..|actions| - 1]).value, actions[|actions| - 1], clock);
    }
  }

  // ---- What clients may rely on ----------------------------------------------------------------

  /** At most one thread is ever between taking the mutex and giving it back. */
  lemma MutualExclusion(clock: Instant, actions: seq<Action>, t: ThreadId, u: ThreadId)
    requires After(clock, actions).Some?
    requires After(clock, actions).value.PhaseOf(t).HoldsMutex() && After(clock, actions).value.PhaseOf(u).HoldsMutex()
    ensures t == u
  {
    Reachable(clock, actions);
  }

  /** The holder of the mutex always has a next step, so the mutex is never stuck. */
  lemma HolderCanStep(clock: Instant, actions: seq<Action>, t: ThreadId)
    requires After(clock, actions).Some? && After(clock, actions).value.owner == Some(t)
    ensures exists a: Action :: !a.Tick? && a.thread == t && Enabled(After(clock, actions).value, a)
  {
    Reachable(clock, actions);
    var w := After(clock, actions).value;
    var a := match w.PhaseOf(t) {
      case Locked(_, _) => ReadClock(t)
      case Stamped(_, _, _) => FindBucket(t)
      case Found(_, _) => Credit(t)
      case Credited(_, _) => StampRefill(t)
      case Refilled(_, _) => Decide(t)
      case _ => Return(t)
    };
    assert w.PhaseOf(t).HoldsMutex();
    assert Enabled(w, a);
  }

  /**
    Every interleaving is a sequential run: the answers handed out are those of the sequential limiter on the
    calls in mutex order, each call reads the clock after every call before it has returned, and each clock
    read falls inside its own call.
   */
  lemma Linearizable(clock: Instant, actions: seq<Action>)
    requires After(clock, actions).Some?
    ensures var w := After(clock, actions).value;
            && (forall i :: 0 <= i < |w.log| ==> Answered(w.log, i))
            && Ordered(Calls(w.log)) && Sequential(clock, Calls(w.log))
            && (forall i :: 0 <= i < |w.log| ==> EntryTimes(w.log[i], w.clock))
            && (forall i, j :: 0 <= i < j < |w.log| ==> w.log[i].returned <= w.log[j].call.now)
            && (w.owner.None? ==> w.buckets == Committed(w.log))
  {
    Reachable(clock, actions);
    ReachableSince(clock, actions);
    var w := After(clock, actions).value;
    forall i, j | 0 <= i < j < |w.log|
      ensures w.log[i].call.created <= w.log[j].call.now
    {
      assert EntryTimes(w.log[i], w.clock);
    }
    forall i | 0 <= i < |w.log|
      ensures clock <= w.log[i].call.now <= w.log[i].call.created
    {
      assert EntryTimes(w.log[i], w.clock);
    }
    SequentialWhenOrdered(clock, Calls(w.log));
  }

  /** How many of `user`'s finished calls were both made and answered inside `[from, from + length]`, and admitted. */
  function ObservedAdmissions(log: seq<Entry>, user: UserId, n: nat, from: Instant, length: int): nat
    requires n <= |log|
  {
    if n == 0 then 0
    else
      var e := log[n - 1];
      ObservedAdmissions(log, user, n - 1, from, length) +
      if e.call.user == user && from <= e.invoked && e.returned <= from + length && e.decision.admitted then 1 else 0
  }

  lemma {:induction false} ObservedWithinWindow(w: World, user: UserId, n: nat, from: Instant, length: int)
    requires LogInv(w) && n <= |w.log|
    ensures ObservedAdmissions(w.log, user, n, from, length) <= UserWindow(Calls(w.log), user, n, from, length)
  {
    hide CheckMap;
    if n > 0 {
      ObservedWithinWindow(w, user, n - 1, from, length);
      assert EntryTimes(w.log[n - 1], w.clock) && Answered(w.log, n - 1);
    }
  }

  /** What a client can see by its own clock obeys the window bound under every interleaving. */
  lemma ConcurrentWindowBound(clock: Instant, actions: seq<Action>, user: UserId, from: Instant, length: int)
    requires After(clock, actions).Some? && 0 <= length
    ensures var log := After(clock, actions).value.log;
            ObservedAdmissions(log, user, |log|, from, length) <= 2 + 2 * WholeSeconds(length)
  {
    Reachable(clock, actions);
    Linearizable(clock, actions);
    var w := After(clock, actions).value;
    ObservedWithinWindow(w, user, |w.log|, from, length);
    UserWindowBound(Calls(w.log), user, from, length);
  }

  /** The answers `user` received, in the order of the log. */
  function Received(log: seq<Entry>, user: UserId, n: nat): seq<Decision>
    requires n <= |log|
  {
    if n == 0 then []
    else if log[n - 1].call.user == user then Received(log, user, n - 1) + [log[n - 1].decision]
    else Received(log, user, n - 1)
  }

  lemma {:induction false} ReceivedSequentially(w: World, user: UserId, n: nat)
    requires LogInv(w) && n <= |w.log|
    ensures Received(w.log, user, n) == UserAnswers(Calls(w.log), user, n)
  {
    if n > 0 {
      ReceivedSequentially(w, user, n - 1);
      assert Answered(w.log, n - 1);
    }
  }

  /**
    Under every interleaving, however long any step takes, a user's answers are a stateless function of that user's
    own clock reads and of how late that user's bucket was built.
   */
  lemma {:induction false} ConcurrentClosedForm(clock: Instant, actions: seq<Action>, user: UserId)
    requires After(clock, actions).Some?
    ensures var log := After(clock, actions).value.log;
            var times, answers := UserTimes(Calls(log), user, |log|), Received(log, user, |log|);
            |answers| == |times| &&
            forall k :: 0 <= k < |times| ==> answers[k] == LateDecision(LateBy(Calls(log), user, |log|), times, k)
  {
    Reachable(clock, actions);
    Linearizable(clock, actions);
    hide After, CheckMap;
    var w := After(clock, actions).value;
    ReceivedSequentially(w, user, |w.log|);
    forall i | 0 <= i < |w.log|
      ensures Calls(w.log)[i].now <= Calls(w.log)[i].created
    {
      assert EntryTimes(w.log[i], w.clock);
    }
    UserLateClosedForm(Calls(w.log), user);
  }

  /**
    Under every interleaving a user's answers follow the two-gap rule on that user's own clock reads iff that user's
    bucket was built within a second, and then so do the remaining counts.
   */
  lemma {:induction false} ConcurrentTwoGapRuleIff(clock: Instant, actions: seq<Action>, user: UserId)
    requires After(clock, actions).Some?
    ensures var log := After(clock, actions).value.log;
            var times, answers := UserTimes(Calls(log), user, |log|), Received(log, user, |log|);
            |answers| == |times| &&
            ((forall k :: 0 <= k < |times| ==> (answers[k].admitted <==> RecentSilence(times, k))) <==>
             PromptFor(Calls(log), user, |log|)) &&
            (PromptFor(Calls(log), user, |log|) ==>
             forall k :: 0 <= k < |times| ==> answers[k].remaining == if StartsBurst(times, k) then 1 else 0)
  {
    Reachable(clock, actions);
    Linearizable(clock, actions);
    hide After, CheckMap, PromptFor;
    var w := After(clock, actions).value;
    ReceivedSequentially(w, user, |w.log|);
    UserTwoGapRuleIff(Calls(w.log), user);
    if PromptFor(Calls(w.log), user, |w.log|) {
      UserClosedForm(Calls(w.log), user);
    }
  }

  // ---- The converse: every sequential run happens ----------------------------------------------

  lemma AfterOneMore(clock: Instant, actions: seq<Action>, a: Action)
    requires After(clock, actions).Some? && Enabled(After(clock, actions).value, a)
    ensures After(clock, actions + [a]) == Some(Apply(After(clock, actions).value, a))
  {
    assert (actions + [a])[..|actions|] == actions;
  }

  /** Nobody is in the mutex and `t` is free to call. */
  ghost predicate ReadyFor(w: World, t: ThreadId, call: Call) {
    w.owner.None? && w.PhaseOf(t).Idle? && w.clock <= call.now <= call.created
  }

  /** Only `t` has moved, and no work was done for any admitted call. */
  ghost predicate OnlyMoved(w: World, w': World, t: ThreadId) {
    w'.served == w.served && forall u :: u != t ==> w'.PhaseOf(u) == w.PhaseOf(u)
  }

  /** Thread `t` makes the call, takes the mutex and reads the clock. */
  lemma Enter(clock: Instant, actions: seq<Action>, t: ThreadId, call: Call) returns (longer: seq<Action>)
    requires After(clock, actions).Some? && ReadyFor(After(clock, actions).value, t, call)
    ensures After(clock, longer).Some?
    ensures var w, w' := After(clock, actions).value, After(clock, longer).value;
            w'.PhaseOf(t) == Stamped(call.user, call.now, call.now) && w'.clock == call.now &&
            w'.log == w.log && w'.buckets == w.buckets && OnlyMoved(w, w', t)
  {
    hide After, Check;
    var a0 := Tick(call.now - After(clock, actions).value.clock);
    AfterOneMore(clock, actions, a0);
    var s1 := actions + [a0];
    AfterOneMore(clock, s1, Invoke(t, call.user));
    var s2 := s1 + [Invoke(t, call.user)];
    AfterOneMore(clock, s2, Lock(t));
    var s3 := s2 + [Lock(t)];
    AfterOneMore(clock, s3, ReadClock(t));
    longer := s3 + [ReadClock(t)];
  }

  /** The thread finds or builds its bucket at `created` and credits it. */
  lemma Work(clock: Instant, actions: seq<Action>, t: ThreadId, call: Call) returns (longer: seq<Action>)
    requires After(clock, actions).Some? && call.now <= call.created
    requires var w := After(clock, actions).value;
             w.PhaseOf(t) == Stamped(call.user, call.now, call.now) && w.clock == call.now
    ensures After(clock, longer).Some?
    ensures var w, w' := After(clock, actions).value, After(clock, longer).value;
            w'.PhaseOf(t) == Refilled(call, call.now) && w'.clock == call.created && w'.log == w.log &&
            call.user in w'.buckets && OnlyMoved(w, w', t)
  {
    hide After, WholeSeconds;
    var a0 := Tick(call.created - call.now);
    AfterOneMore(clock, actions, a0);
    var s1 := actions + [a0];
    AfterOneMore(clock, s1, FindBucket(t));
    var s2 := s1 + [FindBucket(t)];
    AfterOneMore(clock, s2, Credit(t));
    var s3 := s2 + [Credit(t)];
    AfterOneMore(clock, s3, StampRefill(t));
    longer := s3 + [StampRefill(t)];
  }

  /** The thread decides and gives the mutex back; if it was admitted it has work left to do. */
  lemma Leave(clock: Instant, actions: seq<Action>, t: ThreadId, call: Call) returns (longer: seq<Action>)
    requires After(clock, actions).Some?
    requires var w := After(clock, actions).value; w.PhaseOf(t) == Refilled(call, call.now) && call.user in w.buckets
    ensures After(clock, longer).Some?
    ensures var w, w' := After(clock, actions).value, After(clock, longer).value;
            w'.owner.None? && w'.clock == w.clock && OnlyMoved(w, w', t) &&
            |w'.log| == |w.log| + 1 && w'.log[..|w.log|] == w.log && w'.log[|w.log|].call == call &&
            w'.PhaseOf(t) == if w'.log[|w.log|].decision.admitted then Serving(|w.log|) else Idle
  {
    hide After, Truncate;
    AfterOneMore(clock, actions, Decide(t));
    var s1 := actions + [Decide(t)];
    AfterOneMore(clock, s1, Return(t));
    longer := s1 + [Return(t)];
  }

  /** Thread `i` made the call numbered `i`, and the admitted ones have yet to do their work. */
  ghost predicate AllPending(w: World, n: nat) {
    && w.owner.None? && w.served == [] && |w.log| == n
    && (forall t :: t >= n ==> w.PhaseOf(t).Idle?)
    && (forall i :: 0 <= i < n && w.log[i].decision.admitted ==> w.PhaseOf(i) == Serving(i))
  }

  /** Any sequential run of the limiter is the log of some execution: the step model excludes none of them. */
  lemma {:induction false} SequentialRunsHappen(clock: Instant, calls: seq<Call>) returns (actions: seq<Action>)
    requires Sequential(clock, calls)
    ensures After(clock, actions).Some? && Calls(After(clock, actions).value.log) == calls
    ensures AllPending(After(clock, actions).value, |calls|)
    ensures After(clock, actions).value.clock == LastRead(clock, calls)
  {
    if calls == [] {
      actions := [];
    } else {
      var init, call := calls[..|calls| - 1], calls[|calls| - 1];
      var n := |init|;
      actions := SequentialRunsHappen(clock, init);
      actions := OneMoreCall(clock, actions, n, call);
      var log := After(clock, actions).value.log;
      assert Calls(log) == Calls(log[..n]) + [call];
      assert calls == init + [call];
    }
  }

  /** One more call, made by the next thread. */
  lemma OneMoreCall(clock: Instant, actions: seq<Action>, n: nat, call: Call) returns (longer: seq<Action>)
    requires After(clock, actions).Some? && AllPending(After(clock, actions).value, n)
    requires After(clock, actions).value.clock <= call.now <= call.created
    ensures After(clock, longer).Some? && AllPending(After(clock, longer).value, n + 1)
    ensures var w, w' := After(clock, actions).value, After(clock, longer).value;
            w'.clock == call.created && w'.log[..n] == w.log && w'.log[n].call == call
  {
    hide After;
    longer := Enter(clock, actions, n, call);
    longer := Work(clock, longer, n, call);
    longer := Leave(clock, longer, n, call);
    var w, w' := After(clock, actions).value, After(clock, longer).value;
    forall i | 0 <= i < n + 1 && w'.log[i].decision.admitted
      ensures w'.PhaseOf(i) == Serving(i)
    {
      assert i < n ==> w'.log[i] == w.log[i];
    }
  }
}
