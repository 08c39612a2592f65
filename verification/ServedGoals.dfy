/**
  When the work of admitted calls gets done. For the create-goal endpoint a service is the insertion of the goal,
  which the handler makes after its rate-limit check has given the mutex back.
 */
module ServedGoals {
  import opened Clock
  import opened Bursts
  import opened RateLimiter
  import opened ConcurrentLimiter

  // ---- Each admitted call is served at most once -----------------------------------------------

  /** `entry` is the number of an admitted call in the log. */
  predicate Admitted(log: seq<Entry>, entry: nat) {
    entry < |log| && log[entry].decision.admitted
  }

  ghost predicate ServiceInv(w: World) {
    && (forall k :: 0 <= k < |w.served| ==>
          Admitted(w.log, w.served[k].entry) && w.log[w.served[k].entry].returned <= w.served[k].at <= w.clock)
    && (forall k, l :: 0 <= k < l < |w.served| ==> w.served[k].entry != w.served[l].entry)
    && (forall t :: w.PhaseOf(t).Serving? ==>
          Admitted(w.log, w.PhaseOf(t).entry) && w.log[w.PhaseOf(t).entry].returned <= w.clock)
    && (forall t, k :: w.PhaseOf(t).Serving? && 0 <= k < |w.served| ==> w.PhaseOf(t).entry != w.served[k].entry)
    && (forall t, u :: t != u && w.PhaseOf(t).Serving? && w.PhaseOf(u).Serving? ==>
          w.PhaseOf(t).entry != w.PhaseOf(u).entry)
  }

  /** Steps other than returning and serving change neither the log nor the services nor who is serving. */
  lemma {:induction false} OtherStepsKeep(w: World, a: Action)
    requires Enabled(w, a) && ServiceInv(w) && !a.Return? && !a.Serve?
    ensures ServiceInv(Apply(w, a))
  {
    hide WholeSeconds, Truncate;
    var w' := Apply(w, a);
    assert w'.log == w.log && w'.served == w.served && w.clock <= w'.clock;
    forall t
      ensures w'.PhaseOf(t).Serving? <==> w.PhaseOf(t).Serving?
      ensures w'.PhaseOf(t).Serving? ==> w'.PhaseOf(t) == w.PhaseOf(t)
    {
    }
  }

  /** A returning thread starts serving a call that no one else serves or has served. */
  lemma {:induction false} ReturnKeeps(w: World, a: Action)
    requires Enabled(w, a) && ServiceInv(w) && a.Return?
    ensures ServiceInv(Apply(w, a))
  {
    var w' := Apply(w, a);
    assert w'.served == w.served && w'.clock == w.clock;
    assert forall e: nat :: Admitted(w.log, e) ==> Admitted(w'.log, e) && w'.log[e] == w.log[e];
    assert forall t :: t != a.thread ==> w'.PhaseOf(t) == w.PhaseOf(t);
  }

  /** A thread that serves its call moves it from the calls being served to those served. */
  lemma {:induction false} ServeKeeps(w: World, a: Action)
    requires Enabled(w, a) && ServiceInv(w) && a.Serve?
    ensures ServiceInv(Apply(w, a))
  {
    var w' := Apply(w, a);
    assert w'.log == w.log && w'.clock == w.clock && w'.PhaseOf(a.thread).Idle?;
    assert forall t :: t != a.thread ==> w'.PhaseOf(t) == w.PhaseOf(t);
  }

  lemma {:induction false} ServiceInvKept(w: World, a: Action)
    requires Enabled(w, a) && ServiceInv(w)
    ensures ServiceInv(Apply(w, a))
  {
    if a.Return? {
      ReturnKeeps(w, a);
    } else if a.Serve? {
      ServeKeeps(w, a);
    } else {
      OtherStepsKeep(w, a);
    }
  }

  /** In every execution each admitted call is served at most once, and not before it returned. */
  lemma {:induction false} ServicesAreDistinct(clock: Instant, actions: seq<Action>)
    requires After(clock, actions).Some?
    ensures ServiceInv(After(clock, actions).value)
  {
    if actions != [] {
      hide ServiceInv, Enabled, Apply;
      ServicesAreDistinct(clock, actions[..|actions| - 1]);
      ServiceInvKept(After(clock, actions[..|actions| - 1]).value, actions[|actions| - 1]);
    }
  }

  /** Call number `entry` has been served, or some thread has it still to serve. */
  ghost predicate AccountedFor(w: World, entry: nat) {
    || (exists k :: 0 <= k < |w.served| && w.served[k].entry == entry)
    || (exists t :: w.PhaseOf(t) == Serving(entry))
  }

  lemma {:induction false} AccountKept(w: World, a: Action, entry: nat)
    requires Enabled(w, a) && ServiceInv(w) && (AccountedFor(w, entry) || (entry == |w.log| && a.Return?))
    requires Admitted(Apply(w, a).log, entry)
    ensures AccountedFor(Apply(w, a), entry)
  {
    hide WholeSeconds, Truncate, ServiceInv;
    var w' := Apply(w, a);
    if a.Return? && entry == |w.log| {
      assert w'.PhaseOf(a.thread) == Serving(entry);
    } else if k :| 0 <= k < |w.served| && w.served[k].entry == entry {
      assert w'.served[k] == w.served[k];
    } else {
      var t :| w.PhaseOf(t) == Serving(entry);
      if a == Serve(t) {
        assert w'.served[|w.served|].entry == entry;
      } else {
        assert w'.PhaseOf(t) == Serving(entry);
      }
    }
  }

  /** In every execution each admitted call has been served or is still being served. */
  lemma {:induction false} AdmittedAreAccountedFor(clock: Instant, actions: seq<Action>)
    requires After(clock, actions).Some?
    ensures var w := After(clock, actions).value;
            forall entry: nat :: Admitted(w.log, entry) ==> AccountedFor(w, entry)
  {
    if actions != [] {
      hide AccountedFor, ServiceInv;
      var before, a := actions[..|actions| - 1], actions[|actions| - 1];
      AdmittedAreAccountedFor(clock, before);
      ServicesAreDistinct(clock, before);
      var w := After(clock, before).value;
      LogOfStep(w, a);
      hide Apply, Enabled;
      forall entry: nat | Admitted(Apply(w, a).log, entry)
        ensures AccountedFor(Apply(w, a), entry)
      {
        assert entry < |w.log| ==> Admitted(w.log, entry);
        AccountKept(w, a, entry);
      }
    }
  }

  /** Only a return lengthens the log, by one entry. */
  lemma {:induction false} LogOfStep(w: World, a: Action)
    requires Enabled(w, a)
    ensures var log := Apply(w, a).log; log[..|w.log|] == w.log && |log| == |w.log| + (if a.Return? then 1 else 0)
  {
    hide WholeSeconds, Truncate;
  }

  // ---- Counting --------------------------------------------------------------------------------

  /** Service `k` stores something for `user` at a time in `[from, from + length]`. */
  predicate StoresIn(w: World, user: UserId, k: nat, from: Instant, length: int)
    requires k < |w.served|
  {
    && w.served[k].entry < |w.log|
    && w.log[w.served[k].entry].call.user == user
    && from <= w.served[k].at <= from + length
  }

  /** How many of the first `n` services store something for `user` in the window. */
  function StoredIn(w: World, user: UserId, n: nat, from: Instant, length: int): nat
    requires n <= |w.served|
  {
    if n == 0 then 0
    else StoredIn(w, user, n - 1, from, length) + if StoresIn(w, user, n - 1, from, length) then 1 else 0
  }

  /** The calls those services are for. */
  ghost function StoredEntries(w: World, user: UserId, n: nat, from: Instant, length: int): set<nat>
    requires n <= |w.served|
  {
    if n == 0 then {}
    else if StoresIn(w, user, n - 1, from, length) then
      StoredEntries(w, user, n - 1, from, length) + {w.served[n - 1].entry}
    else StoredEntries(w, user, n - 1, from, length)
  }

  lemma {:induction false} StoredEntriesCount(w: World, user: UserId, n: nat, from: Instant, length: int)
    requires ServiceInv(w) && n <= |w.served|
    ensures |StoredEntries(w, user, n, from, length)| == StoredIn(w, user, n, from, length)
    ensures forall e :: e in StoredEntries(w, user, n, from, length) ==>
              exists k :: 0 <= k < n && StoresIn(w, user, k, from, length) && w.served[k].entry == e
  {
    if n > 0 {
      StoredEntriesCount(w, user, n - 1, from, length);
    }
  }

  lemma {:induction false} StoredEntriesHas(w: World, user: UserId, n: nat, from: Instant, length: int, k: nat)
    requires k < n <= |w.served| && StoresIn(w, user, k, from, length)
    ensures w.served[k].entry in StoredEntries(w, user, n, from, length)
  {
    if k < n - 1 {
      StoredEntriesHas(w, user, n - 1, from, length, k);
    }
  }

  /** The admitted calls of `user` among the first `n` whose clock read falls in the window. */
  ghost function AdmittedEntries(log: seq<Entry>, user: UserId, n: nat, from: Instant, length: int): set<nat>
    requires n <= |log|
  {
    if n == 0 then {}
    else if log[n - 1].call.user == user && log[n - 1].decision.admitted &&
            from <= log[n - 1].call.now <= from + length then
      AdmittedEntries(log, user, n - 1, from, length) + {n - 1}
    else AdmittedEntries(log, user, n - 1, from, length)
  }

  lemma {:induction false} AdmittedEntriesMembers(log: seq<Entry>, user: UserId, n: nat, from: Instant, length: int)
    requires n <= |log|
    ensures forall e: nat :: e in AdmittedEntries(log, user, n, from, length) <==>
              e < n && log[e].call.user == user && from <= log[e].call.now <= from + length && log[e].decision.admitted
  {
    if n > 0 {
      AdmittedEntriesMembers(log, user, n - 1, from, length);
    }
  }

  /** One more log entry adds its own number, and adds one to the window. */
  lemma {:induction false} AdmittedEntriesStep(log: seq<Entry>, user: UserId, n: nat, from: Instant, length: int)
    requires 0 < n <= |log| && Answered(log, n - 1)
    ensures UserWindow(Calls(log), user, n, from, length) - UserWindow(Calls(log), user, n - 1, from, length)
         == |AdmittedEntries(log, user, n, from, length)| - |AdmittedEntries(log, user, n - 1, from, length)|
  {
    AdmittedEntriesMembers(log, user, n - 1, from, length);
    hide AnswerAt, CheckMap, MapAt;
    assert n - 1 !in AdmittedEntries(log, user, n - 1, from, length);
    assert Calls(log)[n - 1] == log[n - 1].call;
  }

  lemma {:induction false} AdmittedEntriesCount(log: seq<Entry>, user: UserId, n: nat, from: Instant, length: int)
    requires n <= |log| && forall i :: 0 <= i < |log| ==> Answered(log, i)
    ensures |AdmittedEntries(log, user, n, from, length)| == UserWindow(Calls(log), user, n, from, length)
  {
    if n > 0 {
      AdmittedEntriesCount(log, user, n - 1, from, length);
      assert Answered(log, n - 1);
      hide Answered, AdmittedEntries, UserWindow;
      AdmittedEntriesStep(log, user, n, from, length);
    }
  }

  lemma {:induction false} SubsetSize(a: set<nat>, b: set<nat>)
    requires a <= b
    ensures |a| <= |b|
  {
    if x :| x in a {
      SubsetSize(a - {x}, b - {x});
    } else {
      assert forall x :: x !in a;
      assert a == {};
    }
  }

  // ---- The throughput bound by storage time ----------------------------------------------------

  /** Nothing is stored for `user` more than `lag` after the clock read of its rate-limit check. */
  ghost predicate StoredWithin(w: World, user: UserId, lag: int) {
    forall k ::
      0 <= k < |w.served| && Admitted(w.log, w.served[k].entry) && w.log[w.served[k].entry].call.user == user ==>
      w.served[k].at - w.log[w.served[k].entry].call.now <= lag
  }

  /** What is stored in a window was admitted at most `lag` before it. */
  lemma {:induction false} StoredWereAdmitted(w: World, user: UserId, from: Instant, length: int, lag: int)
    requires ServiceInv(w) && LogInv(w) && StoredWithin(w, user, lag)
    ensures StoredEntries(w, user, |w.served|, from, length) <=
            AdmittedEntries(w.log, user, |w.log|, from - lag, length + lag)
  {
    hide CheckMap, MapAt;
    StoredEntriesCount(w, user, |w.served|, from, length);
    AdmittedEntriesMembers(w.log, user, |w.log|, from - lag, length + lag);
    forall e | e in StoredEntries(w, user, |w.served|, from, length)
      ensures e in AdmittedEntries(w.log, user, |w.log|, from - lag, length + lag)
    {
      var k :| 0 <= k < |w.served| && StoresIn(w, user, k, from, length) && w.served[k].entry == e;
      assert EntryTimes(w.log[e], w.clock);
    }
  }

  lemma {:induction false} StoredBound(w: World, user: UserId, from: Instant, length: int, lag: int)
    requires ServiceInv(w) && LogInv(w) && Ordered(Calls(w.log)) && 0 <= length && 0 <= lag
    requires StoredWithin(w, user, lag)
    ensures StoredIn(w, user, |w.served|, from, length) <= 2 + 2 * WholeSeconds(length + lag)
  {
    hide ServiceInv, StoredWithin, StoredEntries, AdmittedEntries, StoredIn, UserWindow, WholeSeconds, Answered;
    AdmittedEntriesCount(w.log, user, |w.log|, from - lag, length + lag);
    hide LogInv;
    StoredEntriesCount(w, user, |w.served|, from, length);
    StoredWereAdmitted(w, user, from, length, lag);
    SubsetSize(StoredEntries(w, user, |w.served|, from, length),
               AdmittedEntries(w.log, user, |w.log|, from - lag, length + lag));
    UserWindowBound(Calls(w.log), user, from - lag, length + lag);
  }

  /**
    Goals stored for one user within `length` number at most two, plus two for each whole second of `length`
    and the longest time an insertion trails its check.
   */
  lemma {:induction false} StoredThroughputBound(
    clock: Instant, actions: seq<Action>, user: UserId, from: Instant, length: int, lag: int)
    requires After(clock, actions).Some? && 0 <= length && 0 <= lag
    requires StoredWithin(After(clock, actions).value, user, lag)
    ensures var w := After(clock, actions).value;
            StoredIn(w, user, |w.served|, from, length) <= 2 + 2 * WholeSeconds(length + lag)
  {
    hide After, StoredWithin, StoredIn, ServiceInv, WholeSeconds;
    Reachable(clock, actions);
    Linearizable(clock, actions);
    ServicesAreDistinct(clock, actions);
    StoredBound(After(clock, actions).value, user, from, length, lag);
  }

  // ---- The bound is attained: insertions may bunch up ------------------------------------------

  /** One user's calls at the pair schedule, each bucket built at once. */
  function PairCalls(user: UserId, k: nat): (calls: seq<Call>)
    ensures |calls| == 2 * k + 2
  {
    seq(2 * k + 2, (j: nat) requires j < 2 * k + 2 => Call(user, Pairs(k)[j], Pairs(k)[j]))
  }

  lemma {:induction false} PairCallsOrdered(user: UserId, k: nat)
    ensures forall i, j :: 0 <= i <= j < 2 * k + 2 ==> PairCalls(user, k)[i].now <= PairCalls(user, k)[j].now
    ensures forall i :: 0 <= i < 2 * k + 2 ==>
              PairCalls(user, k)[i].user == user && 0 <= PairCalls(user, k)[i].now == PairCalls(user, k)[i].created
    ensures PairCalls(user, k)[2 * k + 1].created == k * SECOND
  {
    var calls, times := PairCalls(user, k), Pairs(k);
    forall i, j | 0 <= i <= j < 2 * k + 2
      ensures 0 <= calls[i].now <= calls[j].now
    {
      assert 0 <= times[i] <= times[j];
    }
    assert (2 * k + 1) / 2 == k;
  }

  lemma {:induction false} PairCallsShape(user: UserId, k: nat)
    ensures Ordered(PairCalls(user, k)) && PromptFor(PairCalls(user, k), user, |PairCalls(user, k)|)
    ensures Sequential(0, PairCalls(user, k)) && LastRead(0, PairCalls(user, k)) == k * SECOND
  {
    PairCallsOrdered(user, k);
    hide PairCalls, MapAt;
    SequentialWhenOrdered(0, PairCalls(user, k));
  }

  lemma {:induction false} SoleUser(calls: seq<Call>, user: UserId, n: nat)
    requires n <= |calls| && forall i :: 0 <= i < |calls| ==> calls[i].user == user
    ensures |UserTimes(calls, user, n)| == n == |UserAnswers(calls, user, n)|
    ensures forall i :: 0 <= i < n ==> UserTimes(calls, user, n)[i] == calls[i].now
    ensures forall i :: 0 <= i < n ==> UserAnswers(calls, user, n)[i] == AnswerAt(calls, i)
  {
    hide CheckMap;
    if n > 0 {
      SoleUser(calls, user, n - 1);
    }
  }

  lemma {:induction false} PairCallsAdmitted(user: UserId, k: nat, i: nat)
    requires i < 2 * k + 2
    ensures AnswerAt(PairCalls(user, k), i).admitted
  {
    hide CheckMap;
    var calls := PairCalls(user, k);
    PairCallsShape(user, k);
    SoleUser(calls, user, |calls|);
    UserClosedForm(calls, user);
    PairsNeverCrowd(k, i);
    assert UserTimes(calls, user, |calls|) == Pairs(k);
  }

  /** Threads `0` to `n - 1` do their work at the present instant, in that order. */
  lemma {:induction false} ServeAll(
    clock: Instant, actions: seq<Action>, total: nat, n: nat) returns (longer: seq<Action>)
    requires After(clock, actions).Some? && AllPending(After(clock, actions).value, total) && n <= total
    requires forall i :: 0 <= i < total ==> After(clock, actions).value.log[i].decision.admitted
    ensures After(clock, longer).Some?
    ensures var w, w' := After(clock, actions).value, After(clock, longer).value;
            && w'.log == w.log && w'.clock == w.clock && |w'.served| == n
            && (forall i :: 0 <= i < n ==> w'.served[i] == Service(i, w.clock))
            && (forall i :: n <= i < total ==> w'.PhaseOf(i) == Serving(i))
  {
    if n == 0 {
      longer := actions;
    } else {
      longer := ServeAll(clock, actions, total, n - 1);
      AfterOneMore(clock, longer, Serve(n - 1));
      longer := longer + [Serve(n - 1)];
    }
  }

  lemma {:induction false} AllStoredAtOnce(w: World, user: UserId, n: nat, from: Instant)
    requires n <= |w.served|
    requires forall i :: 0 <= i < n ==> StoresIn(w, user, i, from, 0)
    ensures StoredIn(w, user, n, from, 0) == n
  {
    if n > 0 {
      AllStoredAtOnce(w, user, n - 1, from);
    }
  }

  /** Some execution ends with every call of the pair schedule admitted and none of them served. */
  lemma {:induction false} PairsPending(user: UserId, k: nat) returns (actions: seq<Action>)
    ensures After(0, actions).Some? && AllPending(After(0, actions).value, 2 * k + 2)
    ensures var w := After(0, actions).value;
            w.clock == k * SECOND && forall i :: 0 <= i < |w.log| ==>
              w.log[i].decision.admitted && w.log[i].call.user == user && 0 <= w.log[i].call.now
  {
    var calls := PairCalls(user, k);
    PairCallsShape(user, k);
    PairCallsOrdered(user, k);
    actions := SequentialRunsHappen(0, calls);
    Linearizable(0, actions);
    hide PairCalls, CheckMap, After, Inv;
    var w := After(0, actions).value;
    forall i | 0 <= i < |w.log|
      ensures w.log[i].decision.admitted && w.log[i].call.user == user && 0 <= w.log[i].call.now
    {
      PairCallsAdmitted(user, k, i);
      assert Answered(w.log, i) && Calls(w.log)[i] == calls[i];
    }
  }

  /**
    For every `k` some execution stores `2 + 2 * k` goals of one user at a single instant, none trailing its check
    by more than `k` seconds. So the bound cannot be lowered, and without the lag it fails.
   */
  lemma {:induction false} InsertionsMayBunch(user: UserId, k: nat) returns (actions: seq<Action>)
    ensures After(0, actions).Some?
    ensures var w := After(0, actions).value;
            StoredIn(w, user, |w.served|, k * SECOND, 0) == 2 + 2 * k && StoredWithin(w, user, k * SECOND)
  {
    actions := PairsPending(user, k);
    hide After;
    actions := ServeAll(0, actions, 2 * k + 2, 2 * k + 2);
    AllStoredAtOnce(After(0, actions).value, user, 2 * k + 2, k * SECOND);
  }
}
