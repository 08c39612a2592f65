/** The per-user limiter of one endpoint: a map of buckets, and what each user sees of it. */
module RateLimiter {
  import opened Clock
  import opened TokenBuckets
  import opened Bursts
  import Int64

  type UserId = int

  type Buckets = map<UserId, Bucket>

  /** One call: `now` is the clock read under the lock, `created` the later read a missing bucket is built with. */
  datatype Call = Call(user: UserId, now: Instant, created: Instant)

  function BucketFor(buckets: Buckets, call: Call): Bucket {
    if call.user in buckets then buckets[call.user] else Bucket(ENDPOINT_LIMITS.maxTokens, call.created)
  }

  /** The effect of one call on the whole map. */
  function CheckMap(buckets: Buckets, call: Call): (Buckets, Decision) {
    var (bucket, decision) := Check(ENDPOINT_LIMITS, BucketFor(buckets, call), call.now);
    (buckets[call.user := bucket], decision)
  }

  /** The limiter object: the map `rate_limits` of one endpoint. */
  class RateLimiter {
    var rateLimits: Buckets

    constructor ()
      ensures rateLimits == map[]
    {
      rateLimits := map[];
    }

    method CheckRateLimit(user: UserId, now: Instant, created: Instant) returns (admitted: bool, remaining: int)
      modifies this
      ensures (rateLimits, Decision(admitted, remaining)) == CheckMap(old(rateLimits), Call(user, now, created))
    {
      if user !in rateLimits {
        rateLimits := rateLimits[user := Bucket(2.0, created)];
      }
      var elapsed := WholeSeconds(now - rateLimits[user].lastRefill);
      var credited := rateLimits[user].tokens + elapsed as real * 2.0;
      rateLimits := rateLimits[user := rateLimits[user].(tokens := if credited < 2.0 then credited else 2.0)];
      rateLimits := rateLimits[user := rateLimits[user].(lastRefill := now)];

      remaining := Truncate(rateLimits[user].tokens);
      if rateLimits[user].tokens >= 1.0 {
        rateLimits := rateLimits[user := rateLimits[user].(tokens := rateLimits[user].tokens - 1.0)];
        remaining := remaining - 1;
        assert rateLimits == CheckMap(old(rateLimits), Call(user, now, created)).0;
        return true, remaining;
      }
      assert rateLimits == CheckMap(old(rateLimits), Call(user, now, created)).0;
      return false, remaining;
    }
  }

  // ---- Runs over many users --------------------------------------------------------------------

  /** The map after the first `n` calls to a new limiter. */
  function MapAt(calls: seq<Call>, n: nat): Buckets
    requires n <= |calls|
  {
    if n == 0 then map[] else CheckMap(MapAt(calls, n - 1), calls[n - 1]).0
  }

  function AnswerAt(calls: seq<Call>, i: nat): Decision
    requires i < |calls|
  {
    CheckMap(MapAt(calls, i), calls[i]).1
  }

  /** The answers `user` got from the first `n` calls, in order. */
  function UserAnswers(calls: seq<Call>, user: UserId, n: nat): seq<Decision>
    requires n <= |calls|
  {
    if n == 0 then []
    else if calls[n - 1].user == user then UserAnswers(calls, user, n - 1) + [AnswerAt(calls, n - 1)]
    else UserAnswers(calls, user, n - 1)
  }

  /** The clock reads of `user`'s calls among the first `n`. */
  function UserTimes(calls: seq<Call>, user: UserId, n: nat): seq<Instant>
    requires n <= |calls|
  {
    if n == 0 then []
    else if calls[n - 1].user == user then UserTimes(calls, user, n - 1) + [calls[n - 1].now]
    else UserTimes(calls, user, n - 1)
  }

  /** The bucket a user's first call constructs; any bucket when the user never calls. */
  function FirstBucket(calls: seq<Call>, user: UserId, n: nat): (bucket: Bucket)
    requires n <= |calls|
    ensures bucket.tokens == ENDPOINT_LIMITS.maxTokens
  {
    if n == 0 then Bucket(ENDPOINT_LIMITS.maxTokens, 0)
    else if UserTimes(calls, user, n - 1) == [] && calls[n - 1].user == user then
      Bucket(ENDPOINT_LIMITS.maxTokens, calls[n - 1].created)
    else FirstBucket(calls, user, n - 1)
  }

  /** All the answers of a private bucket on one schedule. */
  function Answers(start: Bucket, times: seq<Instant>): seq<Decision> {
    seq(|times|, i requires 0 <= i < |times| => DecisionAt(ENDPOINT_LIMITS, start, times, i))
  }

  /** A private bucket's answers grow with its schedule. */
  lemma AnswersExtend(start: Bucket, times: seq<Instant>, now: Instant)
    ensures Answers(start, times + [now])
         == Answers(start, times) + [Check(ENDPOINT_LIMITS, StateAt(ENDPOINT_LIMITS, start, times, |times|), now).1]
  {
    forall i: nat | i <= |times|
      ensures StateAt(ENDPOINT_LIMITS, start, times + [now], i) == StateAt(ENDPOINT_LIMITS, start, times, i)
    {
      StateAtPrefix(ENDPOINT_LIMITS, start, times, [now], i);
    }
  }

  /** However calls of different users interleave, each user gets exactly the answers of a private bucket. */
  lemma {:induction false} Projection(calls: seq<Call>, user: UserId, n: nat)
    requires n <= |calls|
    ensures var times, start := UserTimes(calls, user, n), FirstBucket(calls, user, n);
            UserAnswers(calls, user, n) == Answers(start, times) &&
            (user in MapAt(calls, n) <==> times != []) &&
            (times != [] ==> MapAt(calls, n)[user] == StateAt(ENDPOINT_LIMITS, start, times, |times|))
  {
    hide Check;
    if n > 0 {
      Projection(calls, user, n - 1);
      if calls[n - 1].user == user {
        var times, start := UserTimes(calls, user, n - 1), FirstBucket(calls, user, n);
        AnswersExtend(start, times, calls[n - 1].now);
        StateAtPrefix(ENDPOINT_LIMITS, start, times, [calls[n - 1].now], |times|);
        assert BucketFor(MapAt(calls, n - 1), calls[n - 1]) == StateAt(ENDPOINT_LIMITS, start, times, |times|);
      }
    }
  }

  /** Calls appear in the order of the clock reads made under the lock. */
  ghost predicate Ordered(calls: seq<Call>) {
    forall i, j :: 0 <= i <= j < |calls| ==> calls[i].now <= calls[j].now
  }

  /**
    The scheduling assumption: the call that builds `user`'s bucket, if it is among the first `n`, does so
    less than a second after its clock read. Calls that find a bucket may take as long as they like.
   */
  ghost predicate PromptFor(calls: seq<Call>, user: UserId, n: nat)
    requires n <= |calls|
  {
    forall i :: 0 <= i < n && calls[i].user == user && user !in MapAt(calls, i) ==>
      calls[i].created - calls[i].now < SECOND
  }

  lemma {:induction false} UserTimesOrdered(calls: seq<Call>, user: UserId, n: nat)
    requires Ordered(calls) && n <= |calls|
    ensures Nondecreasing(UserTimes(calls, user, n))
    ensures n > 0 ==> forall k :: 0 <= k < |UserTimes(calls, user, n)| ==>
      UserTimes(calls, user, n)[k] <= calls[n - 1].now
  {
    if n > 0 {
      UserTimesOrdered(calls, user, n - 1);
      assert n > 1 ==> calls[n - 2].now <= calls[n - 1].now;
    }
  }

  /** The assumption says exactly that the user's first bucket is fresh for the user's first clock read. */
  lemma {:induction false} FreshIffPrompt(calls: seq<Call>, user: UserId, n: nat)
    requires n <= |calls|
    ensures var times := UserTimes(calls, user, n);
            PromptFor(calls, user, n) <==>
            (times == [] || Fresh(ENDPOINT_LIMITS, FirstBucket(calls, user, n), times[0]))
  {
    hide CheckMap;
    if n > 0 {
      FreshIffPrompt(calls, user, n - 1);
      Projection(calls, user, n - 1);
      assert PromptFor(calls, user, n) <==>
             PromptFor(calls, user, n - 1) &&
             (calls[n - 1].user == user && user !in MapAt(calls, n - 1) ==>
               calls[n - 1].created - calls[n - 1].now < SECOND);
    }
  }

  /** Each user's answers follow the two-gap rule on that user's own calls, whatever the others do. */
  lemma UserClosedForm(calls: seq<Call>, user: UserId)
    requires Ordered(calls) && PromptFor(calls, user, |calls|)
    ensures var times, answers := UserTimes(calls, user, |calls|), UserAnswers(calls, user, |calls|);
            |answers| == |times| &&
            (forall k :: 0 <= k < |times| ==> (answers[k].admitted <==> RecentSilence(times, k))) &&
            (forall k :: 0 <= k < |times| ==> answers[k].remaining == if StartsBurst(times, k) then 1 else 0)
  {
    var times, start := UserTimes(calls, user, |calls|), FirstBucket(calls, user, |calls|);
    Projection(calls, user, |calls|);
    UserTimesOrdered(calls, user, |calls|);
    FreshIffPrompt(calls, user, |calls|);
    forall k | 0 <= k < |times|
      ensures Answers(start, times)[k].admitted <==> RecentSilence(times, k)
      ensures Answers(start, times)[k].remaining == if StartsBurst(times, k) then 1 else 0
    {
      TwoGapRule(start, times, k);
    }
  }

  /**
    Among any number of users, a user's answers follow the two-gap rule iff that user's bucket was built within
    a second.
   */
  lemma UserTwoGapRuleIff(calls: seq<Call>, user: UserId)
    requires Ordered(calls)
    ensures var times, answers := UserTimes(calls, user, |calls|), UserAnswers(calls, user, |calls|);
            |answers| == |times| &&
            ((forall k :: 0 <= k < |times| ==> (answers[k].admitted <==> RecentSilence(times, k))) <==>
             PromptFor(calls, user, |calls|))
  {
    var times, start := UserTimes(calls, user, |calls|), FirstBucket(calls, user, |calls|);
    Projection(calls, user, |calls|);
    FreshIffPrompt(calls, user, |calls|);
    if PromptFor(calls, user, |calls|) {
      UserClosedForm(calls, user);
    } else {
      UserTimesOrdered(calls, user, |calls|);
      TwoGapRuleIff(start.lastRefill, times);
    }
  }

  /** How many whole seconds after the user's first clock read the user's bucket was built. */
  function LateBy(calls: seq<Call>, user: UserId, n: nat): int
    requires n <= |calls|
  {
    var times := UserTimes(calls, user, n);
    if times == [] then 0 else WholeSeconds(FirstBucket(calls, user, n).lastRefill - times[0])
  }

  lemma {:induction false} BuiltAfterRead(calls: seq<Call>, user: UserId, n: nat)
    requires n <= |calls| && forall i :: 0 <= i < |calls| ==> calls[i].now <= calls[i].created
    ensures var times := UserTimes(calls, user, n);
            times != [] ==> times[0] <= FirstBucket(calls, user, n).lastRefill
  {
    if n > 0 {
      BuiltAfterRead(calls, user, n - 1);
    }
  }

  /**
    With no assumption on delays, each user's answers are a stateless function of that user's own clock reads and of
    how late that user's bucket was built.
   */
  lemma UserLateClosedForm(calls: seq<Call>, user: UserId)
    requires Ordered(calls) && forall i :: 0 <= i < |calls| ==> calls[i].now <= calls[i].created
    ensures var times, answers := UserTimes(calls, user, |calls|), UserAnswers(calls, user, |calls|);
            |answers| == |times| &&
            forall k :: 0 <= k < |times| ==> answers[k] == LateDecision(LateBy(calls, user, |calls|), times, k)
  {
    hide Check;
    var times, start := UserTimes(calls, user, |calls|), FirstBucket(calls, user, |calls|);
    Projection(calls, user, |calls|);
    UserTimesOrdered(calls, user, |calls|);
    BuiltAfterRead(calls, user, |calls|);
    forall k | 0 <= k < |times|
      ensures Answers(start, times)[k] == LateDecision(LateBy(calls, user, |calls|), times, k)
    {
      LateClosedForm(start, times, k);
    }
  }

  /** A number a `double` stores exactly. */
  predicate ExactDouble(x: real) {
    x == Truncate(x) as real && -9007199254740992.0 < x < 9007199254740992.0
  }

  /** In every reachable map, however slowly buckets are built, tokens are whole, at most two and exact as doubles. */
  lemma MapTokensAreExact(calls: seq<Call>, n: nat, user: UserId)
    requires Ordered(calls) && n <= |calls| && user in MapAt(calls, n)
    requires forall i :: 0 <= i < |calls| ==> calls[i].created - calls[i].now <= Int64.MAX
    ensures MapAt(calls, n)[user].tokens <= 2.0 && ExactDouble(MapAt(calls, n)[user].tokens)
  {
    hide Check;
    var times, start := UserTimes(calls, user, n), FirstBucket(calls, user, n);
    Projection(calls, user, n);
    UserTimesOrdered(calls, user, n);
    FirstDelay(calls, user, n, Int64.MAX);
    TokensAreWhole(start, 2, times, |times|);
    WholeSecondsMonotone(-Int64.MAX, times[0] - start.lastRefill);
    TruncateWhole(DecisionAt(ENDPOINT_LIMITS, start, times, |times| - 1).remaining);
  }

  lemma {:induction false} FirstDelay(calls: seq<Call>, user: UserId, n: nat, delay: int)
    requires n <= |calls| && forall i :: 0 <= i < |calls| ==> calls[i].created - calls[i].now <= delay
    ensures var times := UserTimes(calls, user, n);
            times != [] ==> FirstBucket(calls, user, n).lastRefill - times[0] <= delay
  {
    if n > 0 {
      FirstDelay(calls, user, n - 1, delay);
    }
  }

  /** What a call is told remains is 0 or 1, and 0 whenever it is denied. */
  lemma DenialLeavesNothing(calls: seq<Call>, i: nat)
    requires Ordered(calls) && i < |calls| && PromptFor(calls, calls[i].user, i + 1)
    ensures AnswerAt(calls, i).remaining in {0, 1}
    ensures !AnswerAt(calls, i).admitted ==> AnswerAt(calls, i).remaining == 0
  {
    hide Check;
    var user := calls[i].user;
    var times, start := UserTimes(calls, user, i + 1), FirstBucket(calls, user, i + 1);
    Projection(calls, user, i + 1);
    UserTimesOrdered(calls, user, i + 1);
    FreshIffPrompt(calls, user, i + 1);
    TwoGapRule(start, times, |times| - 1);
    assert AnswerAt(calls, i) == UserAnswers(calls, user, i + 1)[|times| - 1];
  }

  /** A run on a prefix of the calls does not see the rest of them. */
  lemma {:induction false} MapAtPrefix(calls: seq<Call>, more: seq<Call>, n: nat)
    requires n <= |calls|
    ensures MapAt(calls + more, n) == MapAt(calls, n)
  {
    if n > 0 {
      MapAtPrefix(calls, more, n - 1);
    }
  }

  /** Adding a call leaves every earlier answer alone and answers the new call from the state reached. */
  lemma AnswersAfterOneMore(calls: seq<Call>, call: Call)
    ensures forall i :: 0 <= i < |calls| ==> AnswerAt(calls + [call], i) == AnswerAt(calls, i)
    ensures (MapAt(calls + [call], |calls| + 1), AnswerAt(calls + [call], |calls|)) ==
      CheckMap(MapAt(calls, |calls|), call)
  {
    forall i | 0 <= i <= |calls|
      ensures MapAt(calls + [call], i) == MapAt(calls, i)
    {
      MapAtPrefix(calls, [call], i);
    }
  }

  lemma {:induction false} UserAnswersPrefix(calls: seq<Call>, more: seq<Call>, user: UserId, n: nat)
    requires n <= |calls|
    ensures UserAnswers(calls + more, user, n) == UserAnswers(calls, user, n)
  {
    if n > 0 {
      UserAnswersPrefix(calls, more, user, n - 1);
      MapAtPrefix(calls, more, n - 1);
    }
  }

  // ---- Windows over the whole limiter ----------------------------------------------------------

  /** How many of `user`'s first `n` calls were admitted with a clock read in `[from, from + length]`. */
  function UserWindow(calls: seq<Call>, user: UserId, n: nat, from: Instant, length: int): nat
    requires n <= |calls|
  {
    if n == 0 then 0
    else
      var call := calls[n - 1];
      UserWindow(calls, user, n - 1, from, length) +
      if call.user == user && from <= call.now <= from + length && AnswerAt(calls, n - 1).admitted then 1 else 0
  }

  lemma {:induction false} WindowPrefix(
    start: Bucket, times: seq<Instant>, more: seq<Instant>, n: nat, from: Instant, length: int)
    requires n <= |times|
    ensures WindowAdmissions(ENDPOINT_LIMITS, start, times + more, n, from, length)
         == WindowAdmissions(ENDPOINT_LIMITS, start, times, n, from, length)
  {
    hide Check;
    if n > 0 {
      WindowPrefix(start, times, more, n - 1, from, length);
      StateAtPrefix(ENDPOINT_LIMITS, start, times, more, n - 1);
    }
  }

  lemma {:induction false} UserWindowPrefix(
    calls: seq<Call>, more: seq<Call>, user: UserId, n: nat, from: Instant, length: int)
    requires n <= |calls|
    ensures UserWindow(calls + more, user, n, from, length) == UserWindow(calls, user, n, from, length)
  {
    hide CheckMap;
    if n > 0 {
      UserWindowPrefix(calls, more, user, n - 1, from, length);
      MapAtPrefix(calls, more, n - 1);
    }
  }

  /** A user's window in the shared limiter is the window of the private bucket. */
  lemma {:induction false} UserWindowIsPrivate(calls: seq<Call>, user: UserId, n: nat, from: Instant, length: int)
    requires n <= |calls|
    ensures var times, start := UserTimes(calls, user, n), FirstBucket(calls, user, n);
            UserWindow(calls, user, n, from, length) ==
            WindowAdmissions(ENDPOINT_LIMITS, start, times, |times|, from, length)
  {
    hide Check;
    if n > 0 {
      UserWindowIsPrivate(calls, user, n - 1, from, length);
      if calls[n - 1].user == user {
        var times, start := UserTimes(calls, user, n - 1), FirstBucket(calls, user, n);
        Projection(calls, user, n - 1);
        WindowPrefix(start, times, [calls[n - 1].now], |times|, from, length);
        StateAtPrefix(ENDPOINT_LIMITS, start, times, [calls[n - 1].now], |times|);
      }
    }
  }

  /** No user is admitted more than 2 + 2 * (whole seconds of the window) times in any window, whatever the traffic. */
  lemma UserWindowBound(calls: seq<Call>, user: UserId, from: Instant, length: int)
    requires Ordered(calls) && 0 <= length
    ensures UserWindow(calls, user, |calls|, from, length) <= 2 + 2 * WholeSeconds(length)
  {
    UserWindowIsPrivate(calls, user, |calls|, from, length);
    UserTimesOrdered(calls, user, |calls|);
    WindowBound(ENDPOINT_LIMITS, FirstBucket(calls, user, |calls|), UserTimes(calls, user, |calls|), from, length);
  }
}
