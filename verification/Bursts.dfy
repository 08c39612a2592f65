/** A stateless description of the limiter: bursts of requests separated by silences of a second or more. */
module Bursts {
  import opened Clock
  import opened TokenBuckets

  /** The position of request `i` in its burst; denied requests count, since they also reset the refill clock. */
  function BurstIndex(times: seq<Instant>, i: nat): (k: nat)
    requires i < |times|
    ensures k <= i
  {
    if i == 0 || times[i] - times[i - 1] >= SECOND then 0 else BurstIndex(times, i - 1) + 1
  }

  /** What a burst of at most `capacity` admissions answers to its request number `k`. */
  function BurstDecision(capacity: nat, k: nat): Decision {
    if k < capacity then Decision(true, capacity - 1 - k) else Decision(false, 0)
  }

  /** A bucket just constructed for a request stamped `now`, the construction running less than a second later. */
  ghost predicate Fresh(limits: Limits, bucket: Bucket, now: Instant) {
    bucket.tokens == limits.maxTokens && bucket.lastRefill - now < SECOND
  }

  /** Whole capacities whose rate refills an empty bucket within a second; two and two is the compiled instance. */
  predicate BurstLimits(limits: Limits, capacity: nat) {
    limits.maxTokens == capacity as real && limits.maxTokens <= limits.refillRate
  }

  /** A second or more of credit fills the bucket; less than a second adds nothing. */
  lemma RefillIsAllOrNothing(limits: Limits, capacity: nat, bucket: Bucket, now: Instant)
    requires BurstLimits(limits, capacity) && 0.0 <= bucket.tokens <= limits.maxTokens
    requires bucket.lastRefill - now < SECOND
    ensures Refill(limits, bucket, now)
         == if now - bucket.lastRefill >= SECOND then limits.maxTokens else bucket.tokens
  {
    var gap := now - bucket.lastRefill;
    if gap >= SECOND {
      CreditMonotone(limits, SECOND, gap);
      assert WholeSeconds(SECOND) as real == 1.0;
      assert Credit(limits, SECOND) == limits.refillRate;
    } else {
      CreditMonotone(limits, gap, gap);
    }
  }

  /** The tokens a request finds are the capacity less its position in the burst, never below zero. */
  lemma {:induction false} TokensFound(limits: Limits, capacity: nat, start: Bucket, times: seq<Instant>, i: nat)
    requires BurstLimits(limits, capacity) && Nondecreasing(times) && i < |times|
    requires Fresh(limits, start, times[0])
    ensures var k := BurstIndex(times, i);
            Refill(limits, StateAt(limits, start, times, i), times[i]) ==
              (if k < capacity then capacity - k else 0) as real
  {
    var bucket := StateAt(limits, start, times, i);
    if i > 0 {
      TokensFound(limits, capacity, start, times, i - 1);
      assert bucket.lastRefill == times[i - 1] <= times[i];
    }
    RefillIsAllOrNothing(limits, capacity, bucket, times[i]);
  }

  /** The limiter is exactly the stateless burst rule, answer by answer, for any whole capacity. */
  lemma BurstClosedForm(limits: Limits, capacity: nat, start: Bucket, times: seq<Instant>, i: nat)
    requires BurstLimits(limits, capacity) && Nondecreasing(times) && i < |times|
    requires Fresh(limits, start, times[0])
    ensures DecisionAt(limits, start, times, i) == BurstDecision(capacity, BurstIndex(times, i))
  {
    TokensFound(limits, capacity, start, times, i);
    var k := BurstIndex(times, i);
    TruncateWhole(if k < capacity then capacity - k else 0);
  }

  // ---- The compiled limiter: capacity two, two tokens a second ---------------------------------

  /** One of the two gaps before request `i` is a second or more, or there are fewer than two requests before it. */
  ghost predicate RecentSilence(times: seq<Instant>, i: nat)
    requires i < |times|
  {
    i < 2 || times[i] - times[i - 1] >= SECOND || times[i - 1] - times[i - 2] >= SECOND
  }

  /** Request `i` comes after a silence of a second or more, or first of all. */
  ghost predicate StartsBurst(times: seq<Instant>, i: nat)
    requires i < |times|
  {
    i == 0 || times[i] - times[i - 1] >= SECOND
  }

  /** Whether a request is admitted, and what it is told remains, depends on the two gaps before it and nothing else. */
  lemma TwoGapRule(start: Bucket, times: seq<Instant>, i: nat)
    requires Nondecreasing(times) && i < |times|
    requires Fresh(ENDPOINT_LIMITS, start, times[0])
    ensures DecisionAt(ENDPOINT_LIMITS, start, times, i).admitted <==> RecentSilence(times, i)
    ensures DecisionAt(ENDPOINT_LIMITS, start, times, i).remaining
         == if StartsBurst(times, i) then 1 else 0
  {
    BurstClosedForm(ENDPOINT_LIMITS, 2, start, times, i);
  }

  /** A schedule is never limited exactly when no request has two short gaps before it. */
  lemma NeverLimitedIff(start: Bucket, times: seq<Instant>)
    requires Nondecreasing(times)
    requires |times| > 0 ==> Fresh(ENDPOINT_LIMITS, start, times[0])
    ensures (forall i :: 0 <= i < |times| ==> DecisionAt(ENDPOINT_LIMITS, start, times, i).admitted)
       <==> (forall i :: 0 <= i < |times| ==> RecentSilence(times, i))
  {
    forall i | 0 <= i < |times|
      ensures DecisionAt(ENDPOINT_LIMITS, start, times, i).admitted <==> RecentSilence(times, i)
    {
      TwoGapRule(start, times, i);
    }
  }

  /** The lesser of two whole numbers. */
  function Min(a: int, b: int): int {
    if a <= b then a else b
  }

  /**
    From any whole token count of at most two, on any schedule, stored tokens stay whole and at most two, are
    what the last call was told remains, and never fall below what the first call found.
   */
  lemma {:induction false} TokensAreWhole(start: Bucket, whole: int, times: seq<Instant>, n: nat)
    requires start.tokens == whole as real && whole <= 2 && Nondecreasing(times) && 0 < n <= |times|
    ensures var tokens := StateAt(ENDPOINT_LIMITS, start, times, n).tokens;
            var remaining := DecisionAt(ENDPOINT_LIMITS, start, times, n - 1).remaining;
            tokens == remaining as real &&
            Min(0, whole + 2 * WholeSeconds(times[0] - start.lastRefill)) <= remaining <= 1
  {
    var before, held := start, whole;
    if n > 1 {
      TokensAreWhole(start, whole, times, n - 1);
      before := StateAt(ENDPOINT_LIMITS, start, times, n - 1);
      held := DecisionAt(ENDPOINT_LIMITS, start, times, n - 2).remaining;
      assert before.lastRefill == times[n - 2] <= times[n - 1];
    }
    CheckStaysWhole(before, held, times[n - 1]);
  }

  /** One call takes a whole token count of at most two to another. */
  lemma CheckStaysWhole(bucket: Bucket, whole: int, now: Instant)
    requires bucket.tokens == whole as real && whole <= 2
    ensures var found := Min(2, whole + 2 * WholeSeconds(now - bucket.lastRefill));
            var left := if found >= 1 then found - 1 else found;
            Check(ENDPOINT_LIMITS, bucket, now) == (Bucket(left as real, now), Decision(found >= 1, left))
  {
    var found := Min(2, whole + 2 * WholeSeconds(now - bucket.lastRefill));
    assert Refill(ENDPOINT_LIMITS, bucket, now) == found as real;
    TruncateWhole(found);
  }

  /** When the first bucket is built within a second, only 0, 1 and 2 tokens ever occur, and 0 after a denial. */
  lemma FreshTokens(start: Bucket, times: seq<Instant>, n: nat)
    requires Nondecreasing(times) && n <= |times|
    requires |times| > 0 ==> Fresh(ENDPOINT_LIMITS, start, times[0])
    requires start.tokens == 2.0
    ensures StateAt(ENDPOINT_LIMITS, start, times, n).tokens in {0.0, 1.0, 2.0}
    ensures n > 0 && !DecisionAt(ENDPOINT_LIMITS, start, times, n - 1).admitted ==>
              StateAt(ENDPOINT_LIMITS, start, times, n).tokens == 0.0
  {
    if n > 0 {
      BurstClosedForm(ENDPOINT_LIMITS, 2, start, times, n - 1);
      TokensAreWhole(start, 2, times, n);
    }
  }

  /** What `X-RateLimit-Reset: 1` promises: after a denial, the next request is admitted iff it is a second later. */
  lemma ResetAfterOneSecond(start: Bucket, times: seq<Instant>, i: nat)
    requires Nondecreasing(times) && i + 1 < |times|
    requires Fresh(ENDPOINT_LIMITS, start, times[0])
    requires !DecisionAt(ENDPOINT_LIMITS, start, times, i).admitted
    ensures DecisionAt(ENDPOINT_LIMITS, start, times, i + 1).admitted <==> times[i + 1] - times[i] >= SECOND
  {
    TwoGapRule(start, times, i);
    TwoGapRule(start, times, i + 1);
  }

  /** Silence of a second buys exactly one new burst: the next two requests are admitted whenever they come. */
  lemma SilenceBuysTwo(start: Bucket, times: seq<Instant>, i: nat)
    requires Nondecreasing(times) && 0 < i < |times|
    requires Fresh(ENDPOINT_LIMITS, start, times[0])
    requires times[i] - times[i - 1] >= SECOND
    ensures DecisionAt(ENDPOINT_LIMITS, start, times, i) == Decision(true, 1)
    ensures i + 1 < |times| ==> DecisionAt(ENDPOINT_LIMITS, start, times, i + 1).admitted
  {
    TwoGapRule(start, times, i);
    if i + 1 < |times| {
      TwoGapRule(start, times, i + 1);
    }
  }

  /** A client that never pauses for a second is served twice and then never again, however long it goes on. */
  lemma {:induction false} SteadyClientStarves(start: Bucket, times: seq<Instant>, n: nat)
    requires Nondecreasing(times) && n <= |times|
    requires |times| > 0 ==> Fresh(ENDPOINT_LIMITS, start, times[0])
    requires forall i :: 0 < i < |times| ==> times[i] - times[i - 1] < SECOND
    ensures Admissions(ENDPOINT_LIMITS, start, times, 0, n) == if n < 2 then n else 2
  {
    if n > 0 {
      SteadyClientStarves(start, times, n - 1);
      TwoGapRule(start, times, n - 1);
    }
  }

  /** What a user's very first request is answered, by how long its bucket took to build. */
  lemma FirstAnswer(now: Instant, created: Instant)
    requires now <= created
    ensures Check(ENDPOINT_LIMITS, Bucket(2.0, created), now).1
         == if created - now < SECOND then Decision(true, 1) else Decision(false, 2 - 2 * WholeSeconds(created - now))
  {
  }

  /** The two-gap rule holds throughout a user's run exactly when the first bucket is built within a second. */
  lemma TwoGapRuleIff(created: Instant, times: seq<Instant>)
    requires Nondecreasing(times) && |times| > 0 && times[0] <= created
    ensures (forall i :: 0 <= i < |times| ==>
               (DecisionAt(ENDPOINT_LIMITS, Bucket(2.0, created), times, i).admitted <==> RecentSilence(times, i)))
       <==> created - times[0] < SECOND
  {
    var start := Bucket(2.0, created);
    if created - times[0] < SECOND {
      forall i | 0 <= i < |times|
        ensures DecisionAt(ENDPOINT_LIMITS, start, times, i).admitted <==> RecentSilence(times, i)
      {
        TwoGapRule(start, times, i);
      }
    } else {
      FirstAnswer(times[0], created);
      assert RecentSilence(times, 0) && !DecisionAt(ENDPOINT_LIMITS, start, times, 0).admitted;
    }
  }

  // ---- Every first bucket, however late ----------------------------------------------------------

  /** The whole seconds a client has paused for, gap by gap, up to request `i`. */
  function Paused(times: seq<Instant>, i: nat): (seconds: int)
    requires i < |times|
  {
    if i == 0 then 0 else Paused(times, i - 1) + WholeSeconds(times[i] - times[i - 1])
  }

  /**
    The answer to request `i` when the first bucket was built `late` whole seconds after the first clock read: until
    the client's pauses have made up for that the bucket is in debt, afterwards the burst rule holds.
   */
  function LateDecision(late: int, times: seq<Instant>, i: nat): Decision
    requires i < |times|
  {
    if Paused(times, i) < late then Decision(false, 2 - 2 * (late - Paused(times, i)))
    else BurstDecision(2, BurstIndex(times, i))
  }

  /** The tokens request `i` finds: a debt of two a second still missing, or what its burst has left. */
  function LateTokens(late: int, times: seq<Instant>, i: nat): int
    requires i < |times|
  {
    if Paused(times, i) < late then 2 - 2 * (late - Paused(times, i))
    else if BurstIndex(times, i) < 2 then 2 - BurstIndex(times, i) else 0
  }

  /** The tokens left after request `i`. */
  function LateLeft(late: int, times: seq<Instant>, i: nat): int
    requires i < |times|
  {
    var found := LateTokens(late, times, i);
    if found >= 1 then found - 1 else found
  }

  lemma DecidedByTokens(late: int, times: seq<Instant>, i: nat)
    requires i < |times|
    ensures LateDecision(late, times, i) == Decision(LateTokens(late, times, i) >= 1, LateLeft(late, times, i))
    ensures LateLeft(late, times, i) <= 2
  {
  }

  /** From what one request left, the gap after it makes what the next finds. */
  lemma LateRefill(late: int, times: seq<Instant>, i: nat)
    requires Nondecreasing(times) && 0 < i < |times|
    ensures Min(2, LateLeft(late, times, i - 1) + 2 * WholeSeconds(times[i] - times[i - 1]))
         == LateTokens(late, times, i)
  {
    assert times[i - 1] <= times[i];
  }

  /** The limiter is this stateless rule for every first bucket and every schedule. */
  lemma {:induction false} LateClosedForm(start: Bucket, times: seq<Instant>, i: nat)
    requires start.tokens == 2.0 && Nondecreasing(times) && i < |times| && times[0] <= start.lastRefill
    ensures var late := WholeSeconds(start.lastRefill - times[0]);
            DecisionAt(ENDPOINT_LIMITS, start, times, i) == LateDecision(late, times, i) &&
            StateAt(ENDPOINT_LIMITS, start, times, i + 1) == Bucket(LateLeft(late, times, i) as real, times[i])
  {
    var late := WholeSeconds(start.lastRefill - times[0]);
    DecidedByTokens(late, times, i);
    hide Check, WholeSeconds, LateDecision;
    if i == 0 {
      FirstFound(start.lastRefill, times[0]);
      CheckStaysWhole(start, 2, times[0]);
    } else {
      LateClosedForm(start, times, i - 1);
      LateRefill(late, times, i);
      DecidedByTokens(late, times, i - 1);
      hide LateTokens, LateLeft;
      CheckStaysWhole(StateAt(ENDPOINT_LIMITS, start, times, i), LateLeft(late, times, i - 1), times[i]);
    }
  }

  lemma FirstFound(created: Instant, now: Instant)
    requires now <= created
    ensures WholeSeconds(now - created) == -WholeSeconds(created - now) <= 0
  {
  }

  /** A late client is admitted iff its pauses have made up for the delay and the two-gap rule admits the request. */
  lemma {:induction false} LateAdmitsIff(late: int, times: seq<Instant>, i: nat)
    requires i < |times|
    ensures LateDecision(late, times, i).admitted <==> Paused(times, i) >= late && RecentSilence(times, i)
  {
    if i == 1 {
      assert Paused(times, 1) == WholeSeconds(times[1] - times[0]);
    }
    if i > 1 {
      assert BurstIndex(times, i - 1) == 0 || BurstIndex(times, i - 1) == BurstIndex(times, i - 2) + 1;
    }
  }

  lemma {:induction false} PausedMonotone(times: seq<Instant>, k: nat, i: nat)
    requires Nondecreasing(times) && k <= i < |times|
    ensures Paused(times, k) <= Paused(times, i)
  {
    if k < i {
      PausedMonotone(times, k, i - 1);
      WholeSecondsMonotone(0, times[i] - times[i - 1]);
    }
  }

  /** The request with which the pauses make up for the delay starts a burst. */
  lemma {:induction false} DebtPaid(late: int, times: seq<Instant>, i: nat) returns (k: nat)
    requires 0 <= late && Nondecreasing(times) && i < |times| && Paused(times, i) >= late
    ensures k <= i && Paused(times, k) >= late && BurstIndex(times, k) == 0
  {
    if i > 0 && Paused(times, i - 1) >= late {
      k := DebtPaid(late, times, i - 1);
    } else {
      k := i;
      assert i > 0 ==> WholeSeconds(times[i] - times[i - 1]) > 0;
    }
  }

  /** A client has been served by request `i` iff its pauses have reached the seconds its bucket was late. */
  lemma {:induction false} ServedIffPaused(start: Bucket, times: seq<Instant>, i: nat)
    requires start.tokens == 2.0 && Nondecreasing(times) && i < |times| && times[0] <= start.lastRefill
    ensures (exists k :: 0 <= k <= i && DecisionAt(ENDPOINT_LIMITS, start, times, k).admitted) <==>
            Paused(times, i) >= WholeSeconds(start.lastRefill - times[0])
  {
    hide Check;
    var late := WholeSeconds(start.lastRefill - times[0]);
    FirstFound(start.lastRefill, times[0]);
    if k: nat :| k <= i && DecisionAt(ENDPOINT_LIMITS, start, times, k).admitted {
      LateClosedForm(start, times, k);
      PausedMonotone(times, k, i);
    }
    if Paused(times, i) >= late {
      var k := DebtPaid(late, times, i);
      LateClosedForm(start, times, k);
    }
  }

  /** The product `elapsed * refill_rate` is a whole number a double holds exactly, for any int64 clock difference. */
  lemma CreditIsExact(nanos: int)
    requires -0x8000_0000_0000_0000 <= nanos < 0x8000_0000_0000_0000
    ensures Credit(ENDPOINT_LIMITS, nanos) == (2 * WholeSeconds(nanos)) as real
    ensures -0x20_0000_0000_0000 < 2 * WholeSeconds(nanos) < 0x20_0000_0000_0000
  {
  }

  // ---- The window bound is attained ------------------------------------------------------------

  /** Two requests at the start of each of `k + 1` consecutive seconds. */
  function Pairs(k: nat): (times: seq<Instant>)
    ensures Nondecreasing(times)
  {
    seq(2 * k + 2, (j: nat) => (j / 2) * SECOND)
  }

  /** For every whole number of seconds some schedule uses up the whole window budget. */
  lemma WindowBoundAttained(k: nat)
    ensures WindowAdmissions(ENDPOINT_LIMITS, Bucket(2.0, 0), Pairs(k), |Pairs(k)|, 0, k * SECOND) == 2 + 2 * k
    ensures Budget(ENDPOINT_LIMITS, k * SECOND) == (2 + 2 * k) as real
  {
    PairsAllAdmitted(k, |Pairs(k)|);
    assert WholeSeconds(k * SECOND) == k;
  }

  lemma PairsNeverCrowd(k: nat, i: nat)
    requires i < 2 * k + 2
    ensures RecentSilence(Pairs(k), i) && 0 <= Pairs(k)[i] <= k * SECOND
  {
    if i >= 2 {
      if i % 2 == 0 {
        assert i / 2 == (i - 1) / 2 + 1;
      } else {
        assert (i - 1) / 2 == (i - 2) / 2 + 1;
      }
    }
  }

  lemma {:induction false} PairsAllAdmitted(k: nat, n: nat)
    requires n <= 2 * k + 2
    ensures WindowAdmissions(ENDPOINT_LIMITS, Bucket(2.0, 0), Pairs(k), n, 0, k * SECOND) == n
  {
    if n > 0 {
      PairsAllAdmitted(k, n - 1);
      PairsNeverCrowd(k, n - 1);
      TwoGapRule(Bucket(2.0, 0), Pairs(k), n - 1);
    }
  }
}
