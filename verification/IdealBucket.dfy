/** The textbook token bucket, which keeps fractional credit, as a yardstick for the limiter. */
module IdealBucket {
  import opened Clock
  import opened TokenBuckets
  import opened Bursts

  function IdealCredit(limits: Limits, span: int): real {
    span as real / SECOND as real * limits.refillRate
  }

  /** Continuous refill: credit is proportional to the nanoseconds elapsed. */
  function IdealRefill(limits: Limits, bucket: Bucket, now: Instant): real {
    var credited := bucket.tokens + IdealCredit(limits, now - bucket.lastRefill);
    if credited < limits.maxTokens then credited else limits.maxTokens
  }

  function IdealCheck(limits: Limits, bucket: Bucket, now: Instant): (Bucket, bool) {
    var tokens := IdealRefill(limits, bucket, now);
    if tokens >= 1.0 then (Bucket(tokens - 1.0, now), true) else (Bucket(tokens, now), false)
  }

  /** The ideal bucket after the first `n` requests, full when the first one arrives. */
  function IdealAt(limits: Limits, times: seq<Instant>, n: nat): Bucket
    requires 0 < |times| && n <= |times|
  {
    if n == 0 then Bucket(limits.maxTokens, times[0])
    else IdealCheck(limits, IdealAt(limits, times, n - 1), times[n - 1]).0
  }

  /** How many of the first `n` requests the ideal bucket admits. */
  function IdealAdmissions(limits: Limits, times: seq<Instant>, n: nat): nat
    requires 0 < |times| && n <= |times|
  {
    if n == 0 then 0
    else
      IdealAdmissions(limits, times, n - 1) +
      if IdealCheck(limits, IdealAt(limits, times, n - 1), times[n - 1]).1 then 1 else 0
  }

  lemma FractionalBudget(limits: Limits, a: int, b: int)
    requires limits.Sane() && 0 <= a && 0 <= b
    ensures IdealCredit(limits, a) + IdealCredit(limits, b) == IdealCredit(limits, a + b)
    ensures 0.0 <= IdealCredit(limits, a)
  {
    var x, y := a as real / SECOND as real, b as real / SECOND as real;
    assert (a + b) as real / SECOND as real == x + y;
    assert x * limits.refillRate + y * limits.refillRate == (x + y) * limits.refillRate;
    RealProductMonotone(0.0, x, limits.refillRate);
  }

  /** The yardstick is a token bucket: it admits at most the cap plus the rate times the time elapsed. */
  lemma {:induction false} IdealBudget(limits: Limits, times: seq<Instant>, n: nat)
    requires limits.Sane() && 1.0 <= limits.maxTokens && Nondecreasing(times) && 0 < n <= |times|
    ensures IdealAdmissions(limits, times, n) as real + IdealAt(limits, times, n).tokens
         <= limits.maxTokens + IdealCredit(limits, times[n - 1] - times[0])
    ensures 0.0 <= IdealAt(limits, times, n).tokens && IdealAt(limits, times, n).lastRefill == times[n - 1]
  {
    hide IdealCredit;
    if n > 1 {
      IdealBudget(limits, times, n - 1);
      FractionalBudget(limits, times[n - 2] - times[0], times[n - 1] - times[n - 2]);
      FractionalBudget(limits, times[n - 1] - times[n - 2], 0);
    } else {
      FractionalBudget(limits, 0, 0);
      assert IdealAdmissions(limits, times, 0) == 0;
    }
  }

  lemma RealProductMonotone(a: real, b: real, rate: real)
    requires 0.0 <= rate && a <= b
    ensures a * rate <= b * rate
  {
  }

  /** Truncated credit never exceeds fractional credit. */
  lemma TruncatedCreditIsLess(limits: Limits, span: int)
    requires limits.Sane() && 0 <= span
    ensures Credit(limits, span) <= IdealCredit(limits, span)
  {
    var whole, exact := WholeSeconds(span) as real, span as real / SECOND as real;
    assert whole <= exact;
    RealProductMonotone(whole, exact, limits.refillRate);
  }

  /** Refilling keeps the limiter's spent-plus-stored total below the ideal bucket's. */
  lemma RefillKeepsOrder(limits: Limits, code: Bucket, ideal: Bucket, now: Instant, spent: real, idealSpent: real)
    requires limits.Sane() && code.lastRefill == ideal.lastRefill <= now
    requires spent <= idealSpent && spent + code.tokens <= idealSpent + ideal.tokens
    ensures spent + Refill(limits, code, now) <= idealSpent + IdealRefill(limits, ideal, now)
  {
    TruncatedCreditIsLess(limits, now - code.lastRefill);
  }

  /** On every prefix of every schedule the limiter has admitted no more than the ideal bucket. */
  lemma {:induction false} IdealDominates(limits: Limits, start: Bucket, times: seq<Instant>, n: nat)
    requires limits.Sane() && Nondecreasing(times) && 0 < |times| && n <= |times|
    ensures Admissions(limits, start, times, 0, n) <= IdealAdmissions(limits, times, n)
    ensures n > 0 ==>
              Admissions(limits, start, times, 0, n) as real + StateAt(limits, start, times, n).tokens <=
              IdealAdmissions(limits, times, n) as real + IdealAt(limits, times, n).tokens
  {
    if n > 0 {
      IdealDominates(limits, start, times, n - 1);
      var code, ideal := StateAt(limits, start, times, n - 1), IdealAt(limits, times, n - 1);
      var spent, idealSpent := Admissions(limits, start, times, 0, n - 1), IdealAdmissions(limits, times, n - 1);
      if n > 1 {
        assert code.lastRefill == times[n - 2] == ideal.lastRefill;
        RefillKeepsOrder(limits, code, ideal, times[n - 1], spent as real, idealSpent as real);
      }
      assert spent as real + Refill(limits, code, times[n - 1])
          <= idealSpent as real + IdealRefill(limits, ideal, times[n - 1]);
    }
  }

  // ---- How far below: a client at exactly two requests a second --------------------------------

  /** `n` requests, one every half second: the advertised rate of two requests a second. */
  function HalfSecondTicks(n: nat): (times: seq<Instant>)
    ensures Nondecreasing(times)
  {
    seq(n, (j: nat) => j * (SECOND / 2))
  }

  /** The ideal bucket serves every request of such a client; the limiter serves two in all. */
  lemma AdvertisedRateIsNotSustained(n: nat)
    requires 2 <= n
    ensures IdealAdmissions(ENDPOINT_LIMITS, HalfSecondTicks(n), n) == n
    ensures Admissions(ENDPOINT_LIMITS, Bucket(2.0, 0), HalfSecondTicks(n), 0, n) == 2
  {
    IdealServesAll(n, n);
    SteadyClientStarves(Bucket(2.0, 0), HalfSecondTicks(n), n);
  }

  lemma HalfSecondCredit(n: nat, j: nat)
    requires 0 < j < n
    ensures HalfSecondTicks(n)[j] - HalfSecondTicks(n)[j - 1] == SECOND / 2
    ensures IdealCredit(ENDPOINT_LIMITS, SECOND / 2) == 1.0
  {
  }

  lemma {:induction false} IdealServesAll(n: nat, k: nat)
    requires 0 < n && k <= n
    ensures IdealAdmissions(ENDPOINT_LIMITS, HalfSecondTicks(n), k) == k
    ensures k > 0 ==>
              IdealAt(ENDPOINT_LIMITS, HalfSecondTicks(n), k) == Bucket(1.0, HalfSecondTicks(n)[k - 1])
  {
    var times := HalfSecondTicks(n);
    if k > 0 {
      IdealServesAll(n, k - 1);
      if k > 1 {
        HalfSecondCredit(n, k - 1);
      }
      assert IdealRefill(ENDPOINT_LIMITS, IdealAt(ENDPOINT_LIMITS, times, k - 1), times[k - 1]) == 2.0;
    }
  }
}
