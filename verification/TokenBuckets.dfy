/** One token bucket: the arithmetic of `CheckRateLimit` and what it means over a whole run of requests. */
module TokenBuckets {
  import opened Clock

  datatype Limits = Limits(maxTokens: real, refillRate: real) {
    predicate Sane() {
      0.0 <= maxTokens && 0.0 <= refillRate
    }
  }

  /** The constants every endpoint is compiled with. */
  const ENDPOINT_LIMITS := Limits(2.0, 2.0)

  datatype Bucket = Bucket(tokens: real, lastRefill: Instant)

  datatype Decision = Decision(admitted: bool, remaining: int)

  /** The tokens earned over a span: the rate times its whole seconds. */
  function Credit(limits: Limits, span: int): real {
    WholeSeconds(span) as real * limits.refillRate
  }

  /** The token count after crediting the whole seconds since the last call, capped. */
  function Refill(limits: Limits, bucket: Bucket, now: Instant): real {
    var credited := bucket.tokens + Credit(limits, now - bucket.lastRefill);
    if credited < limits.maxTokens then credited else limits.maxTokens
  }

  /** One call on one bucket: the new bucket and the answer. */
  function Check(limits: Limits, bucket: Bucket, now: Instant): (Bucket, Decision) {
    var tokens := Refill(limits, bucket, now);
    if tokens >= 1.0 then
      (Bucket(tokens - 1.0, now), Decision(true, Truncate(tokens) - 1))
    else
      (Bucket(tokens, now), Decision(false, Truncate(tokens)))
  }

  /** The bucket after the first `n` of the requests at `times`. */
  function StateAt(limits: Limits, start: Bucket, times: seq<Instant>, n: nat): Bucket
    requires n <= |times|
  {
    if n == 0 then start else Check(limits, StateAt(limits, start, times, n - 1), times[n - 1]).0
  }

  /** The answer to request number `i` of the run. */
  function DecisionAt(limits: Limits, start: Bucket, times: seq<Instant>, i: nat): Decision
    requires i < |times|
  {
    Check(limits, StateAt(limits, start, times, i), times[i]).1
  }

  /** How many of the requests numbered `i` to `j - 1` were admitted. */
  function Admissions(limits: Limits, start: Bucket, times: seq<Instant>, i: nat, j: nat): nat
    requires i <= j <= |times|
  {
    if i == j then 0
    else Admissions(limits, start, times, i, j - 1) + if DecisionAt(limits, start, times, j - 1).admitted then 1 else 0
  }

  /** A run on a prefix of the schedule does not see the rest of it. */
  lemma {:induction false} StateAtPrefix(limits: Limits, start: Bucket, times: seq<Instant>, more: seq<Instant>, n: nat)
    requires n <= |times|
    ensures StateAt(limits, start, times + more, n) == StateAt(limits, start, times, n)
  {
    if n > 0 {
      StateAtPrefix(limits, start, times, more, n - 1);
    }
  }

  // ---- Sliding windows -------------------------------------------------------------------------

  /** The most a window of `length` nanoseconds may admit. */
  function Budget(limits: Limits, length: int): real {
    limits.maxTokens + Credit(limits, length)
  }

  lemma ProductMonotone(a: int, b: int, rate: real)
    requires 0.0 <= rate && a <= b
    ensures a as real * rate <= b as real * rate
  {
  }

  /** Longer spans earn no less, and spans under a second in either direction earn nothing. */
  lemma CreditMonotone(limits: Limits, a: int, b: int)
    requires limits.Sane() && a <= b
    ensures Credit(limits, a) <= Credit(limits, b)
    ensures -SECOND < a < SECOND ==> Credit(limits, a) == 0.0
  {
    WholeSecondsMonotone(a, b);
    ProductMonotone(WholeSeconds(a), WholeSeconds(b), limits.refillRate);
  }

  /** Cutting a span in two never earns more. */
  lemma CreditSuperadditive(limits: Limits, a: int, b: int)
    requires limits.Sane() && 0 <= a && 0 <= b
    ensures Credit(limits, a) + Credit(limits, b) <= Credit(limits, a + b)
  {
    var x, y, whole, rate := WholeSeconds(a), WholeSeconds(b), WholeSeconds(a + b), limits.refillRate;
    WholeSecondsSuperadditive(a, b);
    ProductMonotone(x + y, whole, rate);
    assert x as real * rate + y as real * rate == (x + y) as real * rate;
  }

  lemma BudgetMonotone(limits: Limits, a: int, b: int)
    requires limits.Sane() && 0 <= a <= b
    ensures limits.maxTokens <= Budget(limits, a) <= Budget(limits, b)
  {
    CreditMonotone(limits, 0, a);
    CreditMonotone(limits, a, b);
  }

  /** One refill after a gap spends no more than the budget grows by. */
  lemma RefillWithinBudget(limits: Limits, bucket: Bucket, now: Instant, before: int, spent: real)
    requires limits.Sane() && 0 <= before && bucket.lastRefill <= now
    requires spent + bucket.tokens <= Budget(limits, before)
    ensures spent + Refill(limits, bucket, now) <= Budget(limits, before + (now - bucket.lastRefill))
  {
    CreditSuperadditive(limits, before, now - bucket.lastRefill);
  }

  /** Admissions plus what is left never exceed the cap plus the credit for the whole interval. */
  lemma {:induction false} SliceBudget(limits: Limits, start: Bucket, times: seq<Instant>, i: nat, j: nat)
    requires limits.Sane() && Nondecreasing(times) && i < j <= |times|
    ensures var spent := Admissions(limits, start, times, i, j) as real;
            spent <= Budget(limits, times[j - 1] - times[i]) &&
            spent + StateAt(limits, start, times, j).tokens <= Budget(limits, times[j - 1] - times[i])
  {
    if j == i + 1 {
      assert Admissions(limits, start, times, i, i) == 0;
      assert StateAt(limits, start, times, j) == Check(limits, StateAt(limits, start, times, i), times[i]).0;
    } else {
      SliceBudget(limits, start, times, i, j - 1);
      var bucket := StateAt(limits, start, times, j - 1);
      assert bucket.lastRefill == times[j - 2];
      RefillWithinBudget(limits, bucket, times[j - 1], times[j - 2] - times[i],
                         Admissions(limits, start, times, i, j - 1) as real);
      BudgetMonotone(limits, times[j - 2] - times[i], times[j - 1] - times[i]);
    }
  }

  /** How many of the first `n` requests were admitted with a clock read in `[from, from + length]`. */
  function WindowAdmissions(limits: Limits, start: Bucket, times: seq<Instant>, n: nat, from: Instant, length: int): nat
    requires n <= |times|
  {
    if n == 0 then 0
    else
      WindowAdmissions(limits, start, times, n - 1, from, length) +
      if from <= times[n - 1] <= from + length && DecisionAt(limits, start, times, n - 1).admitted then 1 else 0
  }

  /** Any closed window admits at most the cap plus the rate times the whole seconds it spans. */
  lemma WindowBound(limits: Limits, start: Bucket, times: seq<Instant>, from: Instant, length: int)
    requires limits.Sane() && Nondecreasing(times) && 0 <= length
    ensures WindowAdmissions(limits, start, times, |times|, from, length) as real <= Budget(limits, length)
  {
    var _ := WindowIsSlice(limits, start, times, |times|, from, length);
  }

  /** The admitted requests of a window are those of a contiguous slice of the schedule; yields its first index. */
  lemma {:induction false} WindowIsSlice(
    limits: Limits, start: Bucket, times: seq<Instant>, n: nat, from: Instant, length: int)
    returns (first: nat)
    requires limits.Sane() && Nondecreasing(times) && 0 <= length && n <= |times|
    ensures first <= n && (first < n ==> from <= times[first])
    ensures forall k :: 0 <= k < first ==> times[k] < from
    ensures n > 0 && times[n - 1] <= from + length ==>
              WindowAdmissions(limits, start, times, n, from, length) == Admissions(limits, start, times, first, n)
    ensures WindowAdmissions(limits, start, times, n, from, length) as real <= Budget(limits, length)
  {
    BudgetMonotone(limits, 0, length);
    if n == 0 {
      first := 0;
    } else {
      first := WindowIsSlice(limits, start, times, n - 1, from, length);
      if times[n - 1] < from {
        assert first == n - 1;
        if n - 1 > 0 {
          assert times[n - 2] <= times[n - 1];
        }
        first := n;
      } else if times[n - 1] <= from + length {
        if n - 1 > 0 {
          assert times[n - 2] <= times[n - 1];
        }
        SliceBudget(limits, start, times, first, n);
        BudgetMonotone(limits, times[n - 1] - times[first], length);
      }
    }
  }
}
