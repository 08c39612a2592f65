/** The steady clock, read as whole nanoseconds, and the conversions the limiter applies to it. */
module Clock {

  /** A steady-clock time point: nanoseconds since an arbitrary epoch. */
  type Instant = int

  const SECOND: int := 1_000_000_000

  /** `duration_cast<seconds>`: whole seconds, rounding toward zero for either sign. */
  function WholeSeconds(nanos: int): int {
    if nanos >= 0 then nanos / SECOND else -((-nanos) / SECOND)
  }

  /** `static_cast<int>` of a double: drop the fraction, rounding toward zero for either sign. */
  function Truncate(x: real): int {
    if x >= 0.0 then x.Floor else -((-x).Floor)
  }

  /** A schedule is a list of clock reads in the order they were made. */
  ghost predicate Nondecreasing(times: seq<Instant>) {
    forall i, j :: 0 <= i <= j < |times| ==> times[i] <= times[j]
  }

  /** Cutting an interval in two and truncating each piece never gains time. */
  lemma WholeSecondsSuperadditive(a: int, b: int)
    requires 0 <= a && 0 <= b
    ensures WholeSeconds(a) + WholeSeconds(b) <= WholeSeconds(a + b)
  {
  }

  lemma WholeSecondsMonotone(a: int, b: int)
    requires a <= b
    ensures WholeSeconds(a) <= WholeSeconds(b)
  {
  }

  lemma TruncateWhole(n: int)
    ensures Truncate(n as real) == n
  {
  }

  /** Both conversions drop a fraction of less than one and never pass zero. */
  lemma {:induction false} ConversionsDropFraction(nanos: int, x: real)
    ensures SECOND == 1_000_000_000
    ensures nanos >= 0 ==> WholeSeconds(nanos) * 1_000_000_000 <= nanos < (WholeSeconds(nanos) + 1) * 1_000_000_000
    ensures nanos <= 0 ==> WholeSeconds(nanos) == -WholeSeconds(-nanos)
    ensures x >= 0.0 ==> Truncate(x) as real <= x < Truncate(x) as real + 1.0
    ensures x <= 0.0 ==> Truncate(x) == -Truncate(-x)
  {
  }
}
