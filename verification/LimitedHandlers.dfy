/** What every rate-limited handler does to its limiter over a whole run, whatever else it reads and writes. */
module LimitedHandlers {
  import opened Wrappers
  import opened Clock
  import opened TokenBuckets
  import opened Bursts
  import opened RateLimiter

  /** The limiter's part in a response: none, or the three headers of a 429. */
  datatype Verdict = NotLimited | Limited(limit: int, remaining: int, reset: int)

  /** A handler seen from its limiter: `S` is all else it changes, `R` what a request and the databases tell it. */
  type Handler<!S, !R> = (Buckets, S, R) -> (Buckets, S, Verdict)

  /** What one request does to the map, and the verdict, when the limiter is called as `call` says. */
  predicate ObeysLimiter(buckets: Buckets, call: Option<Call>, buckets': Buckets, verdict: Verdict) {
    match call
    case None => buckets' == buckets && verdict == NotLimited
    case Some(c) =>
      var (after, decision) := CheckMap(buckets, c);
      buckets' == after && verdict == if decision.admitted then NotLimited else Limited(2, decision.remaining, 1)
  }

  /** The handler calls its limiter exactly as `callOf` says and turns a denial into a 429. */
  ghost predicate Limits<S(!new), R(!new)>(handler: Handler<S, R>, callOf: R -> Option<Call>) {
    forall buckets, state, request ::
      ObeysLimiter(buckets, callOf(request),
                   handler(buckets, state, request).0, handler(buckets, state, request).2)
  }

  /** The limiter's map and the rest of the state after the first `n` requests to a new limiter. */
  function RunAt<S, R>(handler: Handler<S, R>, start: S, requests: seq<R>, n: nat): (Buckets, S)
    requires n <= |requests|
  {
    if n == 0 then (map[], start)
    else
      var (buckets, state) := RunAt(handler, start, requests, n - 1);
      var (buckets', state', _) := handler(buckets, state, requests[n - 1]);
      (buckets', state')
  }

  function VerdictAt<S, R>(handler: Handler<S, R>, start: S, requests: seq<R>, i: nat): Verdict
    requires i < |requests|
  {
    var (buckets, state) := RunAt(handler, start, requests, i);
    handler(buckets, state, requests[i]).2
  }

  /** The limiter calls of the first `n` requests. */
  function CallsOf<R>(callOf: R -> Option<Call>, requests: seq<R>, n: nat): seq<Call>
    requires n <= |requests|
  {
    if n == 0 then []
    else
      match callOf(requests[n - 1])
      case None => CallsOf(callOf, requests, n - 1)
      case Some(call) => CallsOf(callOf, requests, n - 1) + [call]
  }

  /** Over any run the map is that of the limiter alone on the calls made, and a 429 is exactly a denial among them. */
  lemma {:induction false} DrivesLimiter<S(!new), R(!new)>(
    handler: Handler<S, R>, callOf: R -> Option<Call>, start: S, requests: seq<R>, n: nat)
    requires Limits(handler, callOf) && n <= |requests|
    ensures var calls := CallsOf(callOf, requests, n);
            RunAt(handler, start, requests, n).0 == MapAt(calls, |calls|)
    ensures n > 0 ==>
              var calls := CallsOf(callOf, requests, n);
              VerdictAt(handler, start, requests, n - 1) ==
              if callOf(requests[n - 1]).None? then NotLimited
              else
                var answer := AnswerAt(calls, |calls| - 1);
                if answer.admitted then NotLimited else Limited(2, answer.remaining, 1)
  {
    hide CheckMap;
    if n > 0 {
      DrivesLimiter(handler, callOf, start, requests, n - 1);
      var before := CallsOf(callOf, requests, n - 1);
      var (buckets, state) := RunAt(handler, start, requests, n - 1);
      var request := requests[n - 1];
      assert ObeysLimiter(buckets, callOf(request), handler(buckets, state, request).0,
                          handler(buckets, state, request).2);
      if callOf(request).Some? {
        AnswersAfterOneMore(before, callOf(request).value);
      }
    }
  }

  /** How many of the first `n` requests of `user` got past the limiter with its clock read in the window. */
  function Passed<S, R>(
    handler: Handler<S, R>, callOf: R -> Option<Call>, start: S, requests: seq<R>, user: UserId, n: nat,
    from: Instant, length: int): nat
    requires n <= |requests|
  {
    if n == 0 then 0
    else
      Passed(handler, callOf, start, requests, user, n - 1, from, length) +
      match callOf(requests[n - 1])
      case None => 0
      case Some(call) =>
        if call.user == user && from <= call.now <= from + length &&
           VerdictAt(handler, start, requests, n - 1).NotLimited? then 1 else 0
  }

  lemma {:induction false} PassedIsWindow<S(!new), R(!new)>(
    handler: Handler<S, R>, callOf: R -> Option<Call>, start: S, requests: seq<R>, user: UserId, n: nat,
    from: Instant, length: int)
    requires Limits(handler, callOf) && n <= |requests|
    ensures var calls := CallsOf(callOf, requests, n);
            Passed(handler, callOf, start, requests, user, n, from, length) ==
            UserWindow(calls, user, |calls|, from, length)
  {
    hide CheckMap, Limits;
    if n > 0 {
      PassedIsWindow(handler, callOf, start, requests, user, n - 1, from, length);
      DrivesLimiter(handler, callOf, start, requests, n);
      var before := CallsOf(callOf, requests, n - 1);
      if callOf(requests[n - 1]).Some? {
        UserWindowPrefix(before, [callOf(requests[n - 1]).value], user, |before|, from, length);
      }
    }
  }

  /** No handler lets more of a user's requests through in a window than the limiter's budget. */
  lemma {:induction false} PassedBound<S(!new), R(!new)>(
    handler: Handler<S, R>, callOf: R -> Option<Call>, start: S, requests: seq<R>, user: UserId,
    from: Instant, length: int)
    requires Limits(handler, callOf) && 0 <= length && Ordered(CallsOf(callOf, requests, |requests|))
    ensures Passed(handler, callOf, start, requests, user, |requests|, from, length) <= 2 + 2 * WholeSeconds(length)
  {
    PassedIsWindow(handler, callOf, start, requests, user, |requests|, from, length);
    UserWindowBound(CallsOf(callOf, requests, |requests|), user, from, length);
  }
}
