/** The six endpoints, each with its own limiter, run together. */
module Endpoints {
  import opened Clock
  import opened TokenBuckets
  import opened RateLimiter
  import opened KeyedSequences

  datatype Endpoint = CreateGoal | ListGoals | CreateTask | UpdateTask | ListTasks | SearchUsers

  /** A rate-limited request, at the clock reads of its endpoint's limiter. */
  datatype Arrival = Arrival(endpoint: Endpoint, call: Call)

  type Limiters = map<Endpoint, Buckets>

  const NEW_LIMITERS: Limiters :=
    map[CreateGoal := map[], ListGoals := map[], CreateTask := map[],
        UpdateTask := map[], ListTasks := map[], SearchUsers := map[]]

  function LimiterOf(limiters: Limiters, endpoint: Endpoint): Buckets {
    if endpoint in limiters then limiters[endpoint] else map[]
  }

  /** The six limiters after the first `n` arrivals. */
  function SystemAt(arrivals: seq<Arrival>, n: nat): Limiters
    requires n <= |arrivals|
  {
    if n == 0 then NEW_LIMITERS
    else
      var before, a := SystemAt(arrivals, n - 1), arrivals[n - 1];
      before[a.endpoint := CheckMap(LimiterOf(before, a.endpoint), a.call).0]
  }

  function SystemAnswer(arrivals: seq<Arrival>, i: nat): Decision
    requires i < |arrivals|
  {
    CheckMap(LimiterOf(SystemAt(arrivals, i), arrivals[i].endpoint), arrivals[i].call).1
  }

  /** The calls that reach one endpoint among the first `n` arrivals. */
  function CallsTo(arrivals: seq<Arrival>, endpoint: Endpoint, n: nat): seq<Call>
    requires n <= |arrivals|
  {
    if n == 0 then []
    else if arrivals[n - 1].endpoint == endpoint then CallsTo(arrivals, endpoint, n - 1) + [arrivals[n - 1].call]
    else CallsTo(arrivals, endpoint, n - 1)
  }

  /** An arrival moves its own endpoint's limiter and no other. */
  lemma SystemStep(arrivals: seq<Arrival>, endpoint: Endpoint, n: nat)
    requires 0 < n <= |arrivals|
    ensures var before, a := LimiterOf(SystemAt(arrivals, n - 1), endpoint), arrivals[n - 1];
            LimiterOf(SystemAt(arrivals, n), endpoint) ==
            if a.endpoint == endpoint then CheckMap(before, a.call).0 else before
  {
  }

  /** Each endpoint's limiter is in the state it would reach alone with its own calls. */
  lemma {:induction false} EndpointsAreIndependent(arrivals: seq<Arrival>, endpoint: Endpoint, n: nat)
    requires n <= |arrivals|
    ensures var calls := CallsTo(arrivals, endpoint, n);
            LimiterOf(SystemAt(arrivals, n), endpoint) == MapAt(calls, |calls|)
  {
    hide CheckMap;
    if n > 0 {
      EndpointsAreIndependent(arrivals, endpoint, n - 1);
      SystemStep(arrivals, endpoint, n);
      if arrivals[n - 1].endpoint == endpoint {
        AnswersAfterOneMore(CallsTo(arrivals, endpoint, n - 1), arrivals[n - 1].call);
      }
    }
  }

  /** The system answers each request as its endpoint alone would. */
  lemma AnswersAreLocal(arrivals: seq<Arrival>, i: nat)
    requires i < |arrivals|
    ensures var calls := CallsTo(arrivals, arrivals[i].endpoint, i + 1);
            calls != [] && SystemAnswer(arrivals, i) == AnswerAt(calls, |calls| - 1)
  {
    hide CheckMap;
    EndpointsAreIndependent(arrivals, arrivals[i].endpoint, i);
    AnswersAfterOneMore(CallsTo(arrivals, arrivals[i].endpoint, i), arrivals[i].call);
  }

  /** One if request `i` is `user`'s, admitted, and in the window; zero otherwise. */
  function Hit(arrivals: seq<Arrival>, user: UserId, i: nat, from: Instant, length: int): nat
    requires i < |arrivals|
  {
    var call := arrivals[i].call;
    if call.user == user && from <= call.now <= from + length && SystemAnswer(arrivals, i).admitted then 1 else 0
  }

  /** How many of `user`'s requests, to any endpoint, were admitted with a clock read in `[from, from + length]`. */
  function UserTotal(arrivals: seq<Arrival>, user: UserId, n: nat, from: Instant, length: int): nat
    requires n <= |arrivals|
  {
    if n == 0 then 0 else UserTotal(arrivals, user, n - 1, from, length) + Hit(arrivals, user, n - 1, from, length)
  }

  /** `user`'s window at one endpoint. */
  function EndpointWindow(
    arrivals: seq<Arrival>, user: UserId, endpoint: Endpoint, n: nat, from: Instant, length: int): nat
    requires n <= |arrivals|
  {
    var calls := CallsTo(arrivals, endpoint, n);
    UserWindow(calls, user, |calls|, from, length)
  }

  /** An arrival changes the window of its own endpoint only, and by what the system answered. */
  lemma EndpointWindowStep(arrivals: seq<Arrival>, user: UserId, endpoint: Endpoint, n: nat, from: Instant, length: int)
    requires 0 < n <= |arrivals|
    ensures EndpointWindow(arrivals, user, endpoint, n, from, length) ==
            EndpointWindow(arrivals, user, endpoint, n - 1, from, length) +
            if arrivals[n - 1].endpoint == endpoint then Hit(arrivals, user, n - 1, from, length) else 0
  {
    hide CheckMap;
    if arrivals[n - 1].endpoint == endpoint {
      var calls := CallsTo(arrivals, endpoint, n - 1);
      AnswersAreLocal(arrivals, n - 1);
      UserWindowPrefix(calls, [arrivals[n - 1].call], user, |calls|, from, length);
    }
  }

  const ALL_ENDPOINTS: seq<Endpoint> := [CreateGoal, ListGoals, CreateTask, UpdateTask, ListTasks, SearchUsers]

  lemma AllEndpointsListed()
    ensures forall e: Endpoint :: e in ALL_ENDPOINTS
  {
    forall e: Endpoint
      ensures e in ALL_ENDPOINTS
    {
      match e
      case CreateGoal => assert ALL_ENDPOINTS[0] == e;
      case ListGoals => assert ALL_ENDPOINTS[1] == e;
      case CreateTask => assert ALL_ENDPOINTS[2] == e;
      case UpdateTask => assert ALL_ENDPOINTS[3] == e;
      case ListTasks => assert ALL_ENDPOINTS[4] == e;
      case SearchUsers => assert ALL_ENDPOINTS[5] == e;
    }
  }

  /** The windows of some endpoints together. */
  function SumOfWindows(
    endpoints: seq<Endpoint>, arrivals: seq<Arrival>, user: UserId, n: nat, from: Instant, length: int): nat
    requires n <= |arrivals|
  {
    if endpoints == [] then 0
    else
      EndpointWindow(arrivals, user, endpoints[0], n, from, length) +
      SumOfWindows(endpoints[1..], arrivals, user, n, from, length)
  }

  lemma {:induction false} SumOfWindowsStep(
    endpoints: seq<Endpoint>, arrivals: seq<Arrival>, user: UserId, n: nat, from: Instant, length: int)
    requires 0 < n <= |arrivals| && NoDuplicates(endpoints)
    ensures SumOfWindows(endpoints, arrivals, user, n, from, length) ==
            SumOfWindows(endpoints, arrivals, user, n - 1, from, length) +
            if arrivals[n - 1].endpoint in endpoints then Hit(arrivals, user, n - 1, from, length) else 0
  {
    if endpoints != [] {
      SumOfWindowsStep(endpoints[1..], arrivals, user, n, from, length);
      EndpointWindowStep(arrivals, user, endpoints[0], n, from, length);
      assert endpoints == [endpoints[0]] + endpoints[1..];
    }
  }

  lemma {:induction false} SumOfWindowsAtStart(
    endpoints: seq<Endpoint>, arrivals: seq<Arrival>, user: UserId, from: Instant, length: int)
    ensures SumOfWindows(endpoints, arrivals, user, 0, from, length) == 0
  {
    if endpoints != [] {
      SumOfWindowsAtStart(endpoints[1..], arrivals, user, from, length);
    }
  }

  /** Over endpoints that cover all arrivals, a user's total is the sum of the endpoint windows. */
  lemma {:induction false} TotalIsSumOfEndpoints(
    endpoints: seq<Endpoint>, arrivals: seq<Arrival>, user: UserId, n: nat, from: Instant, length: int)
    requires n <= |arrivals| && NoDuplicates(endpoints) && forall e: Endpoint :: e in endpoints
    ensures UserTotal(arrivals, user, n, from, length) == SumOfWindows(endpoints, arrivals, user, n, from, length)
  {
    if n > 0 {
      TotalIsSumOfEndpoints(endpoints, arrivals, user, n - 1, from, length);
      SumOfWindowsStep(endpoints, arrivals, user, n, from, length);
    } else {
      SumOfWindowsAtStart(endpoints, arrivals, user, from, length);
    }
  }

  /** Each endpoint's calls come in the order of the clock reads under its own lock; nothing orders the endpoints. */
  ghost predicate OrderedAtEach(arrivals: seq<Arrival>) {
    forall e: Endpoint :: Ordered(CallsTo(arrivals, e, |arrivals|))
  }

  lemma EndpointWindowBound(arrivals: seq<Arrival>, user: UserId, endpoint: Endpoint, from: Instant, length: int)
    requires OrderedAtEach(arrivals) && 0 <= length
    ensures EndpointWindow(arrivals, user, endpoint, |arrivals|, from, length) <= 2 + 2 * WholeSeconds(length)
  {
    UserWindowBound(CallsTo(arrivals, endpoint, |arrivals|), user, from, length);
  }

  lemma {:induction false} SumOfWindowsBound(
    endpoints: seq<Endpoint>, arrivals: seq<Arrival>, user: UserId, from: Instant, length: int, budget: nat)
    requires forall e: Endpoint :: EndpointWindow(arrivals, user, e, |arrivals|, from, length) <= budget
    ensures SumOfWindows(endpoints, arrivals, user, |arrivals|, from, length) <= |endpoints| * budget
  {
    if endpoints != [] {
      SumOfWindowsBound(endpoints[1..], arrivals, user, from, length, budget);
      assert |endpoints| * budget == budget + |endpoints[1..]| * budget;
    }
  }

  /** Over all six endpoints a user gets at most six window budgets; twelve requests in any window under a second. */
  lemma SystemWindowBound(arrivals: seq<Arrival>, user: UserId, from: Instant, length: int)
    requires OrderedAtEach(arrivals) && 0 <= length
    ensures UserTotal(arrivals, user, |arrivals|, from, length) <= 6 * (2 + 2 * WholeSeconds(length))
    ensures length < SECOND ==> UserTotal(arrivals, user, |arrivals|, from, length) <= 12
  {
    AllEndpointsListed();
    TotalIsSumOfEndpoints(ALL_ENDPOINTS, arrivals, user, |arrivals|, from, length);
    forall e: Endpoint
      ensures EndpointWindow(arrivals, user, e, |arrivals|, from, length) <= 2 + 2 * WholeSeconds(length)
    {
      EndpointWindowBound(arrivals, user, e, from, length);
    }
    SumOfWindowsBound(ALL_ENDPOINTS, arrivals, user, from, length, 2 + 2 * WholeSeconds(length));
  }
}
