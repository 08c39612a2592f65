/** The user-search handler: identify, limit, normalise the arguments, query. */
module SearchUsers {
  import opened Wrappers
  import opened Clock
  import opened RateLimiter
  import opened KeyedSequences
  import opened Like
  import opened UserSearch
  import opened LimitedHandlers

  datatype Request = Request(
    user: Option<UserId>, login: string, firstMask: string, lastMask: string, now: Instant, created: Instant)

  /** A search result as sent to the client: everything but the password. */
  datatype UserDto = UserDto(id: int, login: string, firstName: string, lastName: string)

  datatype Response =
    | Unauthorized
    | TooManyRequests(limit: int, remaining: int, reset: int)
    | FilterRequired
    | Results(users: seq<UserDto>)

  /** What a client sees of a user, field by field. */
  predicate Shows(dto: UserDto, user: UserRecord) {
    && dto.id == user.id && dto.login == user.login
    && dto.firstName == user.firstName && dto.lastName == user.lastName
  }

  function ToDto(user: UserRecord): UserDto {
    UserDto(user.id, user.login, user.firstName, user.lastName)
  }

  function ToDtos(users: seq<UserRecord>): seq<UserDto> {
    seq(|users|, i requires 0 <= i < |users| => ToDto(users[i]))
  }

  function FiltersOf(request: Request): Filters {
    Filters(Present(request.login), Present(request.firstMask), Present(request.lastMask))
  }

  predicate HasFilter(request: Request) {
    request.login != "" || request.firstMask != "" || request.lastMask != ""
  }

  function Handle(buckets: Buckets, users: seq<UserRecord>, request: Request): (Buckets, Response) {
    if request.user.None? then (buckets, Unauthorized)
    else
      var (buckets', decision) := CheckMap(buckets, Call(request.user.value, request.now, request.created));
      (buckets',
       if !decision.admitted then TooManyRequests(2, decision.remaining, 1)
       else if !HasFilter(request) then FilterRequired
       else Results(ToDtos(Select(Sql, users, FiltersOf(request)))))
  }

  class SearchHandler {
    const limiter: RateLimiter

    constructor (limiter: RateLimiter)
      ensures this.limiter == limiter
    {
      this.limiter := limiter;
    }

    /** `rows` is what the query returned for `users` and the normalised filters. */
    method HandleRequest(request: Request, users: seq<UserRecord>, rows: seq<UserRecord>) returns (response: Response)
      requires NumberedBy(users, IdOf) && SearchAnswer(users, FiltersOf(request), rows)
      modifies limiter
      ensures (limiter.rateLimits, response) == Handle(old(limiter.rateLimits), users, request)
      ensures response.Results? ==>
                |response.users| == |rows| &&
                forall k :: 0 <= k < |rows| ==> Shows(response.users[k], rows[k])
    {
      if request.user.None? {
        return Unauthorized;
      }
      var admitted, remaining := limiter.CheckRateLimit(request.user.value, request.now, request.created);
      if !admitted {
        return TooManyRequests(2, remaining, 1);
      }
      if request.login == "" && request.firstMask == "" && request.lastMask == "" {
        return FilterRequired;
      }
      SearchAnswerIsSelect(users, FiltersOf(request), rows);
      var resp := [];
      for i := 0 to |rows|
        invariant resp == ToDtos(rows)[..i]
      {
        resp := resp + [UserDto(rows[i].id, rows[i].login, rows[i].firstName, rows[i].lastName)];
      }
      assert resp == ToDtos(rows);
      return Results(resp);
    }
  }

  // ---- Which answer, and what it shows ---------------------------------------------------------

  /**
    Identification comes first and the limiter second: whatever the filters, an identified request makes one
    limiter call, and is answered 429 exactly when that call is denied.
   */
  lemma {:induction false} LimiterComesFirst(buckets: Buckets, users: seq<UserRecord>, request: Request)
    ensures var (buckets', response) := Handle(buckets, users, request);
            && (request.user.None? ==> buckets' == buckets && response == Unauthorized)
            && (request.user.Some? ==>
                  var (after, decision) := CheckMap(buckets, Call(request.user.value, request.now, request.created));
                  && buckets' == after && response != Unauthorized
                  && (response.TooManyRequests? <==> !decision.admitted)
                  && (!decision.admitted ==> response == TooManyRequests(2, decision.remaining, 1)))
  {
    hide CheckMap;
  }

  function CallOf(visit: (Request, seq<UserRecord>)): Option<Call> {
    var request := visit.0;
    if request.user.None? then None else Some(Call(request.user.value, request.now, request.created))
  }

  /** The handler as its limiter sees it. */
  function Observed(buckets: Buckets, nothing: (), visit: (Request, seq<UserRecord>)): (Buckets, (), Verdict) {
    var (buckets', response) := Handle(buckets, visit.1, visit.0);
    (buckets', nothing,
     match response
     case TooManyRequests(limit, remaining, reset) => Limited(limit, remaining, reset)
     case _ => NotLimited)
  }

  lemma {:induction false} IsLimited()
    ensures Limits(Observed, CallOf)
  {
    hide CheckMap, Select;
    forall buckets, nothing, visit
      ensures ObeysLimiter(buckets, CallOf(visit), Observed(buckets, nothing, visit).0,
                           Observed(buckets, nothing, visit).2)
    {
      LimiterComesFirst(buckets, visit.1, visit.0);
    }
  }

  /**
    Over any run, users coming and going, the limiter's map is that of the identified requests, those without
    filters included, and of each user at most the window budget gets past it.
   */
  lemma {:induction false} RunsAreLimited(
    visits: seq<(Request, seq<UserRecord>)>, user: UserId, from: Instant, length: int)
    ensures var calls := CallsOf(CallOf, visits, |visits|);
            && RunAt(Observed, (), visits, |visits|).0 == MapAt(calls, |calls|)
            && (0 <= length && Ordered(calls) ==>
                  Passed(Observed, CallOf, (), visits, user, |visits|, from, length) <= 2 + 2 * WholeSeconds(length))
  {
    IsLimited();
    DrivesLimiter(Observed, CallOf, (), visits, |visits|);
    if 0 <= length && Ordered(CallsOf(CallOf, visits, |visits|)) {
      PassedBound(Observed, CallOf, (), visits, user, from, length);
    }
  }

  /** The request names the user and gets past the limiter. */
  predicate Passes(buckets: Buckets, request: Request) {
    request.user.Some? && CheckMap(buckets, Call(request.user.value, request.now, request.created)).1.admitted
  }

  /** Past the limiter a search is refused exactly when all three arguments are empty. */
  lemma {:induction false} FilterRequiredIff(buckets: Buckets, users: seq<UserRecord>, request: Request)
    requires Passes(buckets, request)
    ensures var response := Handle(buckets, users, request).1;
            && (response == FilterRequired <==>
                  request.login == "" && request.firstMask == "" && request.lastMask == "")
            && (response.Results? <==> request.login != "" || request.firstMask != "" || request.lastMask != "")
  {
    hide CheckMap;
  }

  /** The user passes the arguments as sent, where an empty one asks for nothing. */
  predicate Asked(user: UserRecord, request: Request) {
    && (request.login == "" || user.login == request.login)
    && (request.firstMask == "" || LikeMask(user.firstName, request.firstMask))
    && (request.lastMask == "" || LikeMask(user.lastName, request.lastMask))
  }

  /** A search shows exactly the users asked for, in id order: yields where each shown user stands in the table. */
  lemma {:induction false} ResultsAreAskedUsers(
    buckets: Buckets, users: seq<UserRecord>, request: Request) returns (positions: seq<nat>)
    requires Handle(buckets, users, request).1.Results?
    ensures var shown := Handle(buckets, users, request).1.users;
            && |shown| == |positions|
            && (forall k :: 0 <= k < |shown| ==> positions[k] < |users| && Shows(shown[k], users[positions[k]]))
    ensures forall j, k :: 0 <= j < k < |positions| ==> positions[j] < positions[k]
    ensures forall i :: 0 <= i < |users| ==> (i in positions <==> Asked(users[i], request))
  {
    var f := FiltersOf(request);
    positions := SelectPositions(Sql, users, f);
    forall i | 0 <= i < |users|
      ensures Kept(Sql, users[i], f) <==> Asked(users[i], request)
    {
      KeptIff(users[i], f);
    }
    hide CheckMap, Asked;
    var found := Select(Sql, users, f);
    assert forall k :: 0 <= k < |found| ==> ToDtos(found)[k] == ToDto(found[k]);
  }

  /**
    A user in the table is shown iff the login is the one asked for, if any, and both masks as sent are LIKE the
    names they are meant for; an empty mask is LIKE every name.
   */
  lemma {:induction false} ResultsArePassingUsers(
    buckets: Buckets, users: seq<UserRecord>, request: Request, user: UserRecord)
    requires NumberedBy(users, IdOf) && Handle(buckets, users, request).1.Results? && user in users
    ensures (exists dto :: dto in Handle(buckets, users, request).1.users && Shows(dto, user)) <==>
            (request.login == "" || user.login == request.login) &&
            LikeMask(user.firstName, request.firstMask) && LikeMask(user.lastName, request.lastMask)
  {
    var positions := ResultsAreAskedUsers(buckets, users, request);
    var i :| 0 <= i < |users| && users[i] == user;
    EmptyMaskKeepsAll(Sql, user.firstName, request.firstMask);
    EmptyMaskKeepsAll(Sql, user.lastName, request.lastMask);
    hide Handle, LikeMask;
    if i in positions {
      var k :| 0 <= k < |positions| && positions[k] == i;
      assert Shows(Handle(buckets, users, request).1.users[k], user);
    }
    if dto :| dto in Handle(buckets, users, request).1.users && Shows(dto, user) {
      var k :| 0 <= k < |positions| && Handle(buckets, users, request).1.users[k] == dto;
      assert IdOf(users[positions[k]]) == IdOf(users[i]);
    }
  }

  /** Passwords have no part in an answer: two tables that differ in nothing else are searched alike. */
  lemma {:induction false} PasswordsDoNotShow(
    buckets: Buckets, users: seq<UserRecord>, users': seq<UserRecord>, request: Request)
    requires |users| == |users'|
    requires forall i :: 0 <= i < |users| ==> users'[i] == users[i].(password := users'[i].password)
    ensures Handle(buckets, users, request) == Handle(buckets, users', request)
  {
    SelectionsLookAlike(users, users', FiltersOf(request));
    hide CheckMap, Select;
  }

  lemma {:induction false} SelectionsLookAlike(users: seq<UserRecord>, users': seq<UserRecord>, f: Filters)
    requires |users| == |users'|
    requires forall i :: 0 <= i < |users| ==> users'[i] == users[i].(password := users'[i].password)
    ensures ToDtos(Select(Sql, users, f)) == ToDtos(Select(Sql, users', f))
  {
    if users != [] {
      var last := |users| - 1;
      SelectionsLookAlike(users[..last], users'[..last], f);
      assert users'[last] == users[last].(password := users'[last].password);
      DtosSnoc(Select(Sql, users[..last], f), users[last]);
      DtosSnoc(Select(Sql, users'[..last], f), users'[last]);
    }
  }

  lemma DtosSnoc(users: seq<UserRecord>, user: UserRecord)
    ensures ToDtos(users + [user]) == ToDtos(users) + [ToDto(user)]
  {
  }

  /** With masks free of `%`, `_` and backslash the handler answers as the in-memory store would, in id order. */
  lemma PlainSearchMatchesStore(buckets: Buckets, users: seq<UserRecord>, request: Request)
    requires Handle(buckets, users, request).1.Results?
    requires PlainMask(Present(request.firstMask)) && PlainMask(Present(request.lastMask))
    ensures Handle(buckets, users, request).1.users == ToDtos(Select(Memory, users, FiltersOf(request)))
  {
    PlainMasksAgree(users, FiltersOf(request));
  }
}
