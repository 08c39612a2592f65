/** User search twice over: the in-memory filter and the SQL query, on the same list of users. */
module UserSearch {
  import opened Wrappers
  import opened KeyedSequences
  import opened Like

  datatype UserRecord = UserRecord(id: int, login: string, password: string, firstName: string, lastName: string)

  datatype Filters = Filters(login: Option<string>, firstMask: Option<string>, lastMask: Option<string>)

  /** Who evaluates the masks: `std::string::find`, or `LIKE '%' || mask || '%'`. */
  datatype Engine = Memory | Sql

  predicate NameKept(engine: Engine, name: string, mask: Option<string>) {
    mask.None? || match engine case Memory => Contains(name, mask.value) case Sql => LikeMask(name, mask.value)
  }

  predicate Kept(engine: Engine, user: UserRecord, f: Filters) {
    && (f.login.None? || user.login == f.login.value)
    && NameKept(engine, user.firstName, f.firstMask)
    && NameKept(engine, user.lastName, f.lastMask)
  }

  /** The users that pass every present filter, in the order of the list. */
  function Select(engine: Engine, users: seq<UserRecord>, f: Filters): seq<UserRecord> {
    if users == [] then []
    else if Kept(engine, users[|users| - 1], f) then Select(engine, users[..|users| - 1], f) + [users[|users| - 1]]
    else Select(engine, users[..|users| - 1], f)
  }

  function IdOf(user: UserRecord): int { user.id }

  ghost predicate DistinctLogins(users: seq<UserRecord>) {
    forall i, j :: 0 <= i < j < |users| ==> users[i].login != users[j].login
  }

  lemma {:induction false} SelectMembers(engine: Engine, users: seq<UserRecord>, f: Filters)
    ensures forall u :: u in Select(engine, users, f) ==> u in users && Kept(engine, u, f)
    ensures forall u :: u in users && Kept(engine, u, f) ==> u in Select(engine, users, f)
  {
    if users != [] {
      SelectMembers(engine, users[..|users| - 1], f);
      assert users == users[..|users| - 1] + [users[|users| - 1]];
    }
  }

  /** The login is the one asked for, when one is. */
  predicate HasLogin(user: UserRecord, login: Option<string>) {
    login.Some? ==> user.login == login.value
  }

  /** The mask, when there is one, starts at some position of the name. */
  ghost predicate OccursIn(mask: Option<string>, name: string) {
    mask.Some? ==> exists i :: 0 <= i <= |name| && mask.value <= name[i..]
  }

  /** The mask, when there is one, wrapped in wildcards is LIKE the name. */
  predicate LikeIn(mask: Option<string>, name: string) {
    mask.Some? ==> LikeMask(name, mask.value)
  }

  /** Whom each engine keeps: the login decides, and each mask is held against the name it is meant for. */
  lemma {:induction false} KeptIff(user: UserRecord, f: Filters)
    ensures Kept(Memory, user, f) <==>
            HasLogin(user, f.login) && OccursIn(f.firstMask, user.firstName) && OccursIn(f.lastMask, user.lastName)
    ensures Kept(Sql, user, f) <==>
            HasLogin(user, f.login) && LikeIn(f.firstMask, user.firstName) && LikeIn(f.lastMask, user.lastName)
  {
    if f.firstMask.Some? {
      ContainsIff(user.firstName, f.firstMask.value);
    }
    if f.lastMask.Some? {
      ContainsIff(user.lastName, f.lastMask.value);
    }
  }

  /** Which positions of `users` are selected, in order. */
  lemma {:induction false} SelectPositions(
    engine: Engine, users: seq<UserRecord>, f: Filters) returns (positions: seq<nat>)
    ensures |positions| == |Select(engine, users, f)|
    ensures forall k :: 0 <= k < |positions| ==>
              positions[k] < |users| && users[positions[k]] == Select(engine, users, f)[k]
    ensures forall j, k :: 0 <= j < k < |positions| ==> positions[j] < positions[k]
    ensures forall i :: 0 <= i < |users| ==> (i in positions <==> Kept(engine, users[i], f))
  {
    if users == [] {
      positions := [];
    } else {
      var last := |users| - 1;
      positions := SelectPositions(engine, users[..last], f);
      assert forall k :: 0 <= k < |positions| ==> positions[k] < last;
      assert last !in positions;
      if Kept(engine, users[last], f) {
        positions := positions + [last];
      }
    }
  }

  lemma {:induction false} SelectSorted(engine: Engine, users: seq<UserRecord>, f: Filters)
    requires StrictlySorted(users, IdOf)
    ensures StrictlySorted(Select(engine, users, f), IdOf)
  {
    if users != [] {
      var init := users[..|users| - 1];
      SelectSorted(engine, init, f);
      SelectMembers(engine, init, f);
      forall j | 0 <= j < |Select(engine, init, f)|
        ensures Select(engine, init, f)[j].id < users[|users| - 1].id
      {
        var u := Select(engine, init, f)[j];
        assert u in Select(engine, init, f);
        assert u in init;
      }
    }
  }

  /** What SELECT ... WHERE ... ORDER BY id may return from a table holding `users`. */
  ghost predicate SearchAnswer(users: seq<UserRecord>, f: Filters, out: seq<UserRecord>) {
    && StrictlySorted(out, IdOf)
    && forall u :: u in out <==> u in users && Kept(Sql, u, f)
  }

  /**
    The query has exactly one answer: in id order, the users with the login asked for whose first name is LIKE the
    first mask and whose last name is LIKE the last.
   */
  lemma SearchAnswerIsSelect(users: seq<UserRecord>, f: Filters, out: seq<UserRecord>)
    requires NumberedBy(users, IdOf)
    ensures SearchAnswer(users, f, out) <==> out == Select(Sql, users, f)
    ensures SearchAnswer(users, f, out) <==>
            && (forall j, k :: 0 <= j < k < |out| ==> out[j].id < out[k].id)
            && (forall u :: u in out <==>
                  u in users &&
                  HasLogin(u, f.login) && LikeIn(f.firstMask, u.firstName) && LikeIn(f.lastMask, u.lastName))
  {
    forall u
      ensures Kept(Sql, u, f) <==>
              HasLogin(u, f.login) && LikeIn(f.firstMask, u.firstName) && LikeIn(f.lastMask, u.lastName)
    {
      KeptIff(u, f);
    }
    hide Kept, HasLogin, LikeIn;
    SelectSorted(Sql, users, f);
    SelectMembers(Sql, users, f);
    if SearchAnswer(users, f, out) {
      SortedUnique(out, Select(Sql, users, f), IdOf);
    }
  }

  // ---- When the two engines agree --------------------------------------------------------------

  ghost predicate PlainMask(mask: Option<string>) {
    mask.None? || Plain(mask.value)
  }

  predicate NoBackslash(mask: Option<string>) {
    mask.None? || '\\' !in mask.value
  }

  lemma PlainNameAgrees(name: string, mask: Option<string>)
    requires PlainMask(mask)
    ensures NameKept(Memory, name, mask) <==> NameKept(Sql, name, mask)
  {
    if mask.Some? {
      PlainMaskIsSubstring(name, mask.value);
    }
  }

  lemma {:induction false} PlainMasksAgree(users: seq<UserRecord>, f: Filters)
    requires PlainMask(f.firstMask) && PlainMask(f.lastMask)
    ensures Select(Memory, users, f) == Select(Sql, users, f)
  {
    if users != [] {
      PlainMasksAgree(users[..|users| - 1], f);
      PlainNameAgrees(users[|users| - 1].firstName, f.firstMask);
      PlainNameAgrees(users[|users| - 1].lastName, f.lastMask);
    }
  }

  /** A name the query keeps, and the in-memory search drops unless the mask is plain. */
  lemma TellTaleName(mask: Option<string>) returns (name: string)
    ensures NameKept(Sql, name, mask)
    ensures NameKept(Memory, name, mask) ==> PlainMask(mask)
  {
    name := "";
    if mask.Some? {
      name := SampleName(mask.value);
      SampleNameTells(mask.value);
    }
  }

  lemma SoleUserTells(user: UserRecord, f: Filters)
    requires Kept(Sql, user, f) && !Kept(Memory, user, f)
    ensures Select(Memory, [user], f) != Select(Sql, [user], f)
  {
    SelectMembers(Memory, [user], f);
    SelectMembers(Sql, [user], f);
    assert user in [user];
    assert user in Select(Sql, [user], f) && user !in Select(Memory, [user], f);
  }

  /**
    Store and query give the same answer on every list of users exactly when neither mask holds `%`, `_` or
    backslash.
   */
  lemma EnginesAgreeIff(f: Filters)
    ensures (forall users :: Select(Memory, users, f) == Select(Sql, users, f))
       <==> (PlainMask(f.firstMask) && PlainMask(f.lastMask))
  {
    if PlainMask(f.firstMask) && PlainMask(f.lastMask) {
      forall users
        ensures Select(Memory, users, f) == Select(Sql, users, f)
      {
        PlainMasksAgree(users, f);
      }
    } else {
      var first := TellTaleName(f.firstMask);
      var last := TellTaleName(f.lastMask);
      var user := UserRecord(1, if f.login.Some? then f.login.value else "", "", first, last);
      var users := [user];
      SoleUserTells(user, f);
      assert Select(Memory, users, f) != Select(Sql, users, f);
    }
  }

  /** Every name the in-memory search keeps for the mask, the query keeps too. */
  predicate SafeMask(mask: Option<string>) {
    mask.None? || SelfMatching(mask.value)
  }

  lemma {:induction false} SafeMaskKeeps(name: string, mask: Option<string>)
    requires SafeMask(mask) && NameKept(Memory, name, mask)
    ensures NameKept(Sql, name, mask)
  {
    if mask.Some? {
      SubstringImpliesLikeIff(mask.value);
    }
  }

  /** A name the in-memory search keeps, and the query drops if the mask is unsafe. */
  lemma {:induction false} LosableName(mask: Option<string>) returns (name: string)
    ensures NameKept(Memory, name, mask)
    ensures NameKept(Sql, name, mask) ==> SafeMask(mask)
  {
    name := "";
    if mask.Some? {
      SubstringImpliesLikeIff(mask.value);
      ContainsIff(mask.value, mask.value);
      assert mask.value[0..] == mask.value;
      name := mask.value;
      if !SelfMatching(mask.value) {
        name :| Contains(name, mask.value) && !LikeMask(name, mask.value);
      }
    }
  }

  /**
    The query returns everyone the store returns, on every list of users, exactly when both masks match their
    own text.
   */
  lemma {:induction false} QueryFindsAllOfStoreIff(f: Filters)
    ensures (forall users, user :: user in Select(Memory, users, f) ==> user in Select(Sql, users, f)) <==>
            SafeMask(f.firstMask) && SafeMask(f.lastMask)
  {
    if SafeMask(f.firstMask) && SafeMask(f.lastMask) {
      forall users, user | user in Select(Memory, users, f)
        ensures user in Select(Sql, users, f)
      {
        SelectMembers(Memory, users, f);
        SelectMembers(Sql, users, f);
        SafeMaskKeeps(user.firstName, f.firstMask);
        SafeMaskKeeps(user.lastName, f.lastMask);
      }
    } else {
      var first := LosableName(f.firstMask);
      var last := LosableName(f.lastMask);
      var user := UserRecord(1, if f.login.Some? then f.login.value else "", "", first, last);
      var users := [user];
      SelectMembers(Memory, users, f);
      SelectMembers(Sql, users, f);
      assert user in users;
      assert user in Select(Memory, users, f) && user !in Select(Sql, users, f);
    }
  }

  /** In particular masks without backslashes lose nobody. */
  lemma {:induction false} QueryFindsAllOfStore(users: seq<UserRecord>, f: Filters, user: UserRecord)
    requires NoBackslash(f.firstMask) && NoBackslash(f.lastMask)
    requires user in Select(Memory, users, f)
    ensures user in Select(Sql, users, f)
  {
    if f.firstMask.Some? {
      NoBackslashIsSelfMatching(f.firstMask.value);
    }
    if f.lastMask.Some? {
      NoBackslashIsSelfMatching(f.lastMask.value);
    }
    QueryFindsAllOfStoreIff(f);
  }

  // ---- The request's arguments -----------------------------------------------------------------

  function Present(argument: string): Option<string> {
    if argument == "" then None else Some(argument)
  }

  lemma EmptyMaskKeepsAll(engine: Engine, name: string, argument: string)
    ensures NameKept(engine, name, Present(argument)) <==> NameKept(engine, name, Some(argument))
  {
    PlainMaskIsSubstring(name, "");
  }

  /** Treating an empty mask argument as no filter changes no answer of either engine. */
  lemma {:induction false} EmptyMasksMayBeDropped(
    engine: Engine, users: seq<UserRecord>, login: Option<string>, first: string, last: string)
    ensures Select(engine, users, Filters(login, Present(first), Present(last)))
         == Select(engine, users, Filters(login, Some(first), Some(last)))
  {
    if users != [] {
      EmptyMasksMayBeDropped(engine, users[..|users| - 1], login, first, last);
      EmptyMaskKeepsAll(engine, users[|users| - 1].firstName, first);
      EmptyMaskKeepsAll(engine, users[|users| - 1].lastName, last);
    }
  }

  /** A login filter alone selects the user with that login, if there is one, and nobody else. */
  lemma {:induction false} LoginSelectsOne(engine: Engine, users: seq<UserRecord>, login: string)
    requires DistinctLogins(users)
    ensures var found := Select(engine, users, Filters(Some(login), None, None));
            (forall i :: 0 <= i < |users| && users[i].login == login ==> found == [users[i]]) &&
            ((forall i :: 0 <= i < |users| ==> users[i].login != login) ==> found == [])
  {
    if users != [] {
      LoginSelectsOne(engine, users[..|users| - 1], login);
    }
  }
}
