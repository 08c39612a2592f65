/** The in-memory user store: users indexed twice, by login and by id. */
module UsersStorage {
  import opened Wrappers
  import opened KeyedSequences
  import Int64
  import opened Like
  import opened UserSearch

  /** The two maps are exactly the login index and the id index of the user list. */
  ghost predicate Indexed(byLogin: map<string, UserRecord>, byId: map<int, UserRecord>, users: seq<UserRecord>) {
    && NumberedBy(users, IdOf)
    && (forall id :: id in byId <==> 1 <= id <= |users|)
    && (forall id :: id in byId ==> byId[id] == users[id - 1])
    && (forall i :: 0 <= i < |users| ==> users[i].login in byLogin && byLogin[users[i].login] == users[i])
    && (forall login :: login in byLogin ==> byLogin[login] in users && byLogin[login].login == login)
  }

  lemma AppendKeepsIndexed(
    byLogin: map<string, UserRecord>, byId: map<int, UserRecord>, users: seq<UserRecord>, user: UserRecord)
    requires Indexed(byLogin, byId, users) && user.id == |users| + 1 && user.login !in byLogin
    ensures Indexed(byLogin[user.login := user], byId[user.id := user], users + [user])
  {
    var users', byLogin' := users + [user], byLogin[user.login := user];
    assert users'[|users|] == user;
    forall login | login in byLogin'
      ensures byLogin'[login] in users'
    {
      assert login != user.login ==> byLogin[login] in users;
    }
  }

  class UsersStorage {
    var nextId: int
    var usersByLogin: map<string, UserRecord>
    var usersById: map<int, UserRecord>

    /** The users ever created, in id order. */
    ghost var users: seq<UserRecord>

    ghost predicate Valid()
      reads this
    {
      nextId == |users| + 1 && Indexed(usersByLogin, usersById, users)
    }

    constructor ()
      ensures Valid() && users == []
    {
      nextId := 1;
      usersByLogin, usersById, users := map[], map[], [];
    }

    method CreateUser(login: string, password: string, firstName: string, lastName: string) returns (r: Option<int>)
      requires Valid() && nextId < Int64.MAX
      modifies this
      ensures Valid()
      ensures r.None? <==> exists i :: 0 <= i < |old(users)| && old(users)[i].login == login
      ensures r.None? ==>
                users == old(users) && nextId == old(nextId) &&
                usersByLogin == old(usersByLogin) && usersById == old(usersById)
      ensures r.Some? ==>
                r.value == old(nextId) &&
                users == old(users) + [UserRecord(r.value, login, password, firstName, lastName)]
    {
      if login in usersByLogin {
        assert usersByLogin[login] in users;
        return None;
      }
      var id := nextId;
      nextId := nextId + 1;
      var user := UserRecord(id, login, password, firstName, lastName);
      AppendKeepsIndexed(usersByLogin, usersById, users, user);
      if login !in usersByLogin {
        usersByLogin := usersByLogin[login := user];
      }
      if id !in usersById {
        usersById := usersById[id := user];
      }
      users := users + [user];
      return Some(id);
    }

    method GetByLogin(login: string) returns (r: Option<UserRecord>)
      requires Valid()
      ensures r.Some? ==> r.value in users && r.value.login == login
      ensures r.None? ==> forall i :: 0 <= i < |users| ==> users[i].login != login
    {
      if login !in usersByLogin {
        return None;
      }
      return Some(usersByLogin[login]);
    }

    method GetById(userId: int) returns (r: Option<UserRecord>)
      requires Valid()
      ensures r == if 1 <= userId <= |users| then Some(users[userId - 1]) else None
    {
      if userId !in usersById {
        return None;
      }
      return Some(usersById[userId]);
    }

    method UserExists(userId: int) returns (r: bool)
      requires Valid()
      ensures r <==> 1 <= userId < nextId
    {
      return userId in usersById;
    }

    /** The hash map is traversed in an arbitrary order: each step takes any login not yet seen. */
    method Search(
      login: Option<string>, firstMask: Option<string>, lastMask: Option<string>) returns (res: seq<UserRecord>)
      requires Valid()
      ensures NoDuplicates(res)
      ensures multiset(res) == multiset(Select(Memory, users, Filters(login, firstMask, lastMask)))
      ensures forall u :: u in res <==>
                u in users &&
                HasLogin(u, login) && OccursIn(firstMask, u.firstName) && OccursIn(lastMask, u.lastName)
    {
      ghost var f := Filters(login, firstMask, lastMask);
      res := [];
      var remaining := usersByLogin.Keys;
      while remaining != {}
        invariant remaining <= usersByLogin.Keys
        invariant NoDuplicates(res)
        invariant forall u :: u in res ==>
          u.login in usersByLogin && u.login !in remaining && usersByLogin[u.login] == u && Kept(Memory, u, f)
        invariant forall l :: l in usersByLogin && l !in remaining && Kept(Memory, usersByLogin[l], f) ==>
          usersByLogin[l] in res
        decreases remaining
      {
        var next :| next in remaining;
        remaining := remaining - {next};
        var user := usersByLogin[next];
        var ok := true;
        if login.Some? && user.login != login.value {
          ok := false;
        }
        if firstMask.Some? && !Contains(user.firstName, firstMask.value) {
          ok := false;
        }
        if lastMask.Some? && !Contains(user.lastName, lastMask.value) {
          ok := false;
        }
        if ok {
          res := res + [user];
        }
      }
      SelectMembers(Memory, users, f);
      SelectSorted(Memory, users, f);
      SameUsers(res, f);
      forall u
        ensures u in res <==>
                u in users &&
                HasLogin(u, login) && OccursIn(firstMask, u.firstName) && OccursIn(lastMask, u.lastName)
      {
        KeptIff(u, f);
      }
      SameMembersPermute(res, Select(Memory, users, f));
    }

    lemma SameUsers(res: seq<UserRecord>, f: Filters)
      requires Valid()
      requires forall u :: u in res ==> u.login in usersByLogin && usersByLogin[u.login] == u && Kept(Memory, u, f)
      requires forall l :: l in usersByLogin && Kept(Memory, usersByLogin[l], f) ==> usersByLogin[l] in res
      ensures forall u :: u in res <==> u in Select(Memory, users, f)
    {
      SelectMembers(Memory, users, f);
    }

    /** Logins are unique, and each index sends a user to the record the other index holds. */
    lemma IndexesAgree(login: string, id: int)
      requires Valid()
      ensures DistinctLogins(users)
      ensures login in usersByLogin ==>
                usersByLogin[login].id in usersById && usersById[usersByLogin[login].id] == usersByLogin[login]
      ensures id in usersById ==>
                usersById[id].login in usersByLogin && usersByLogin[usersById[id].login] == usersById[id] &&
                usersById[id].id == id
    {
    }

    /** Both indexes hold `nextId - 1` users. */
    lemma IndexesHaveOneSize()
      requires Valid()
      ensures |usersByLogin| == |usersById| == nextId - 1
    {
      LoginsCount(users);
      IdsAreAnInterval(usersById.Keys, |users|);
      LoginKeys(usersByLogin, usersById, users);
    }
  }

  /** The logins of a list of users. */
  ghost function LoginSet(users: seq<UserRecord>): set<string> {
    if users == [] then {} else LoginSet(users[..|users| - 1]) + {users[|users| - 1].login}
  }

  lemma {:induction false} LoginSetMembers(users: seq<UserRecord>)
    ensures forall i :: 0 <= i < |users| ==> users[i].login in LoginSet(users)
    ensures forall login :: login in LoginSet(users) ==> exists i :: 0 <= i < |users| && users[i].login == login
  {
    if users != [] {
      LoginSetMembers(users[..|users| - 1]);
    }
  }

  lemma {:induction false} LoginsCount(users: seq<UserRecord>)
    requires DistinctLogins(users)
    ensures |LoginSet(users)| == |users|
  {
    if users != [] {
      LoginsCount(users[..|users| - 1]);
      LoginSetMembers(users[..|users| - 1]);
    }
  }

  lemma LoginKeys(byLogin: map<string, UserRecord>, byId: map<int, UserRecord>, users: seq<UserRecord>)
    requires Indexed(byLogin, byId, users)
    ensures byLogin.Keys == LoginSet(users)
  {
    LoginSetMembers(users);
  }
}
