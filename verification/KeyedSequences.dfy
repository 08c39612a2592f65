/** Sequences of records grouped by an owner, sorted by a key, and counted. */
module KeyedSequences {

  /** The records of `s` owned by `k`, in order. */
  function Group<T>(s: seq<T>, owner: T -> int, k: int): (r: seq<T>)
    ensures |r| <= |s|
  {
    if s == [] then []
    else if owner(s[|s| - 1]) == k then Group(s[..|s| - 1], owner, k) + [s[|s| - 1]]
    else Group(s[..|s| - 1], owner, k)
  }

  lemma GroupSnoc<T>(s: seq<T>, x: T, owner: T -> int, k: int)
    ensures Group(s + [x], owner, k) == if owner(x) == k then Group(s, owner, k) + [x] else Group(s, owner, k)
  {
    assert (s + [x])[..|s|] == s;
  }

  /** A group holds exactly the records with its owner. */
  lemma {:induction false} GroupMembers<T>(s: seq<T>, owner: T -> int, k: int)
    ensures forall x :: x in Group(s, owner, k) ==> x in s && owner(x) == k
    ensures forall x :: x in s && owner(x) == k ==> x in Group(s, owner, k)
  {
    if s != [] {
      GroupMembers(s[..|s| - 1], owner, k);
      assert s == s[..|s| - 1] + [s[|s| - 1]];
    }
  }

  lemma {:induction false} GroupOfStranger<T>(s: seq<T>, owner: T -> int, k: int)
    requires forall x :: x in s ==> owner(x) != k
    ensures Group(s, owner, k) == []
  {
    if s != [] {
      GroupOfStranger(s[..|s| - 1], owner, k);
      assert s[|s| - 1] in s;
    }
  }

  /** Where record `i` of `s` sits in its own group. */
  function Rank<T>(s: seq<T>, owner: T -> int, i: nat): nat
    requires i < |s|
  {
    |Group(s[..i], owner, owner(s[i]))|
  }

  /** Grouping distributes over concatenation. */
  lemma {:induction false} GroupConcat<T>(a: seq<T>, b: seq<T>, owner: T -> int, k: int)
    ensures Group(a + b, owner, k) == Group(a, owner, k) + Group(b, owner, k)
  {
    if b == [] {
      assert a + b == a;
    } else {
      GroupConcat(a, b[..|b| - 1], owner, k);
      assert (a + b)[..|a + b| - 1] == a + b[..|b| - 1];
    }
  }

  lemma GroupAround<T>(before: seq<T>, x: T, after: seq<T>, owner: T -> int, k: int)
    ensures Group(before + [x] + after, owner, k)
         == Group(before, owner, k) + (if owner(x) == k then [x] else []) + Group(after, owner, k)
  {
    GroupConcat(before + [x], after, owner, k);
    GroupSnoc(before, x, owner, k);
  }

  lemma GroupAtRank<T>(s: seq<T>, owner: T -> int, i: nat)
    requires i < |s|
    ensures Rank(s, owner, i) < |Group(s, owner, owner(s[i]))|
    ensures Group(s, owner, owner(s[i]))[Rank(s, owner, i)] == s[i]
  {
    assert s == s[..i] + [s[i]] + s[i + 1..];
    GroupAround(s[..i], s[i], s[i + 1..], owner, owner(s[i]));
  }

  /** Replacing a record by one with the same owner replaces it in place in its group and nowhere else. */
  lemma GroupUpdate<T>(s: seq<T>, owner: T -> int, i: nat, x: T, k: int)
    requires i < |s| && owner(x) == owner(s[i])
    ensures owner(x) == k ==>
              Rank(s, owner, i) < |Group(s, owner, k)| &&
              Group(s[i := x], owner, k) == Group(s, owner, k)[Rank(s, owner, i) := x]
    ensures owner(x) != k ==> Group(s[i := x], owner, k) == Group(s, owner, k)
  {
    var before, after := s[..i], s[i + 1..];
    assert s == before + [s[i]] + after && s[i := x] == before + [x] + after;
    GroupAround(before, s[i], after, owner, k);
    GroupAround(before, x, after, owner, k);
  }

  /** Ids are handed out 1, 2, 3, ... in creation order. */
  ghost predicate NumberedBy<T>(s: seq<T>, id: T -> int) {
    forall i :: 0 <= i < |s| ==> id(s[i]) == i + 1
  }

  ghost predicate StrictlySorted<T>(s: seq<T>, key: T -> int) {
    forall i, j :: 0 <= i < j < |s| ==> key(s[i]) < key(s[j])
  }

  /** Grouping a sorted sequence gives sorted groups. */
  lemma {:induction false} GroupSorted<T>(s: seq<T>, owner: T -> int, key: T -> int, k: int)
    requires StrictlySorted(s, key)
    ensures StrictlySorted(Group(s, owner, k), key)
  {
    if s != [] {
      var init := s[..|s| - 1];
      GroupSorted(init, owner, key, k);
      GroupMembers(init, owner, k);
      forall j | 0 <= j < |Group(init, owner, k)|
        ensures key(Group(init, owner, k)[j]) < key(s[|s| - 1])
      {
        var x := Group(init, owner, k)[j];
        assert x in Group(init, owner, k);
        assert x in init;
      }
    }
  }

  ghost predicate NoDuplicates<T>(s: seq<T>) {
    forall i, j :: 0 <= i < j < |s| ==> s[i] != s[j]
  }

  lemma {:induction false} NoDuplicatesCount<T>(s: seq<T>, x: T)
    requires NoDuplicates(s)
    ensures multiset(s)[x] == if x in s then 1 else 0
  {
    if s != [] {
      var init := s[..|s| - 1];
      NoDuplicatesCount(init, x);
      assert s == init + [s[|s| - 1]];
    }
  }

  /** Two duplicate-free listings of the same records are permutations of each other. */
  lemma SameMembersPermute<T>(a: seq<T>, b: seq<T>)
    requires NoDuplicates(a) && NoDuplicates(b)
    requires forall x :: x in a <==> x in b
    ensures multiset(a) == multiset(b)
  {
    forall x
      ensures multiset(a)[x] == multiset(b)[x]
    {
      NoDuplicatesCount(a, x);
      NoDuplicatesCount(b, x);
    }
  }

  /** A sorted sequence is determined by its members. */
  lemma {:induction false} SortedUnique<T>(a: seq<T>, b: seq<T>, key: T -> int)
    requires StrictlySorted(a, key) && StrictlySorted(b, key)
    requires forall x :: x in a <==> x in b
    ensures a == b
  {
    SameMembersPermute(a, b);
    assert |a| == |multiset(a)| == |multiset(b)| == |b|;
    if a != [] {
      var x := a[|a| - 1];
      assert x in b;
      assert b[|b| - 1] in a;
      assert b[|b| - 1] == x;
      var a', b' := a[..|a| - 1], b[..|b| - 1];
      forall z
        ensures z in a' <==> z in b'
      {
        assert z in a' <==> z in a && key(z) < key(x);
        assert z in b' <==> z in b && key(z) < key(x);
      }
      SortedUnique(a', b', key);
    }
  }

  // ---- Sizes -----------------------------------------------------------------------------------

  /** The total length of the sequences in a map. */
  ghost function TotalSize<T>(m: map<int, seq<T>>): nat {
    if exists k :: k in m then
      var k :| k in m;
      |m[k]| + TotalSize(m - {k})
    else 0
  }

  /** The total does not depend on the order the keys are taken in. */
  lemma {:induction false} TotalSizeTake<T>(m: map<int, seq<T>>, k: int)
    requires k in m
    ensures TotalSize(m) == |m[k]| + TotalSize(m - {k})
    decreases |m|
  {
    var j :| j in m && TotalSize(m) == |m[j]| + TotalSize(m - {j});
    if j != k {
      TotalSizeTake(m - {j}, k);
      TotalSizeTake(m - {k}, j);
      assert m - {j} - {k} == m - {k} - {j};
    }
  }

  lemma TotalSizeUpdate<T>(m: map<int, seq<T>>, k: int, v: seq<T>)
    requires k in m
    ensures TotalSize(m[k := v]) == TotalSize(m) - |m[k]| + |v|
  {
    TotalSizeTake(m, k);
    TotalSizeTake(m[k := v], k);
    assert m[k := v] - {k} == m - {k};
  }

  lemma {:induction false} TotalSizeEmpty<T>(m: map<int, seq<T>>)
    requires forall k :: k in m ==> m[k] == []
    ensures TotalSize(m) == 0
    decreases |m|
  {
    if k :| k in m {
      TotalSizeTake(m, k);
      TotalSizeEmpty(m - {k});
    }
  }

  lemma {:induction false} TotalSizeOfLengths<T>(a: map<int, seq<T>>, b: map<int, seq<T>>)
    requires a.Keys == b.Keys && forall k :: k in a ==> |a[k]| == |b[k]|
    ensures TotalSize(a) == TotalSize(b)
    decreases |a|
  {
    if k :| k in a {
      TotalSizeTake(a, k);
      TotalSizeTake(b, k);
      TotalSizeOfLengths(a - {k}, b - {k});
    } else {
      TotalSizeEmpty(a);
      TotalSizeEmpty(b);
    }
  }

  /** One more record lengthens its owner's group and no other. */
  lemma {:induction false} GroupsGrow<T>(
    init: seq<T>, x: T, owner: T -> int, before: map<int, seq<T>>, after: map<int, seq<T>>)
    requires before.Keys == after.Keys && owner(x) in before
    requires forall k :: k in before ==> before[k] == Group(init, owner, k)
    requires forall k :: k in after ==> after[k] == Group(init + [x], owner, k)
    ensures after == before[owner(x) := before[owner(x)] + [x]]
  {
    forall k | k in after
      ensures after[k] == if k == owner(x) then before[k] + [x] else before[k]
    {
      GroupSnoc(init, x, owner, k);
    }
  }

  lemma {:induction false} OneMoreSize<T>(
    init: seq<T>, x: T, owner: T -> int, before: map<int, seq<T>>, after: map<int, seq<T>>)
    requires before.Keys == after.Keys && owner(x) in before
    requires forall k :: k in before ==> before[k] == Group(init, owner, k)
    requires forall k :: k in after ==> after[k] == Group(init + [x], owner, k)
    ensures TotalSize(after) == TotalSize(before) + 1
  {
    hide *;
    GroupsGrow(init, x, owner, before, after);
    TotalSizeUpdate(before, owner(x), before[owner(x)] + [x]);
  }

  /** The groups of a sequence partition it: their sizes add up to its length. */
  lemma {:induction false} GroupsPartition<T>(s: seq<T>, owner: T -> int, m: map<int, seq<T>>)
    requires forall x :: x in s ==> owner(x) in m
    requires forall k :: k in m ==> m[k] == Group(s, owner, k)
    ensures TotalSize(m) == |s|
  {
    if s == [] {
      TotalSizeEmpty(m);
    } else {
      var init, x := s[..|s| - 1], s[|s| - 1];
      var before := map k | k in m :: Group(init, owner, k);
      hide *;
      GroupsPartition(init, owner, before);
      assert s == init + [x] && x in s;
      OneMoreSize(init, x, owner, before, m);
    }
  }

  /** There are `n` ids from 1 to `n`. */
  lemma {:induction false} IdsAreAnInterval(ids: set<int>, n: nat)
    requires forall id :: id in ids <==> 1 <= id <= n
    ensures |ids| == n
  {
    if n > 0 {
      IdsAreAnInterval(ids - {n}, n - 1);
    } else {
      assert forall id :: id !in ids;
      assert ids == {};
    }
  }
}
