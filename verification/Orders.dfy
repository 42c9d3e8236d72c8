/** Iteration orders over a Go map, whose choice the language leaves open, and permutations. */
module Orders {

  ghost predicate NoDuplicates<T>(order: seq<T>) {
    forall i, j :: 0 <= i < j < |order| ==> order[i] != order[j]
  }

  /** One of the orders in which `range` may visit a map with these keys. */
  ghost predicate IsOrder<T(!new)>(order: seq<T>, keys: set<T>) {
    NoDuplicates(order) && forall k :: k in order <==> k in keys
  }

  /** One step of the iteration. */
  lemma VisitNext<T(!new)>(order: seq<T>, visited: set<T>, k: T)
    requires IsOrder(order, visited) && k !in visited
    ensures IsOrder(order + [k], visited + {k})
  {
  }

  /** The iteration before its last step. */
  lemma VisitLast<T(!new)>(order: seq<T>, keys: set<T>)
    requires IsOrder(order, keys) && order != []
    ensures order[|order| - 1] in keys
    ensures IsOrder(order[..|order| - 1], keys - {order[|order| - 1]})
  {
    assert order == order[..|order| - 1] + [order[|order| - 1]];
  }

  /** Every finite map can be visited in some order. */
  lemma {:induction false} SomeOrder<T(!new)>(keys: set<T>) returns (order: seq<T>)
    ensures IsOrder(order, keys)
  {
    if keys == {} {
      order := [];
    } else {
      var k :| k in keys;
      order := OrderEndingWith(keys, k);
    }
  }

  /** The iteration may leave any key of the map for the end. */
  lemma {:induction false} OrderEndingWith<T(!new)>(keys: set<T>, k: T) returns (order: seq<T>)
    requires k in keys
    ensures IsOrder(order, keys) && order[|order| - 1] == k
    decreases keys
  {
    var rest := keys - {k};
    if rest == {} {
      order := [k];
    } else {
      var k' :| k' in rest;
      var front := OrderEndingWith(rest, k');
      order := front + [k];
    }
  }

  /** Two orders of one map are permutations of each other. */
  lemma {:induction false} OrdersPermute<T(!new)>(o: seq<T>, o': seq<T>, keys: set<T>)
    requires IsOrder(o, keys) && IsOrder(o', keys)
    ensures multiset(o) == multiset(o')
  {
    OnceEach(o, keys);
    OnceEach(o', keys);
  }

  lemma {:induction false} OnceEach<T(!new)>(o: seq<T>, keys: set<T>)
    requires IsOrder(o, keys)
    ensures multiset(o) == multiset(keys)
  {
    if o == [] {
      assert keys == {};
    } else {
      var n := |o| - 1;
      assert o == o[..n] + [o[n]];
      VisitLast(o, keys);
      OnceEach(o[..n], keys - {o[n]});
      assert keys == keys - {o[n]} + {o[n]};
    }
  }

  /** An occurrence found in a permutation can be taken out of both. */
  lemma Without<T>(s: seq<T>, t: seq<T>, x: T) returns (before: seq<T>, after: seq<T>)
    requires multiset(s + [x]) == multiset(t)
    ensures t == before + [x] + after && multiset(s) == multiset(before + after)
  {
    assert x in multiset(s + [x]);
    var i :| 0 <= i < |t| && t[i] == x;
    before, after := t[..i], t[i + 1..];
    assert t == before + [x] + after;
    assert multiset(s) == multiset(s + [x]) - multiset{x};
    assert multiset(before + after) == multiset(before + [x] + after) - multiset{x};
  }

  ghost predicate Ascending(s: seq<int>) {
    forall i, j :: 0 <= i < j < |s| ==> s[i] <= s[j]
  }

  function Insert(s: seq<int>, x: int): (r: seq<int>)
    requires Ascending(s)
    ensures Ascending(r) && multiset(r) == multiset(s) + multiset{x}
    ensures forall i :: 0 <= i < |r| ==> r[i] == x || r[i] in s
  {
    if s == [] || x <= s[0] then [x] + s
    else
      var rest := Insert(s[1..], x);
      assert s == [s[0]] + s[1..];
      FirstIsLeast(s, x, rest);
      [s[0]] + rest
  }

  lemma FirstIsLeast(s: seq<int>, x: int, rest: seq<int>)
    requires Ascending(s) && s != [] && s[0] <= x && Ascending(rest)
    requires forall i :: 0 <= i < |rest| ==> rest[i] == x || rest[i] in s[1..]
    ensures Ascending([s[0]] + rest)
  {
    forall i | 0 <= i < |rest|
      ensures s[0] <= rest[i]
    {
      if rest[i] != x {
        var j :| 0 <= j < |s| - 1 && s[1..][j] == rest[i];
        assert s[1..][j] == s[j + 1];
      }
    }
  }

  /** `sort.Ints`. */
  function SortInts(s: seq<int>): (r: seq<int>)
    ensures Ascending(r) && multiset(r) == multiset(s)
  {
    if s == [] then []
    else
      assert s == s[..|s| - 1] + [s[|s| - 1]];
      Insert(SortInts(s[..|s| - 1]), s[|s| - 1])
  }

  lemma LastIsGreatest(s: seq<int>, t: seq<int>)
    requires Ascending(s) && multiset(s) == multiset(t) && t != []
    ensures s != [] && t[|t| - 1] <= s[|s| - 1]
  {
    assert t[|t| - 1] in multiset(s);
  }

  lemma DropLast(s: seq<int>)
    requires s != []
    ensures multiset(s[..|s| - 1]) == multiset(s) - multiset{s[|s| - 1]}
  {
    assert s == s[..|s| - 1] + [s[|s| - 1]];
  }

  /** A multiset of integers can be arranged in ascending order in only one way. */
  lemma {:induction false} AscendingUnique(s: seq<int>, t: seq<int>)
    requires Ascending(s) && Ascending(t) && multiset(s) == multiset(t)
    ensures s == t
    decreases |s|
  {
    if s == [] || t == [] {
      assert |multiset(s)| == |multiset(t)|;
    } else {
      LastIsGreatest(s, t);
      LastIsGreatest(t, s);
      DropLast(s);
      DropLast(t);
      AscendingUnique(s[..|s| - 1], t[..|t| - 1]);
      assert s == s[..|s| - 1] + [s[|s| - 1]] && t == t[..|t| - 1] + [t[|t| - 1]];
    }
  }

  /** Sorting keeps the length and the members. */
  lemma SortedMembers(s: seq<int>)
    ensures |SortInts(s)| == |s| && forall n :: n in s <==> n in SortInts(s)
  {
    assert |multiset(SortInts(s))| == |multiset(s)|;
    forall n
      ensures n in s <==> n in SortInts(s)
    {
      assert n in s <==> n in multiset(s);
      assert n in SortInts(s) <==> n in multiset(SortInts(s));
    }
  }

  ghost predicate StrictlyAscending(s: seq<int>) {
    forall i, j :: 0 <= i < j < |s| ==> s[i] < s[j]
  }

  lemma AppendDistinct<T>(s: seq<T>, x: T)
    requires NoDuplicates(s) && x !in s
    ensures NoDuplicates(s + [x])
  {
  }

  lemma {:induction false} DistinctCount(s: seq<int>, x: int)
    requires NoDuplicates(s)
    ensures multiset(s)[x] <= 1
  {
    if s != [] {
      var n := |s| - 1;
      assert s == s[..n] + [s[n]];
      DistinctCount(s[..n], x);
      assert s[n] !in s[..n];
    }
  }

  /** Distinct integers in ascending order ascend strictly. */
  lemma DistinctAscend(s: seq<int>, t: seq<int>)
    requires NoDuplicates(s) && Ascending(t) && multiset(s) == multiset(t)
    ensures StrictlyAscending(t)
  {
    forall i, j | 0 <= i < j < |t|
      ensures t[i] < t[j]
    {
      DistinctCount(s, t[i]);
      if t[i] == t[j] {
        TwiceCounts(t, i, j);
      }
    }
  }

  lemma TwiceCounts(t: seq<int>, i: nat, j: nat)
    requires i < j < |t| && t[i] == t[j]
    ensures multiset(t)[t[i]] >= 2
  {
    assert t == t[..i] + [t[i]] + t[i + 1..j] + [t[j]] + t[j + 1..];
  }
}
