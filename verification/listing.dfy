/** The LINQ pieces the list pages use — `Where`, `OrderByDescending`,
    `Take` and materialising a table — over sequences, with their contracts. */
module Listing {

  predicate Distinct<T(==)>(s: seq<T>) {
    forall i, j :: 0 <= i < j < |s| ==> s[i] != s[j]
  }

  /** Ordered by `key`, largest first. */
  predicate SortedDesc<T>(s: seq<T>, key: T -> int) {
    forall i, j :: 0 <= i < j < |s| ==> key(s[j]) <= key(s[i])
  }

  /** `Where(keep)`: the elements that pass, in their original order. */
  function Filter<T(!new)>(s: seq<T>, keep: T -> bool): (r: seq<T>)
    ensures forall x :: x in r <==> x in s && keep(x)
    ensures |r| <= |s|
    ensures Distinct(s) ==> Distinct(r)
  {
    if |s| == 0 then []
    else
      var rest := Filter(s[1..], keep);
      assert forall x :: x in s <==> x == s[0] || x in s[1..];
      if keep(s[0]) then [s[0]] + rest else rest
  }

  /** Puts `x` after every element whose key is at least its own, so equal keys keep arrival order. */
  function InsertDesc<T>(x: T, s: seq<T>, key: T -> int): (r: seq<T>)
    requires SortedDesc(s, key)
    ensures SortedDesc(r, key)
    ensures multiset(r) == multiset(s) + multiset{x}
  {
    if |s| == 0 then [x]
    else if key(s[0]) < key(x) then
      assert forall j :: 0 <= j < |s| ==> key(s[j]) <= key(s[0]);
      PrependSorted(x, s, key);
      [x] + s
    else
      var rest := InsertDesc(x, s[1..], key);
      BoundedByHead(x, s, rest, key);
      PrependSorted(s[0], rest, key);
      assert s == [s[0]] + s[1..];
      assert multiset([s[0]] + rest) == multiset{s[0]} + multiset(rest);
      [s[0]] + rest
  }

  /** A head no smaller than anything after it keeps a sorted tail sorted. */
  lemma PrependSorted<T>(y: T, t: seq<T>, key: T -> int)
    requires SortedDesc(t, key)
    requires forall j :: 0 <= j < |t| ==> key(t[j]) <= key(y)
    ensures SortedDesc([y] + t, key)
  {
  }

  /** Rearranging the tail of a sorted sequence plus an element no larger than
      its head yields only elements no larger than that head. */
  lemma BoundedByHead<T>(x: T, s: seq<T>, rest: seq<T>, key: T -> int)
    requires SortedDesc(s, key) && |s| > 0 && key(x) <= key(s[0])
    requires multiset(rest) == multiset(s[1..]) + multiset{x}
    ensures forall j :: 0 <= j < |rest| ==> key(rest[j]) <= key(s[0])
  {
    forall j | 0 <= j < |rest|
      ensures key(rest[j]) <= key(s[0])
    {
      var y := rest[j];
      assert y in multiset(rest);
      if y != x {
        assert y in s[1..];
        var i :| 0 <= i < |s[1..]| && s[1..][i] == y;
        assert s[i + 1] == y;
      }
    }
  }

  /** `OrderByDescending(key)`. The contracts leave the order of equal keys
      open, as SQL's `ORDER BY ... DESC` does. */
  function SortDesc<T>(s: seq<T>, key: T -> int): (r: seq<T>)
    ensures SortedDesc(r, key)
    ensures multiset(r) == multiset(s)
  {
    if |s| == 0 then []
    else
      assert s == s[..|s| - 1] + [s[|s| - 1]];
      InsertDesc(s[|s| - 1], SortDesc(s[..|s| - 1], key), key)
  }

  /** A reordering of a sequence without repeats has no repeats either. */
  lemma {:induction false} DistinctMultiset<T>(s: seq<T>, r: seq<T>)
    requires multiset(s) == multiset(r)
    requires Distinct(s)
    ensures Distinct(r)
  {
    forall i, j | 0 <= i < j < |r|
      ensures r[i] != r[j]
    {
      if r[i] == r[j] {
        var x := r[i];
        assert r == r[..j] + [x] + r[j + 1..];
        assert x in r[..j];
        assert multiset(r)[x] >= 2;
        OccursOnce(s, x);
      }
    }
  }

  /** In a sequence without repeats every element occurs at most once. */
  lemma {:induction false} OccursOnce<T>(s: seq<T>, x: T)
    requires Distinct(s)
    ensures multiset(s)[x] <= 1
  {
    if |s| > 0 {
      assert s == [s[0]] + s[1..];
      assert Distinct(s[1..]);
      OccursOnce(s[1..], x);
      if s[0] == x {
        assert x !in s[1..];
      }
    }
  }

  /** `Take(n)`: the first `n` elements, or all of them when there are fewer. */
  function Take<T>(s: seq<T>, n: nat): (r: seq<T>)
    ensures |r| <= n && |r| <= |s|
    ensures |r| == n || r == s
    ensures forall i :: 0 <= i < |r| ==> r[i] == s[i]
  {
    if |s| <= n then s else s[..n]
  }

  /** Reordering keeps exactly the same elements. */
  lemma SameMembers<T>(s: seq<T>, r: seq<T>)
    requires multiset(s) == multiset(r)
    ensures forall i :: 0 <= i < |s| ==> s[i] in r
    ensures forall i :: 0 <= i < |r| ==> r[i] in s
  {
    forall i | 0 <= i < |s|
      ensures s[i] in r
    {
      assert s[i] in multiset(s);
    }
    forall i | 0 <= i < |r|
      ensures r[i] in s
    {
      assert r[i] in multiset(r);
    }
  }

  /** What `Take` leaves out of a descending sequence ranks no higher than anything it keeps. */
  lemma TakeKeepsTop<T>(s: seq<T>, n: nat, key: T -> int, x: T)
    requires SortedDesc(s, key)
    requires x in s && x !in Take(s, n)
    ensures forall j :: 0 <= j < |Take(s, n)| ==> key(x) <= key(s[j])
  {
    var i :| 0 <= i < |s| && s[i] == x;
    var t := Take(s, n);
    assert |t| <= i by {
      assert forall j :: 0 <= j < |t| ==> t[j] != x;
    }
  }
}
