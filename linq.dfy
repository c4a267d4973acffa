/**
 * The LINQ operators the services and controllers are written with
 * (FirstOrDefault, Where, Distinct, Skip, Take, OrderBy), as functions
 * on sequences with the semantics of System.Linq.Enumerable.
 */
module Linq {
  import opened Wrappers

  /** Position of the first element satisfying `p`: the element FirstOrDefault returns. */
  function FirstIndex<T>(s: seq<T>, p: T -> bool): (r: Option<nat>)
    ensures r.Some? ==> r.value < |s| && p(s[r.value])
    ensures r.Some? ==> forall j :: 0 <= j < r.value ==> !p(s[j])
    ensures r.None? ==> forall j :: 0 <= j < |s| ==> !p(s[j])
  {
    if s == [] then None
    else if p(s[0]) then Some(0)
    else match FirstIndex(s[1..], p)
      case None => None
      case Some(i) => Some(i + 1)
  }

  /** FirstOrDefault: the first element satisfying `p`, or null (None). */
  function FirstOrDefault<T>(s: seq<T>, p: T -> bool): (r: Option<T>)
    ensures r.Some? ==> r.value in s && p(r.value)
    ensures r.Some? ==> exists i :: 0 <= i < |s| && s[i] == r.value && forall j :: 0 <= j < i ==> !p(s[j])
    ensures r.None? <==> forall x :: x in s ==> !p(x)
  {
    match FirstIndex(s, p)
    case None => None
    case Some(i) => Some(s[i])
  }

  /** FirstOrDefault on a sequence extended at the end finds the old match, or else the new element. */
  lemma {:induction false} FirstOrDefaultAppend<T>(s: seq<T>, x: T, p: T -> bool)
    ensures FirstOrDefault(s + [x], p) ==
              if FirstOrDefault(s, p).Some? then FirstOrDefault(s, p)
              else if p(x) then Some(x) else None
  {
    var t := s + [x];
    match FirstIndex(t, p)
    case None =>
      assert t[|s|] == x;
    case Some(i) =>
      if i < |s| {
        assert t[i] == s[i];
        var k := FirstIndex(s, p);
        assert k.Some?;
        assert forall j :: 0 <= j < i ==> t[j] == s[j];
        assert k.value == i;
      } else {
        assert t[i] == x;
        assert forall j :: 0 <= j < |s| ==> t[j] == s[j];
      }
  }

  /** Where: the elements satisfying `p`, in their original order. */
  function Where<T(!new)>(s: seq<T>, p: T -> bool): (r: seq<T>)
    ensures |r| <= |s|
    ensures forall x :: x in r ==> x in s && p(x)
    ensures forall x :: x in s && p(x) ==> x in r
    ensures forall x :: multiset(r)[x] == if p(x) then multiset(s)[x] else 0
  {
    if s == [] then []
    else
      assert s == [s[0]] + s[1..];
      (if p(s[0]) then [s[0]] else []) + Where(s[1..], p)
  }

  /** Where keeps the order of the input: filtering a concatenation filters each part. */
  lemma {:induction false} WhereAppend<T(!new)>(a: seq<T>, b: seq<T>, p: T -> bool)
    ensures Where(a + b, p) == Where(a, p) + Where(b, p)
  {
    if a == [] {
      assert a + b == b;
    } else {
      var c := a + b;
      assert c[0] == a[0] && c[1..] == a[1..] + b;
      WhereCons(c, p);
      WhereAppend(a[1..], b, p);
    }
  }

  lemma WhereCons<T(!new)>(s: seq<T>, p: T -> bool)
    requires s != []
    ensures Where(s, p) == (if p(s[0]) then [s[0]] else []) + Where(s[1..], p)
  {
  }

  /** A filter that every element passes keeps the sequence as it is. */
  lemma {:induction false} WhereAll<T(!new)>(s: seq<T>, p: T -> bool)
    requires forall x :: x in s ==> p(x)
    ensures Where(s, p) == s
  {
    if s != [] {
      WhereAll(s[1..], p);
      assert s == [s[0]] + s[1..];
    }
  }

  /** Two filters that agree on every element select the same subsequence. */
  lemma {:induction false} WhereSame<T(!new)>(s: seq<T>, p: T -> bool, q: T -> bool)
    requires forall x :: x in s ==> p(x) == q(x)
    ensures Where(s, p) == Where(s, q)
  {
    if s != [] {
      WhereSame(s[1..], p, q);
    }
  }

  ghost predicate NoDuplicates<T>(s: seq<T>) {
    forall i, j :: 0 <= i < j < |s| ==> s[i] != s[j]
  }

  /** Distinct: keeps the first occurrence of every element, in order. */
  function Distinct<T(==)>(s: seq<T>): (r: seq<T>)
    ensures forall x :: x in r ==> x in s
    ensures forall x :: x in s ==> x in r
    ensures NoDuplicates(r)
    ensures |r| <= |s|
  {
    if s == [] then []
    else
      var init, last := s[..|s| - 1], s[|s| - 1];
      assert s == init + [last];
      var d := Distinct(init);
      if last in d then d else d + [last]
  }

  /** Distinct leaves a duplicate-free sequence as it is. */
  lemma {:induction false} DistinctOfDistinct<T>(s: seq<T>)
    requires NoDuplicates(s)
    ensures Distinct(s) == s
  {
    if s != [] {
      var init := s[..|s| - 1];
      DistinctOfDistinct(init);
      assert s[|s| - 1] !in init by {
        forall j | 0 <= j < |init| ensures init[j] != s[|s| - 1] {
          assert init[j] == s[j];
        }
      }
      assert s == init + [s[|s| - 1]];
    }
  }

  /** Skip(n): drops the first n elements; a count of zero or less drops nothing. */
  function Skip<T>(s: seq<T>, n: int): (r: seq<T>)
    ensures |r| == if n <= 0 then |s| else if n >= |s| then 0 else |s| - n
    ensures forall i :: 0 <= i < |r| ==> r[i] == s[i + (if n <= 0 then 0 else n)]
  {
    if n <= 0 then s else if n >= |s| then [] else s[n..]
  }

  /** Take(n): the first n elements; a count of zero or less takes nothing. */
  function Take<T>(s: seq<T>, n: int): (r: seq<T>)
    ensures |r| == if n <= 0 then 0 else if n >= |s| then |s| else n
    ensures forall i :: 0 <= i < |r| ==> r[i] == s[i]
  {
    if n <= 0 then [] else if n >= |s| then s else s[..n]
  }

  /** Take(n) and Skip(n) split a sequence in two. */
  lemma TakeSkip<T>(s: seq<T>, n: int)
    ensures Take(s, n) + Skip(s, n) == s
    ensures multiset(Take(s, n)) + multiset(Skip(s, n)) == multiset(s)
  {
    if 0 < n < |s| {
      assert s == s[..n] + s[n..];
    }
    calc {
      multiset(s);
      multiset(Take(s, n) + Skip(s, n));
      multiset(Take(s, n)) + multiset(Skip(s, n));
    }
  }

  /** Every element of a window Skip(n).Take(k) comes from the sequence. */
  lemma WindowIn<T>(s: seq<T>, n: int, k: int)
    ensures forall x :: x in Take(Skip(s, n), k) ==> x in s
  {
    forall x | x in Take(Skip(s, n), k) ensures x in s {
      var w := Take(Skip(s, n), k);
      var i :| 0 <= i < |w| && w[i] == x;
      assert Skip(s, n)[i] == x;
    }
  }

  /** Element i of the window Skip(n).Take(k) is element max(n, 0) + i of the sequence. */
  lemma WindowAt<T>(s: seq<T>, n: int, k: int)
    ensures var w := Take(Skip(s, n), k);
            |w| > 0 ==> (if n < 0 then 0 else n) + |w| <= |s|
    ensures var w := Take(Skip(s, n), k);
            forall i :: 0 <= i < |w| ==> w[i] == s[(if n < 0 then 0 else n) + i]
  {
  }

  /** A permutation has the same elements. */
  lemma PermutationIn<T>(s: seq<T>, t: seq<T>)
    requires multiset(s) == multiset(t)
    ensures forall x :: x in s ==> x in t
  {
    forall x | x in s ensures x in t {
      assert x in multiset(s);
    }
  }

  ghost predicate SortedBy<T>(s: seq<T>, key: T -> int) {
    forall i, j :: 0 <= i < j < |s| ==> key(s[i]) <= key(s[j])
  }

  /** An element with more copies in the sequence than in Take(n) occurs in Skip(n). */
  lemma LeftOutInSkip<T>(s: seq<T>, n: int, x: T)
    requires multiset(Take(s, n))[x] < multiset(s)[x]
    ensures x in Skip(s, n)
  {
    TakeSkip(s, n);
    assert x in multiset(Skip(s, n));
  }

  /** In a sorted sequence, an element left out of Take(n) has a key no smaller than any taken one. */
  lemma TakeSortedBound<T>(s: seq<T>, n: int, key: T -> int, x: T)
    requires SortedBy(s, key)
    requires multiset(Take(s, n))[x] < multiset(s)[x]
    ensures forall y :: y in Take(s, n) ==> key(y) <= key(x)
  {
    var top, rest := Take(s, n), Skip(s, n);
    LeftOutInSkip(s, n, x);
    var j :| 0 <= j < |rest| && rest[j] == x;
    var start := if n <= 0 then 0 else n;
    assert start == |top| && s[start + j] == x;
    forall y | y in top ensures key(y) <= key(x) {
      var i :| 0 <= i < |top| && top[i] == y;
      assert s[i] == y && i < start + j;
    }
  }

  /**
   * Puts `x` before the first element whose key is not smaller, so that `x`
   * (which came earlier in the input) precedes later elements of equal key.
   */
  function InsertBy<T>(x: T, s: seq<T>, key: T -> int): (r: seq<T>)
    ensures |r| == |s| + 1
    ensures multiset(r) == multiset(s) + multiset{x}
  {
    if s == [] || key(x) <= key(s[0]) then [x] + s
    else
      assert s == [s[0]] + s[1..];
      [s[0]] + InsertBy(x, s[1..], key)
  }

  /** Inserting an element keeps a lower bound that it and all elements respect. */
  lemma InsertByBound<T>(x: T, s: seq<T>, key: T -> int, b: int)
    requires b <= key(x) && forall k :: 0 <= k < |s| ==> b <= key(s[k])
    ensures forall k :: 0 <= k < |InsertBy(x, s, key)| ==> b <= key(InsertBy(x, s, key)[k])
  {
    var r := InsertBy(x, s, key);
    forall k | 0 <= k < |r| ensures b <= key(r[k]) {
      assert r[k] in multiset(r);
      if r[k] != x {
        assert r[k] in multiset(s);
      }
    }
  }

  lemma {:induction false} InsertBySorted<T>(x: T, s: seq<T>, key: T -> int)
    requires SortedBy(s, key)
    ensures SortedBy(InsertBy(x, s, key), key)
  {
    if s != [] && key(x) > key(s[0]) {
      var rest := InsertBy(x, s[1..], key);
      InsertBySorted(x, s[1..], key);
      InsertByBound(x, s[1..], key, key(s[0]));
      var r := [s[0]] + rest;
      forall i, j | 0 <= i < j < |r| ensures key(r[i]) <= key(r[j]) {
        assert r[j] == rest[j - 1];
        if i == 0 {
          assert r[i] == s[0];
          assert key(s[0]) <= key(rest[j - 1]);
        } else {
          assert r[i] == rest[i - 1];
          assert key(rest[i - 1]) <= key(rest[j - 1]);
        }
      }
    }
  }

  /** OrderBy: a stable sort by `key` (the result is sorted and a permutation of the input). */
  function OrderBy<T>(s: seq<T>, key: T -> int): (r: seq<T>)
    ensures |r| == |s|
    ensures multiset(r) == multiset(s)
    ensures SortedBy(r, key)
  {
    if s == [] then []
    else
      assert s == [s[0]] + s[1..];
      var rest := OrderBy(s[1..], key);
      InsertBySorted(s[0], rest, key);
      InsertBy(s[0], rest, key)
  }
}
