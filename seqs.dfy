/** Sequence helpers shared by the store, the leaderboard and the achievement rules:
    an order-preserving filter (JavaScript's `Array.prototype.filter`) and integer sums. */
module Seqs {

  /** The elements of `s` that satisfy `p`, in their original order. */
  function Filter<T(!new)>(s: seq<T>, p: T -> bool): (r: seq<T>)
    ensures |r| <= |s|
    ensures forall x :: x in r <==> x in s && p(x)
  {
    if s == [] then [] else (if p(s[0]) then [s[0]] else []) + Filter(s[1..], p)
  }

  /** Filtering distributes over concatenation: appending a record appends at most that record. */
  lemma {:induction false} FilterAppend<T(!new)>(a: seq<T>, b: seq<T>, p: T -> bool)
    ensures Filter(a + b, p) == Filter(a, p) + Filter(b, p)
  {
    if a == [] {
      assert a + b == b;
    } else {
      assert (a + b)[0] == a[0];
      assert (a + b)[1..] == a[1..] + b;
      FilterAppend(a[1..], b, p);
    }
  }

  lemma FilterCons<T(!new)>(x: T, s: seq<T>, p: T -> bool)
    ensures Filter([x] + s, p) == (if p(x) then [x] else []) + Filter(s, p)
  {
    assert ([x] + s)[0] == x && ([x] + s)[1..] == s;
  }

  /** Nothing passes the filter when no element satisfies the predicate. */
  lemma {:induction false} FilterNone<T(!new)>(s: seq<T>, p: T -> bool)
    requires forall x :: x in s ==> !p(x)
    ensures Filter(s, p) == []
  {
    if s != [] {
      assert forall x :: x in s[1..] ==> x in s;
      FilterNone(s[1..], p);
    }
  }

  /** The position of the first element whose `key` is `k`, or `|s|` when there is none: `Array.prototype.find`
      over a table, or `Map.get` over a table with one row per key. */
  function FirstIndex<T, K(==)>(s: seq<T>, key: T -> K, k: K): (i: nat)
    ensures i <= |s|
    ensures i < |s| ==> key(s[i]) == k
    ensures forall j :: 0 <= j < i ==> key(s[j]) != k
  {
    if s == [] then 0
    else if key(s[0]) == k then 0
    else 1 + FirstIndex(s[1..], key, k)
  }

  /** `key` strictly increases along `s`. */
  predicate Increasing<T>(s: seq<T>, key: T -> int)
  {
    forall i, j :: 0 <= i < j < |s| ==> key(s[i]) < key(s[j])
  }

  /** An element whose key is below every key of an increasing sequence can head it. */
  lemma ConsIncreasing<T>(h: T, s: seq<T>, key: T -> int)
    requires Increasing(s, key)
    requires forall x :: x in s ==> key(h) < key(x)
    ensures Increasing([h] + s, key)
  {
    var r := [h] + s;
    forall i, j | 0 <= i < j < |r| ensures key(r[i]) < key(r[j]) {
      assert r[j] == s[j - 1] && s[j - 1] in s;
      if i > 0 {
        assert r[i] == s[i - 1];
      }
    }
  }

  /** Filtering keeps the original order: a key that increases along `s` increases along the result. */
  lemma {:induction false} FilterKeepsOrder<T(!new)>(s: seq<T>, p: T -> bool, key: T -> int)
    requires Increasing(s, key)
    ensures Increasing(Filter(s, p), key)
  {
    if s != [] {
      var tail := s[1..];
      assert s == [s[0]] + tail;
      assert Increasing(tail, key) by {
        forall i, j | 0 <= i < j < |tail| ensures key(tail[i]) < key(tail[j]) {
          assert tail[i] == s[i + 1] && tail[j] == s[j + 1];
        }
      }
      FilterKeepsOrder(tail, p, key);
      if p(s[0]) {
        assert forall x :: x in Filter(tail, p) ==> key(s[0]) < key(x) by {
          forall x | x in Filter(tail, p) ensures key(s[0]) < key(x) {
            var k :| 0 <= k < |tail| && tail[k] == x;
            assert s[k + 1] == x;
          }
        }
        ConsIncreasing(s[0], Filter(tail, p), key);
      }
    }
  }

  /** Sum of a sequence of integers, accumulated left to right. */
  function Sum(s: seq<int>): int
  {
    if s == [] then 0 else Sum(s[..|s| - 1]) + s[|s| - 1]
  }

  lemma SumSnoc(s: seq<int>, x: int)
    ensures Sum(s + [x]) == Sum(s) + x
  {
    assert (s + [x])[..|s|] == s;
  }

  /** The least element of a non-empty sequence. */
  function Min(s: seq<int>): (m: int)
    requires s != []
    ensures m in s && forall x :: x in s ==> m <= x
  {
    if |s| == 1 then s[0]
    else var m' := Min(s[1..]);
      assert s == [s[0]] + s[1..];
      if s[0] < m' then s[0] else m'
  }

  /** The greatest element of a non-empty sequence. */
  function Max(s: seq<int>): (m: int)
    requires s != []
    ensures m in s && forall x :: x in s ==> x <= m
  {
    if |s| == 1 then s[0]
    else var m' := Max(s[1..]);
      assert s == [s[0]] + s[1..];
      if s[0] > m' then s[0] else m'
  }

  lemma MulMonotone(a: int, b: int, k: nat)
    requires a <= b
    ensures a * k <= b * k
  {
  }

  lemma MulStepDown(a: int, b: int, n: nat)
    requires n >= 1 && a <= b
    ensures a * n <= b * (n - 1) + a
  {
    assert a * n == a * (n - 1) + a;
    assert a * (n - 1) <= b * (n - 1);
  }

  lemma MulStepUp(a: int, b: int, n: nat)
    requires n >= 1 && b <= a
    ensures b * (n - 1) + a <= a * n
  {
    assert a * n == a * (n - 1) + a;
    assert b * (n - 1) <= a * (n - 1);
  }

  /** `Sum(s)` lies between `|s|` times the least and `|s|` times the greatest element:
      the mean of a non-empty sequence lies between its extremes. */
  lemma {:induction false} SumBetweenExtremes(s: seq<int>)
    requires s != []
    ensures Min(s) * |s| <= Sum(s) <= Max(s) * |s|
  {
    var n := |s|;
    var p, x := s[..n - 1], s[n - 1];
    assert s == p + [x];
    assert Sum(s) == Sum(p) + x;
    if p != [] {
      SumBetweenExtremes(p);
      var lo, hi := Min(s), Max(s);
      assert Min(p) in s && Max(p) in s && x in s;
      MulStepDown(lo, Min(p), n);
      MulStepUp(hi, Max(p), n);
    }
  }
}
