/** Ordering a sequence "descending by a key", as the `$sort: { key: -1 }`
    stages and the `sort({ created: 'desc' })` queries of the application do,
    and keeping the first k results, as `$limit` and `limit` do.

    The database does not promise any order among equal keys; the model
    fixes one (the input order, a stable sort), so that each query is a
    deterministic function of its input snapshot. */
module Ranking {
  import opened Common

  /** The key never increases along `s`. */
  predicate NonIncreasing<T>(s: seq<T>, key: T -> real) {
    forall i, j :: 0 <= i < j < |s| ==> key(s[i]) >= key(s[j])
  }

  /** Inserts `x` into a sequence that is already in descending order,
      before every element whose key is not larger. */
  function Insert<T>(x: T, s: seq<T>, key: T -> real): (r: seq<T>)
    ensures multiset(r) == multiset(s) + multiset{x}
    ensures |r| == |s| + 1
    ensures forall i :: 0 <= i < |r| ==> r[i] == x || r[i] in s
  {
    if s == [] then [x]
    else if key(x) >= key(s[0]) then [x] + s
    else
      assert s == [s[0]] + s[1..];
      [s[0]] + Insert(x, s[1..], key)
  }

  /** Every key in `s` is at most `bound`. */
  predicate AllAtMost<T>(s: seq<T>, key: T -> real, bound: real) {
    forall i :: 0 <= i < |s| ==> key(s[i]) <= bound
  }

  /** Insertion keeps a descending sequence descending. */
  lemma {:induction false} InsertNonIncreasing<T>(x: T, s: seq<T>, key: T -> real)
    requires NonIncreasing(s, key)
    ensures NonIncreasing(Insert(x, s, key), key)
  {
    if s != [] && key(x) < key(s[0]) {
      var tail := s[1..];
      assert NonIncreasing(tail, key) by {
        forall i, j | 0 <= i < j < |tail| ensures key(tail[i]) >= key(tail[j]) {
          assert tail[i] == s[i + 1] && tail[j] == s[j + 1];
        }
      }
      var rest := Insert(x, tail, key);
      InsertNonIncreasing(x, tail, key);
      assert AllAtMost(rest, key, key(s[0])) by {
        forall i | 0 <= i < |rest| ensures key(rest[i]) <= key(s[0]) {
          if rest[i] != x {
            var k :| 0 <= k < |tail| && tail[k] == rest[i];
            assert tail[k] == s[k + 1];
          }
        }
      }
      NonIncreasingCons(s[0], rest, key);
      assert Insert(x, s, key) == [s[0]] + rest;
    }
  }

  lemma NonIncreasingCons<T>(h: T, rest: seq<T>, key: T -> real)
    requires NonIncreasing(rest, key)
    requires AllAtMost(rest, key, key(h))
    ensures NonIncreasing([h] + rest, key)
  {
    var r := [h] + rest;
    forall i, j | 0 <= i < j < |r| ensures key(r[i]) >= key(r[j]) {
      assert r[j] == rest[j - 1];
      if i > 0 {
        assert r[i] == rest[i - 1];
      }
    }
  }

  /** The elements of `s` in descending order of `key`. */
  function SortDesc<T>(s: seq<T>, key: T -> real): (r: seq<T>)
    ensures NonIncreasing(r, key)
    ensures multiset(r) == multiset(s)
    ensures |r| == |s|
  {
    if s == [] then []
    else
      assert s == [s[0]] + s[1..];
      InsertNonIncreasing(s[0], SortDesc(s[1..], key), key);
      Insert(s[0], SortDesc(s[1..], key), key)
  }

  /** The first `k` elements of `s` in descending order of `key`. */
  function TopK<T(!new)>(s: seq<T>, key: T -> real, k: nat): (r: seq<T>)
    ensures NonIncreasing(r, key)
    ensures |r| == Min(k, |s|)
    ensures forall x :: x in r ==> x in s
    ensures multiset(r) <= multiset(s)
  {
    var sorted := SortDesc(s, key);
    PrefixIncluded(sorted, Min(k, |s|));
    sorted[..Min(k, |s|)]
  }

  /** A prefix holds no element more often than the whole sequence. */
  lemma PrefixIncluded<T>(s: seq<T>, n: nat)
    requires n <= |s|
    ensures multiset(s[..n]) <= multiset(s)
    ensures forall x :: x in s[..n] ==> x in multiset(s)
  {
    assert s == s[..n] + s[n..];
    assert multiset(s) == multiset(s[..n]) + multiset(s[n..]);
  }

  /** An element that the truncation left out ranks no higher than any
      element that was kept. */
  lemma TopKDominates<T(!new)>(s: seq<T>, key: T -> real, k: nat, q: T)
    requires q in s
    requires q !in TopK(s, key, k)
    ensures forall x :: x in TopK(s, key, k) ==> key(x) >= key(q)
  {
    var sorted := SortDesc(s, key);
    var n := Min(k, |s|);
    assert TopK(s, key, k) == sorted[..n];
    assert q in multiset(sorted);
    var i :| 0 <= i < |sorted| && sorted[i] == q;
    assert i >= n;
    forall x | x in sorted[..n] ensures key(x) >= key(q) {
      var j :| 0 <= j < n && sorted[..n][j] == x;
      assert sorted[j] == x;
    }
  }
}
