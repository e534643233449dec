/** Descending order by an integer key, as an SQL `ORDER BY key DESC` returns
    rows. SQL leaves the order among equal keys open; the insertion sort here
    picks one such order, and everything stated about it holds for any. */
module Ordering {

  /** Keys never increase along `s`. */
  ghost predicate SortedDesc<T>(s: seq<T>, key: T -> int) {
    forall i, j :: 0 <= i < j < |s| ==> key(s[i]) >= key(s[j])
  }

  /** An element no lower than the head of a descending sequence can go in front of it. */
  lemma ConsDesc<T>(x: T, s: seq<T>, key: T -> int)
    requires SortedDesc(s, key) && (s == [] || key(x) >= key(s[0]))
    ensures SortedDesc([x] + s, key)
  {
    var r := [x] + s;
    forall i, j | 0 <= i < j < |r|
      ensures key(r[i]) >= key(r[j])
    {
      assert r[j] == s[j - 1];
      if i > 0 {
        assert r[i] == s[i - 1];
      } else {
        assert key(s[0]) >= key(s[j - 1]);
      }
    }
  }

  /** The tail of a descending sequence is descending and starts no higher than the head. */
  lemma TailDesc<T>(s: seq<T>, key: T -> int)
    requires SortedDesc(s, key) && s != []
    ensures SortedDesc(s[1..], key)
    ensures |s| > 1 ==> key(s[0]) >= key(s[1..][0])
  {
    forall i, j | 0 <= i < j < |s| - 1
      ensures key(s[1..][i]) >= key(s[1..][j])
    {
      assert s[1..][i] == s[i + 1] && s[1..][j] == s[j + 1];
    }
  }

  /** Puts `x` into the descending sequence `s` ahead of the first element it is not below. */
  function InsertDesc<T>(x: T, s: seq<T>, key: T -> int): (r: seq<T>)
    requires SortedDesc(s, key)
    ensures SortedDesc(r, key)
    ensures multiset(r) == multiset(s) + multiset{x}
    ensures |r| == |s| + 1 && (r[0] == x || (s != [] && r[0] == s[0]))
  {
    if s == [] || key(x) >= key(s[0]) then
      ConsDesc(x, s, key);
      [x] + s
    else
      var tail := s[1..];
      TailDesc(s, key);
      var rest := InsertDesc(x, tail, key);
      assert s == [s[0]] + tail;
      ConsDesc(s[0], rest, key);
      [s[0]] + rest
  }

  /** In a descending sequence an element with a strictly higher key comes first. */
  lemma HigherKeyComesFirst<T>(s: seq<T>, key: T -> int, i: nat, j: nat)
    requires SortedDesc(s, key) && i < |s| && j < |s| && key(s[i]) > key(s[j])
    ensures i < j
  {
  }

  /** Insertion sort into descending key order. */
  function SortDesc<T>(s: seq<T>, key: T -> int): (r: seq<T>)
    ensures |r| == |s|
    ensures SortedDesc(r, key)
    ensures multiset(r) == multiset(s)
  {
    if s == [] then []
    else
      assert s == [s[0]] + s[1..];
      InsertDesc(s[0], SortDesc(s[1..], key), key)
  }

  /** Whatever a descending sequence keeps beyond its first `m` elements is
      not above the `m`-th. */
  lemma BeyondPrefixIsLower<T>(all: seq<T>, key: T -> int, m: nat, x: T)
    requires SortedDesc(all, key) && 0 < m <= |all|
    requires x in all && x !in all[..m]
    ensures key(x) <= key(all[m - 1])
  {
    var j :| 0 <= j < |all| && all[j] == x;
    assert forall k :: 0 <= k < m ==> all[k] == all[..m][k];
    assert key(all[m - 1]) >= key(all[j]);
  }

  /** A prefix of a descending sequence is descending and no larger as a multiset. */
  lemma PrefixOfSorted<T>(all: seq<T>, key: T -> int, m: nat)
    requires SortedDesc(all, key) && m <= |all|
    ensures SortedDesc(all[..m], key)
    ensures multiset(all[..m]) <= multiset(all)
  {
    assert all == all[..m] + all[m..];
  }

  /** Every element left out of a prefix of a descending sequence is no higher than the prefix's last. */
  lemma PrefixBoundsRest<T>(s: seq<T>, all: seq<T>, key: T -> int, m: nat, top: seq<T>)
    requires SortedDesc(all, key) && multiset(all) == multiset(s) && 0 < m <= |all|
    requires top == all[..m]
    ensures forall x :: x in s && x !in top ==> top != [] && key(x) <= key(top[|top| - 1])
  {
    forall x | x in s && x !in top
      ensures top != [] && key(x) <= key(top[|top| - 1])
    {
      assert x in multiset(all);
      BeyondPrefixIsLower(all, key, m, x);
    }
  }

  /** The facts `TopDesc` promises, about the first `m` elements of a descending arrangement of `s`. */
  lemma TopOfSorted<T>(s: seq<T>, key: T -> int, all: seq<T>, m: nat, top: seq<T>)
    requires SortedDesc(all, key) && multiset(all) == multiset(s) && |all| == |s|
    requires m <= |all| && (m == 0 ==> s == []) && top == all[..m]
    ensures SortedDesc(top, key)
    ensures multiset(top) <= multiset(s)
    ensures forall x :: x in s && x !in top ==> top != [] && key(x) <= key(top[|top| - 1])
  {
    PrefixOfSorted(all, key, m);
    if m > 0 {
      PrefixBoundsRest(s, all, key, m, top);
    }
  }

  /** The first `n` elements of the descending order of `s` (all of them when
      there are fewer): the `ORDER BY key DESC LIMIT n` of SQL. */
  function TopDesc<T>(s: seq<T>, key: T -> int, n: nat): (r: seq<T>)
    requires n > 0
    ensures |r| == if |s| < n then |s| else n
    ensures SortedDesc(r, key)
    ensures multiset(r) <= multiset(s)
    ensures forall x :: x in s && x !in r ==> r != [] && key(x) <= key(r[|r| - 1])
  {
    var all := SortDesc(s, key);
    var m := if |all| < n then |all| else n;
    TopOfSorted(s, key, all, m, all[..m]);
    all[..m]
  }
}
