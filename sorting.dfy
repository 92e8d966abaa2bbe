/**
 * A stable sort of a sequence by a real-valued key. It stands for both
 * orderings the article store performs: the SQL `ORDER BY rank` of the
 * full-text query (ascending) and Python's `list.sort(key=..., reverse=True)`
 * (a stable descending sort, which is a stable ascending sort on the negated key).
 */
module Sorting {

  /** `s` is in non-decreasing order of `key`. */
  predicate SortedBy<T>(s: seq<T>, key: T -> real) {
    forall i, j :: 0 <= i < j < |s| ==> key(s[i]) <= key(s[j])
  }

  /** Inserts `x` in front of the first element whose key is not smaller, keeping equal keys in arrival order. */
  function InsertBy<T>(x: T, s: seq<T>, key: T -> real): (r: seq<T>)
    requires SortedBy(s, key)
    ensures |r| == |s| + 1
    ensures SortedBy(r, key)
    ensures multiset(r) == multiset(s) + multiset{x}
  {
    if s == [] || key(x) <= key(s[0]) then [x] + s
    else
      var t := InsertBy(x, s[1..], key);
      BoundedByMultiset(key(s[0]), t, s[1..], x, key);
      ConsSorted(s[0], t, key);
      assert s == [s[0]] + s[1..];
      [s[0]] + t
  }

  /** A head no greater than any element of a sorted tail gives a sorted sequence. */
  lemma ConsSorted<T>(h: T, t: seq<T>, key: T -> real)
    requires SortedBy(t, key) && forall k :: 0 <= k < |t| ==> key(h) <= key(t[k])
    ensures SortedBy([h] + t, key)
  {
    var r := [h] + t;
    forall i, j | 0 <= i < j < |r| ensures key(r[i]) <= key(r[j]) {
      assert r[j] == t[j - 1];
      if i > 0 {
        assert r[i] == t[i - 1];
      }
    }
  }

  /** A lower bound on the keys of `s` and of `x` bounds every element of a permutation of them. */
  lemma BoundedByMultiset<T>(lo: real, t: seq<T>, s: seq<T>, x: T, key: T -> real)
    requires multiset(t) == multiset(s) + multiset{x}
    requires lo <= key(x) && forall m :: 0 <= m < |s| ==> lo <= key(s[m])
    ensures forall k :: 0 <= k < |t| ==> lo <= key(t[k])
  {
    forall k | 0 <= k < |t| ensures lo <= key(t[k]) {
      assert t[k] in multiset(t);
      if t[k] != x {
        assert t[k] in multiset(s);
        var m :| 0 <= m < |s| && s[m] == t[k];
      }
    }
  }

  /** Insertion sort: a permutation of `s` in non-decreasing order of `key`. */
  function SortBy<T>(s: seq<T>, key: T -> real): (r: seq<T>)
    ensures |r| == |s|
    ensures SortedBy(r, key)
    ensures multiset(r) == multiset(s)
  {
    if s == [] then []
    else
      assert s == [s[0]] + s[1..];
      InsertBy(s[0], SortBy(s[1..], key), key)
  }

  /** The first `n` elements of a sorted sequence have keys no greater than any element after them. */
  lemma {:induction false} SortedPrefixIsSmallest<T>(s: seq<T>, key: T -> real, n: nat)
    requires SortedBy(s, key) && n <= |s|
    ensures forall i, j :: 0 <= i < n && 0 <= j < |s| - n ==> key(s[..n][i]) <= key(s[n..][j])
  {
    forall i, j | 0 <= i < n && 0 <= j < |s| - n ensures key(s[..n][i]) <= key(s[n..][j]) {
      assert s[..n][i] == s[i] && s[n..][j] == s[n + j];
    }
  }

  /** A prefix of a sorted sequence is sorted. */
  lemma PrefixSorted<T>(s: seq<T>, key: T -> real, n: nat)
    requires SortedBy(s, key) && n <= |s|
    ensures SortedBy(s[..n], key)
  {
    forall i, j | 0 <= i < j < n ensures key(s[..n][i]) <= key(s[..n][j]) {
      assert s[..n][i] == s[i] && s[..n][j] == s[j];
    }
  }

  /** Cutting a sequence in two splits its multiset. */
  lemma SplitMultiset<T>(s: seq<T>, n: nat)
    requires n <= |s|
    ensures multiset(s) == multiset(s[..n]) + multiset(s[n..])
  {
    assert s == s[..n] + s[n..];
  }
}
