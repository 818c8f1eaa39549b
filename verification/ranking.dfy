/** The read-side orderings (convex/projects.ts, listRelevantDependencies,
    getGithubUserDetail, listGithubInfluence): `Array.prototype.sort` with a
    comparator `key(b) - key(a)`, which puts larger keys first and, being a
    stable sort, keeps rows with equal keys in their stored order. */
module Ranking {
  import opened Common

  /** Places `x` after every element with a larger key and before the rest. */
  function Insert<T>(x: T, s: seq<T>, key: T -> real): (r: seq<T>)
    ensures multiset(r) == multiset(s) + multiset{x}
    ensures |r| == |s| + 1
  {
    if s == [] || key(s[0]) <= key(x) then [x] + s
    else
      assert s == [s[0]] + s[1..];
      [s[0]] + Insert(x, s[1..], key)
  }

  /** Stable sort by descending key. */
  function SortDesc<T>(s: seq<T>, key: T -> real): (r: seq<T>)
    ensures multiset(r) == multiset(s)
    ensures |r| == |s|
  {
    if s == [] then []
    else
      assert s == [s[0]] + s[1..];
      Insert(s[0], SortDesc(s[1..], key), key)
  }

  ghost predicate SortedDesc<T>(s: seq<T>, key: T -> real) {
    forall i, j :: 0 <= i < j < |s| ==> key(s[i]) >= key(s[j])
  }

  /** The elements of `s` whose key is `k`, in order. */
  function WithKey<T>(s: seq<T>, key: T -> real, k: real): seq<T> {
    if s == [] then []
    else (if key(s[0]) == k then [s[0]] else []) + WithKey(s[1..], key, k)
  }

  lemma {:induction false} InsertSorted<T>(x: T, s: seq<T>, key: T -> real)
    requires SortedDesc(s, key)
    ensures SortedDesc(Insert(x, s, key), key)
  {
    if s != [] && key(s[0]) > key(x) {
      InsertSorted(x, s[1..], key);
      var t := Insert(x, s[1..], key);
      assert multiset(t) == multiset(s[1..]) + multiset{x};
      forall j | 0 < j < |t| + 1 ensures key(s[0]) >= key(([s[0]] + t)[j]) {
        var y := t[j - 1];
        assert y in multiset(t);
        if y != x {
          assert y in multiset(s[1..]);
          var m :| 0 <= m < |s[1..]| && s[1..][m] == y;
          assert s[m + 1] == y;
        }
      }
    }
  }

  /** The result is ordered by descending key and is a permutation of the input. */
  lemma {:induction false} SortDescSpec<T>(s: seq<T>, key: T -> real)
    ensures SortedDesc(SortDesc(s, key), key)
    ensures multiset(SortDesc(s, key)) == multiset(s)
  {
    if s != [] {
      SortDescSpec(s[1..], key);
      InsertSorted(s[0], SortDesc(s[1..], key), key);
    }
  }

  lemma {:induction false} InsertWithKey<T>(x: T, s: seq<T>, key: T -> real, k: real)
    ensures WithKey(Insert(x, s, key), key, k) == WithKey([x] + s, key, k)
  {
    if s != [] && key(s[0]) > key(x) {
      var y, tail := s[0], s[1..];
      assert s == [y] + tail;
      var hx := if key(x) == k then [x] else [];
      var hy := if key(y) == k then [y] else [];
      assert hy + hx == hx + hy;
      InsertWithKey(x, tail, key, k);
      WithKeyCons(y, Insert(x, tail, key), key, k);
      WithKeyCons(x, tail, key, k);
      WithKeyCons(x, s, key, k);
      WithKeyCons(y, tail, key, k);
      calc {
        WithKey(Insert(x, s, key), key, k);
        WithKey([y] + Insert(x, tail, key), key, k);
        hy + WithKey([x] + tail, key, k);
        hy + (hx + WithKey(tail, key, k));
        { AppendAssociates(hy, hx, WithKey(tail, key, k)); AppendAssociates(hx, hy, WithKey(tail, key, k)); }
        hx + (hy + WithKey(tail, key, k));
        hx + WithKey(s, key, k);
        WithKey([x] + s, key, k);
      }
    } else {
      assert ([x] + s)[1..] == s;
    }
  }

  lemma WithKeyCons<T>(x: T, s: seq<T>, key: T -> real, k: real)
    ensures WithKey([x] + s, key, k) == (if key(x) == k then [x] else []) + WithKey(s, key, k)
  {
    assert ([x] + s)[1..] == s;
  }

  /** Stability: the rows sharing any one key come out in their input order. */
  lemma {:induction false} SortDescStable<T>(s: seq<T>, key: T -> real, k: real)
    ensures WithKey(SortDesc(s, key), key, k) == WithKey(s, key, k)
  {
    if s != [] {
      SortDescStable(s[1..], key, k);
      InsertWithKey(s[0], SortDesc(s[1..], key), key, k);
      assert ([s[0]] + SortDesc(s[1..], key))[1..] == SortDesc(s[1..], key);
    }
  }
}
