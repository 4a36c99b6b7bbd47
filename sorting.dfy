/**
 * Python's `list.sort(key=...)`, which the assigner calls three times: a stable
 * sort on keys that are pairs of numbers compared lexicographically (a tuple
 * `(a, b)`; a single number `c` is the pair `(c, 0)`).
 */
module Sorting {
  import opened Lists

  datatype SortKey = SortKey(major: real, minor: real)

  /** Python's tuple comparison `a <= b` on two-number keys. */
  predicate KeyLe(a: SortKey, b: SortKey) {
    a.major < b.major || (a.major == b.major && a.minor <= b.minor)
  }

  predicate SortedBy<T>(xs: seq<T>, key: T -> SortKey) {
    forall i, j :: 0 <= i < j < |xs| ==> KeyLe(key(xs[i]), key(xs[j]))
  }

  /** The elements of `xs` whose key is `k`, in their order in `xs`. */
  function WithKey<T>(xs: seq<T>, key: T -> SortKey, k: SortKey): (r: seq<T>)
    ensures |r| <= |xs|
    ensures forall i :: 0 <= i < |r| ==> key(r[i]) == k && r[i] in xs
  {
    if xs == [] then []
    else (if key(xs[0]) == k then [xs[0]] else []) + WithKey(xs[1..], key, k)
  }

  /** Places `x` before the first element whose key is not below its own. */
  function Insert<T>(x: T, xs: seq<T>, key: T -> SortKey): (r: seq<T>)
    ensures |r| == |xs| + 1
    ensures multiset(r) == multiset(xs) + multiset{x}
  {
    if xs == [] || KeyLe(key(x), key(xs[0])) then [x] + xs
    else
      assert xs == [xs[0]] + xs[1..];
      [xs[0]] + Insert(x, xs[1..], key)
  }

  lemma {:induction false} InsertSorted<T>(x: T, xs: seq<T>, key: T -> SortKey)
    requires SortedBy(xs, key)
    ensures SortedBy(Insert(x, xs, key), key)
  {
    var r := Insert(x, xs, key);
    if xs == [] || KeyLe(key(x), key(xs[0])) {
      forall i, j | 0 <= i < j < |r|
        ensures KeyLe(key(r[i]), key(r[j]))
      {
        if i == 0 {
          assert r[j] == xs[j - 1];
          assert j - 1 == 0 || KeyLe(key(xs[0]), key(xs[j - 1]));
        } else {
          assert r[i] == xs[i - 1] && r[j] == xs[j - 1];
        }
      }
    } else {
      var rest := Insert(x, xs[1..], key);
      InsertSorted(x, xs[1..], key);
      assert xs == [xs[0]] + xs[1..];
      forall i, j | 0 <= i < j < |r|
        ensures KeyLe(key(r[i]), key(r[j]))
      {
        if i == 0 {
          var y := rest[j - 1];
          assert y in multiset(rest);
          assert y == x || y in multiset(xs[1..]);
          if y != x {
            var m :| 0 <= m < |xs[1..]| && xs[1..][m] == y;
            assert xs[m + 1] == y;
          }
        } else {
          assert r[i] == rest[i - 1] && r[j] == rest[j - 1];
        }
      }
    }
  }

  /** The stable sort: insertion sort from the back, so that among equal keys the
      earlier element stays in front. */
  function SortBy<T>(xs: seq<T>, key: T -> SortKey): (r: seq<T>)
    ensures |r| == |xs|
    ensures multiset(r) == multiset(xs)
    ensures SortedBy(r, key)
  {
    if xs == [] then []
    else
      assert xs == [xs[0]] + xs[1..];
      var rest := SortBy(xs[1..], key);
      InsertSorted(xs[0], rest, key);
      Insert(xs[0], rest, key)
  }

  lemma {:induction false} InsertWithKey<T>(x: T, xs: seq<T>, key: T -> SortKey, k: SortKey)
    ensures WithKey(Insert(x, xs, key), key, k) == (if key(x) == k then [x] else []) + WithKey(xs, key, k)
  {
    if xs == [] || KeyLe(key(x), key(xs[0])) {
      assert ([x] + xs)[1..] == xs;
    } else {
      var rest := Insert(x, xs[1..], key);
      InsertWithKey(x, xs[1..], key, k);
      assert ([xs[0]] + rest)[0] == xs[0];
      assert ([xs[0]] + rest)[1..] == rest;
      var w := WithKey(xs[1..], key, k);
      if key(x) == k {
        // xs[0] sorts strictly before x, so it does not carry x's key
        assert key(xs[0]) != k;
        assert WithKey(Insert(x, xs, key), key, k) == WithKey(rest, key, k);
        assert WithKey(xs, key, k) == w;
      } else {
        assert WithKey(rest, key, k) == w;
      }
    }
  }

  /** Stability: for every key, the elements carrying it keep their relative order. */
  lemma {:induction false} SortByStable<T>(xs: seq<T>, key: T -> SortKey, k: SortKey)
    ensures WithKey(SortBy(xs, key), key, k) == WithKey(xs, key, k)
  {
    if xs != [] {
      SortByStable(xs[1..], key, k);
      InsertWithKey(xs[0], SortBy(xs[1..], key), key, k);
    }
  }

  /** The first element of the sorted list has the least key, and among the elements
      with that key it is the one that comes first in `xs`. */
  lemma SortByFirst<T>(xs: seq<T>, key: T -> SortKey)
    requires xs != []
    ensures SortBy(xs, key)[0] in xs
    ensures forall y :: y in xs ==> KeyLe(key(SortBy(xs, key)[0]), key(y))
    ensures WithKey(xs, key, key(SortBy(xs, key)[0])) != []
    ensures SortBy(xs, key)[0] == WithKey(xs, key, key(SortBy(xs, key)[0]))[0]
  {
    var s := SortBy(xs, key);
    assert s[0] in multiset(s);
    forall y | y in xs
      ensures KeyLe(key(s[0]), key(y))
    {
      assert y in multiset(xs);
      var j :| 0 <= j < |s| && s[j] == y;
      assert j == 0 || KeyLe(key(s[0]), key(s[j]));
    }
    SortByStable(xs, key, key(s[0]));
    assert s == [s[0]] + s[1..];
  }

  /** Every element of `xs` with key `k` is in `WithKey(xs, key, k)`. */
  lemma {:induction false} WithKeyComplete<T>(xs: seq<T>, key: T -> SortKey, y: T)
    requires y in xs
    ensures y in WithKey(xs, key, key(y))
  {
    if xs[0] != y {
      WithKeyComplete(xs[1..], key, y);
    }
  }

  /** `WithKey` keeps the relative order of what it keeps. */
  lemma {:induction false} WithKeyIncreasing<T>(xs: seq<T>, key: T -> SortKey, k: SortKey, rank: T -> int)
    requires Increasing(xs, rank)
    ensures Increasing(WithKey(xs, key, k), rank)
  {
    if xs != [] {
      assert Increasing(xs[1..], rank);
      WithKeyIncreasing(xs[1..], key, k, rank);
      var w := WithKey(xs[1..], key, k);
      forall y | y in w
        ensures rank(xs[0]) < rank(y)
      {
        var i :| 0 <= i < |w| && w[i] == y;
        var j :| 0 <= j < |xs[1..]| && xs[1..][j] == y;
        assert xs[j + 1] == y;
      }
    }
  }
}
