/**
 * The list building loops of the tools: `for x in xs: if p(x): out.append(x)`.
 */
module Lists {

  /** The elements of `xs` that satisfy `p`, in their order in `xs`; defined on the
      last element, as the loop appends. */
  function Filter<T>(xs: seq<T>, p: T -> bool): (r: seq<T>)
    ensures |r| <= |xs|
    ensures forall i :: 0 <= i < |r| ==> p(r[i])
  {
    if xs == [] then [] else Filter(xs[..|xs| - 1], p) + (if p(xs[|xs| - 1]) then [xs[|xs| - 1]] else [])
  }

  /** Filtering keeps exactly the elements that pass. */
  lemma {:induction false} FilterIff<T>(xs: seq<T>, p: T -> bool, x: T)
    ensures x in Filter(xs, p) <==> x in xs && p(x)
  {
    if xs != [] {
      var init := xs[..|xs| - 1];
      FilterIff(init, p, x);
      assert xs == init + [xs[|xs| - 1]];
    }
  }

  /** `rank` strictly increases along `xs`. */
  predicate Increasing<T>(xs: seq<T>, rank: T -> int) {
    forall i, j :: 0 <= i < j < |xs| ==> rank(xs[i]) < rank(xs[j])
  }

  /** Filtering keeps the relative order of the elements it keeps. */
  lemma {:induction false} FilterIncreasing<T>(xs: seq<T>, p: T -> bool, rank: T -> int)
    requires Increasing(xs, rank)
    ensures Increasing(Filter(xs, p), rank)
  {
    if xs != [] {
      var init := xs[..|xs| - 1];
      var last := xs[|xs| - 1];
      assert Increasing(init, rank);
      FilterIncreasing(init, p, rank);
      var f := Filter(init, p);
      forall y | y in f
        ensures rank(y) < rank(last)
      {
        FilterIff(init, p, y);
        var i :| 0 <= i < |init| && init[i] == y;
      }
    }
  }

  /** A weaker test keeps at least as many elements. */
  lemma {:induction false} FilterWeaker<T>(xs: seq<T>, p: T -> bool, q: T -> bool)
    requires forall i :: 0 <= i < |xs| && p(xs[i]) ==> q(xs[i])
    ensures |Filter(xs, p)| <= |Filter(xs, q)|
  {
    if xs != [] {
      var init := xs[..|xs| - 1];
      assert forall i :: 0 <= i < |init| ==> init[i] == xs[i];
      FilterWeaker(init, p, q);
    }
  }

  /** The first element of a list whose rank increases has the least rank. */
  lemma IncreasingFirst<T>(xs: seq<T>, rank: T -> int, y: T)
    requires Increasing(xs, rank) && y in xs
    ensures rank(xs[0]) <= rank(y)
  {
    var j :| 0 <= j < |xs| && xs[j] == y;
  }

  /** `[f(x) for x in xs]`. */
  function Image<T, E>(xs: seq<T>, f: T -> E): (r: seq<E>)
    ensures |r| == |xs| && forall i :: 0 <= i < |xs| ==> r[i] == f(xs[i])
  {
    seq(|xs|, i requires 0 <= i < |xs| => f(xs[i]))
  }

  /** The elements whose `f`-value no earlier element has, in their order: the loop
      that skips an element when its value is already in a `seen` set. Defined on the
      last element. */
  function DedupBy<T, E(==)>(xs: seq<T>, f: T -> E): (r: seq<T>)
    ensures |r| <= |xs|
  {
    if xs == [] then []
    else
      var init := xs[..|xs| - 1];
      var last := xs[|xs| - 1];
      DedupBy(init, f) + (if f(last) in Image(init, f) then [] else [last])
  }

  /** Dedup keeps elements of `xs`, and every value of `xs` still occurs. */
  lemma {:induction false} DedupByCovers<T, E>(xs: seq<T>, f: T -> E)
    ensures forall i :: 0 <= i < |DedupBy(xs, f)| ==> DedupBy(xs, f)[i] in xs
    ensures forall e :: e in Image(DedupBy(xs, f), f) <==> e in Image(xs, f)
  {
    if xs != [] {
      var init := xs[..|xs| - 1];
      var last := xs[|xs| - 1];
      DedupByCovers(init, f);
      assert xs == init + [last];
      assert Image(xs, f) == Image(init, f) + [f(last)];
      var d := DedupBy(init, f);
      if f(last) in Image(init, f) {
        assert DedupBy(xs, f) == d;
      } else {
        assert DedupBy(xs, f) == d + [last];
        assert Image(d + [last], f) == Image(d, f) + [f(last)];
      }
    }
  }

  /** No two kept elements have the same value. */
  lemma {:induction false} DedupByDistinct<T, E>(xs: seq<T>, f: T -> E)
    ensures forall i, j :: 0 <= i < j < |DedupBy(xs, f)| ==> f(DedupBy(xs, f)[i]) != f(DedupBy(xs, f)[j])
  {
    if xs != [] {
      var init := xs[..|xs| - 1];
      var last := xs[|xs| - 1];
      assert xs == init + [last];
      DedupByDistinct(init, f);
      DedupByCovers(init, f);
      var d := DedupBy(init, f);
      if f(last) !in Image(init, f) {
        var r := d + [last];
        assert DedupBy(xs, f) == r;
        forall i, j | 0 <= i < j < |r|
          ensures f(r[i]) != f(r[j])
        {
          if j == |d| {
            assert r[i] == d[i] && r[j] == last;
            assert Image(d, f)[i] == f(d[i]);
            assert f(d[i]) in Image(d, f);
            assert f(d[i]) in Image(init, f);
          } else {
            assert r[i] == d[i] && r[j] == d[j];
          }
        }
      } else {
        assert DedupBy(xs, f) == d;
      }
    }
  }

  /** Appending one element extends the image by its value. */
  lemma ImageAppend<T, E>(xs: seq<T>, x: T, f: T -> E)
    ensures Image(xs + [x], f) == Image(xs, f) + [f(x)]
  {
  }

  /** Appending one element extends the filtered list by that element when it passes. */
  lemma FilterAppend<T>(xs: seq<T>, x: T, p: T -> bool)
    ensures Filter(xs + [x], p) == Filter(xs, p) + (if p(x) then [x] else [])
  {
    assert (xs + [x])[..|xs|] == xs;
  }

  /** Appending one element to the list before the image and the filter. */
  lemma FilterImageAppend<T, E>(xs: seq<T>, x: T, f: T -> E, p: E -> bool)
    ensures Filter(Image(xs + [x], f), p) == Filter(Image(xs, f), p) + (if p(f(x)) then [f(x)] else [])
  {
    ImageAppend(xs, x, f);
    FilterAppend(Image(xs, f), f(x), p);
  }

  /** Filtering twice is filtering once. */
  lemma {:induction false} FilterIdempotent<T>(xs: seq<T>, p: T -> bool)
    ensures Filter(Filter(xs, p), p) == Filter(xs, p)
  {
    if xs != [] {
      var init := xs[..|xs| - 1];
      var last := xs[|xs| - 1];
      FilterIdempotent(init, p);
      if p(last) {
        FilterAppend(Filter(init, p), last, p);
      } else {
        assert Filter(xs, p) == Filter(init, p);
      }
    }
  }

  /** `r` is `xs` with some elements left out, the rest in their order. */
  predicate IsSubsequence<T(==)>(r: seq<T>, xs: seq<T>)
    decreases |xs|
  {
    if r == [] then true
    else if xs == [] then false
    else (r[|r| - 1] == xs[|xs| - 1] && IsSubsequence(r[..|r| - 1], xs[..|xs| - 1]))
         || IsSubsequence(r, xs[..|xs| - 1])
  }

  /** Filtering leaves out elements and moves none. */
  lemma {:induction false} FilterSubsequence<T>(xs: seq<T>, p: T -> bool)
    ensures IsSubsequence(Filter(xs, p), xs)
  {
    if xs != [] {
      var init := xs[..|xs| - 1];
      var last := xs[|xs| - 1];
      FilterSubsequence(init, p);
      var r := Filter(xs, p);
      if p(last) {
        assert r[..|r| - 1] == Filter(init, p);
      } else {
        assert r == Filter(init, p);
      }
    }
  }

  /** Dedup leaves out elements and moves none. */
  lemma {:induction false} DedupBySubsequence<T, E>(xs: seq<T>, f: T -> E)
    ensures IsSubsequence(DedupBy(xs, f), xs)
  {
    if xs != [] {
      var init := xs[..|xs| - 1];
      var last := xs[|xs| - 1];
      DedupBySubsequence(init, f);
      var r := DedupBy(xs, f);
      if f(last) in Image(init, f) {
        assert r == DedupBy(init, f);
      } else {
        assert r[..|r| - 1] == DedupBy(init, f);
      }
    }
  }

  /** An element whose value no earlier element has is kept. */
  lemma {:induction false} DedupByKeepsFirst<T, E>(xs: seq<T>, f: T -> E, i: int)
    requires 0 <= i < |xs| && f(xs[i]) !in Image(xs[..i], f)
    ensures xs[i] in DedupBy(xs, f)
  {
    var init := xs[..|xs| - 1];
    if i == |xs| - 1 {
      assert xs[..i] == init;
    } else {
      assert init[..i] == xs[..i];
      DedupByKeepsFirst(init, f, i);
    }
  }

  /** Every element kept is one whose value no earlier element has. */
  lemma {:induction false} DedupByOnlyFirst<T, E>(xs: seq<T>, f: T -> E, k: int)
    requires 0 <= k < |DedupBy(xs, f)|
    ensures exists i :: 0 <= i < |xs| && xs[i] == DedupBy(xs, f)[k] && f(xs[i]) !in Image(xs[..i], f)
  {
    var init := xs[..|xs| - 1];
    var d := DedupBy(init, f);
    assert DedupBy(xs, f)[..|d|] == d;
    if k < |d| {
      DedupByOnlyFirst(init, f, k);
      var i :| 0 <= i < |init| && init[i] == d[k] && f(init[i]) !in Image(init[..i], f);
      assert xs[..i] == init[..i];
      assert xs[i] == DedupBy(xs, f)[k];
    } else {
      assert xs[..|xs| - 1] == init;
    }
  }

  /** One more element of a prefix. */
  lemma PrefixStep<T>(xs: seq<T>, n: nat)
    requires n < |xs|
    ensures xs[..n + 1] == xs[..n] + [xs[n]]
  {
  }

  /** No element occurs twice. */
  predicate Distinct<T(==)>(xs: seq<T>) {
    forall i, j :: 0 <= i < j < |xs| ==> xs[i] != xs[j]
  }

  /** Filtering a list without repetitions gives one without repetitions. */
  lemma {:induction false} FilterDistinct<T>(xs: seq<T>, p: T -> bool)
    requires Distinct(xs)
    ensures Distinct(Filter(xs, p))
  {
    if xs != [] {
      var init := xs[..|xs| - 1];
      var last := xs[|xs| - 1];
      assert Distinct(init);
      FilterDistinct(init, p);
      var r := Filter(init, p);
      forall y | y in r
        ensures y != last
      {
        FilterIff(init, p, y);
        var i :| 0 <= i < |init| && init[i] == y;
        assert xs[i] == y;
      }
      if p(last) {
        var d := r + [last];
        forall i, j | 0 <= i < j < |d|
          ensures d[i] != d[j]
        {
          assert d[i] == r[i] && r[i] in r;
        }
      }
    }
  }

  /** The values of the deduplicated list are all different. */
  lemma DedupByImageDistinct<T, E>(xs: seq<T>, f: T -> E)
    ensures Distinct(Image(DedupBy(xs, f), f))
  {
    DedupByDistinct(xs, f);
  }

  /** The loop step of `DedupBy`: a new element is kept exactly when its value is new. */
  lemma DedupByAppend<T, E>(xs: seq<T>, x: T, f: T -> E)
    ensures DedupBy(xs + [x], f) == DedupBy(xs, f) + (if f(x) in Image(xs, f) then [] else [x])
  {
    assert (xs + [x])[..|xs|] == xs;
  }

  /** A list whose values are already all different is left as it is. */
  lemma {:induction false} DedupByOfDistinct<T, E>(xs: seq<T>, f: T -> E)
    requires Distinct(Image(xs, f))
    ensures DedupBy(xs, f) == xs
  {
    if xs != [] {
      var init := xs[..|xs| - 1];
      var last := xs[|xs| - 1];
      assert Image(init, f) == Image(xs, f)[..|xs| - 1];
      DedupByOfDistinct(init, f);
      assert f(last) !in Image(init, f) by {
        forall i | 0 <= i < |init|
          ensures Image(init, f)[i] != f(last)
        {
          assert Image(xs, f)[i] != Image(xs, f)[|xs| - 1];
        }
      }
      assert xs == init + [last];
    }
  }

  /** Deduplicating twice is deduplicating once. */
  lemma DedupByIdempotent<T, E>(xs: seq<T>, f: T -> E)
    ensures DedupBy(DedupBy(xs, f), f) == DedupBy(xs, f)
  {
    DedupByImageDistinct(xs, f);
    DedupByOfDistinct(DedupBy(xs, f), f);
  }

  /** The lists `f(x)` for `x` in `xs`, concatenated: a loop that extends its output
      by `f(x)` for each element. */
  function FlatMap<T, E>(xs: seq<T>, f: T -> seq<E>): seq<E> {
    if xs == [] then [] else FlatMap(xs[..|xs| - 1], f) + f(xs[|xs| - 1])
  }

  lemma {:induction false} FlatMapIff<T, E>(xs: seq<T>, f: T -> seq<E>, y: E)
    ensures y in FlatMap(xs, f) <==> exists i :: 0 <= i < |xs| && y in f(xs[i])
  {
    if xs != [] {
      var init := xs[..|xs| - 1];
      FlatMapIff(init, f, y);
      if exists i :: 0 <= i < |xs| && y in f(xs[i]) {
        var i :| 0 <= i < |xs| && y in f(xs[i]);
        if i < |init| {
          assert init[i] == xs[i];
        }
      }
      if exists i :: 0 <= i < |init| && y in f(init[i]) {
        var i :| 0 <= i < |init| && y in f(init[i]);
        assert init[i] == xs[i];
      }
    }
  }

  /** The values of a prefix are a prefix of the values. */
  lemma {:induction false} FlatMapPrefix<T, E>(xs: seq<T>, f: T -> seq<E>, n: nat)
    requires n <= |xs|
    ensures |FlatMap(xs[..n], f)| <= |FlatMap(xs, f)|
    ensures FlatMap(xs, f)[..|FlatMap(xs[..n], f)|] == FlatMap(xs[..n], f)
  {
    if n < |xs| {
      var init := xs[..|xs| - 1];
      assert init[..n] == xs[..n];
      FlatMapPrefix(init, f, n);
    } else {
      assert xs[..n] == xs;
    }
  }

  /** The values of element `i` come right after those of the elements before it. */
  lemma FlatMapAt<T, E>(xs: seq<T>, f: T -> seq<E>, i: nat)
    requires i < |xs|
    ensures var k := |FlatMap(xs[..i], f)|;
            k + |f(xs[i])| <= |FlatMap(xs, f)| && FlatMap(xs, f)[k..k + |f(xs[i])|] == f(xs[i])
  {
    FlatMapPrefix(xs, f, i + 1);
    assert xs[..i + 1][..i] == xs[..i];
  }

  /** An element with a single value gives the value right after those of the elements
      before it. */
  lemma FlatMapSingleAt<T, E>(xs: seq<T>, f: T -> seq<E>, i: nat, y: E)
    requires i < |xs| && f(xs[i]) == [y]
    ensures |FlatMap(xs[..i], f)| < |FlatMap(xs, f)| && FlatMap(xs, f)[|FlatMap(xs[..i], f)|] == y
  {
    FlatMapAt(xs, f, i);
    var k := |FlatMap(xs[..i], f)|;
    assert FlatMap(xs, f)[k..k + 1][0] == y;
  }

  lemma FlatMapAppend<T, E>(xs: seq<T>, x: T, f: T -> seq<E>)
    ensures FlatMap(xs + [x], f) == FlatMap(xs, f) + f(x)
  {
    assert (xs + [x])[..|xs|] == xs;
  }
}
