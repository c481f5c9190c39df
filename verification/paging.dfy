/**
 * Page arithmetic and the filter/slice steps of a search: which rows match,
 * how many pages they fill, and which rows one page shows.
 */
module Paging {

  function Min(a: int, b: int): int {
    if a <= b then a else b
  }

  /** 0-based index of a 1-based page number; zero and negative pages mean the first page. */
  function PageIndex(page: int): (idx: nat)
    ensures idx + 1 == (if page <= 1 then 1 else page)
  {
    if page <= 1 then 0 else page - 1
  }

  lemma MulMonotonic(a: nat, b: nat, size: nat)
    requires a <= b
    ensures a * size <= b * size
  {
  }

  /** Number of pages of `size` rows needed for `total` rows: the ceiling of total/size. */
  function TotalPages(total: nat, size: nat): (pages: nat)
    requires size > 0
    ensures total <= pages * size
    ensures pages == 0 || (pages - 1) * size < total
  {
    var pages := (total + size - 1) / size;
    var rest := (total + size - 1) % size;
    assert total + size - 1 == pages * size + rest;
    assert (pages - 1) * size == pages * size - size;
    pages
  }

  /** No rows means no pages, and every row lands on some page. */
  lemma TotalPagesZeroIff(total: nat, size: nat)
    requires size > 0
    ensures TotalPages(total, size) == 0 <==> total == 0
  {
  }

  /** The rows of `xs` that `keep` accepts, in their original order. */
  function Filter<T>(xs: seq<T>, keep: T -> bool): (r: seq<T>)
    ensures |r| <= |xs|
    ensures forall i :: 0 <= i < |r| ==> keep(r[i]) && r[i] in xs
    ensures forall i :: 0 <= i < |xs| && keep(xs[i]) ==> xs[i] in r
    decreases |xs|
  {
    if |xs| == 0 then []
    else (if keep(xs[0]) then [xs[0]] else []) + Filter(xs[1..], keep)
  }

  /** Filtering respects concatenation, so it never reorders rows. */
  lemma {:induction false} FilterAppend<T>(a: seq<T>, b: seq<T>, keep: T -> bool)
    ensures Filter(a + b, keep) == Filter(a, keep) + Filter(b, keep)
    decreases |a|
  {
    if |a| == 0 {
      assert a + b == b;
    } else {
      assert (a + b)[1..] == a[1..] + b;
      FilterAppend(a[1..], b, keep);
    }
  }

  /** Filtering with a test that accepts every row changes nothing. */
  lemma {:induction false} FilterKeepAll<T>(xs: seq<T>, keep: T -> bool)
    requires forall i :: 0 <= i < |xs| ==> keep(xs[i])
    ensures Filter(xs, keep) == xs
    decreases |xs|
  {
    if |xs| > 0 {
      FilterKeepAll(xs[1..], keep);
    }
  }

  /** The distinct rows of `xs` that `keep` accepts. */
  function Accepted<T>(xs: seq<T>, keep: T -> bool): set<T> {
    set x | x in xs && keep(x)
  }

  /** Over rows without repeats, the number kept is the number of distinct rows accepted. */
  lemma {:induction false} FilterCountsDistinct<T>(xs: seq<T>, keep: T -> bool)
    requires forall i, j :: 0 <= i < j < |xs| ==> xs[i] != xs[j]
    ensures |Filter(xs, keep)| == |Accepted(xs, keep)|
    decreases |xs|
  {
    if |xs| == 0 {
      assert Accepted(xs, keep) == {};
    } else {
      var rest := Accepted(xs[1..], keep);
      FilterCountsDistinct(xs[1..], keep);
      assert xs[0] !in xs[1..] by {
        forall k | 0 <= k < |xs[1..]|
          ensures xs[1..][k] != xs[0]
        {
          assert xs[1..][k] == xs[k + 1];
        }
      }
      if keep(xs[0]) {
        assert Accepted(xs, keep) == {xs[0]} + rest;
      } else {
        assert Accepted(xs, keep) == rest;
      }
    }
  }

  /** Rows [idx*size, idx*size + size) of `xs`, cut off at the end. */
  function Slice<T>(xs: seq<T>, idx: nat, size: nat): (r: seq<T>)
    requires size > 0
    ensures |xs| <= idx * size ==> r == []
    ensures idx * size < |xs| ==> |r| == Min(size, |xs| - idx * size)
    ensures forall k :: 0 <= k < |r| ==> idx * size + k < |xs| && r[k] == xs[idx * size + k]
  {
    var start := idx * size;
    if |xs| <= start then [] else xs[start..Min(start + size, |xs|)]
  }

  /** A page holds rows exactly when its index is below the page count. */
  lemma SliceNonEmptyIff<T>(xs: seq<T>, idx: nat, size: nat)
    requires size > 0
    ensures Slice(xs, idx, size) != [] <==> idx < TotalPages(|xs|, size)
  {
    var pages := TotalPages(|xs|, size);
    if idx < pages {
      MulMonotonic(idx, pages - 1, size);
    } else {
      MulMonotonic(pages, idx, size);
    }
  }

  /** The first `n` pages, one after the other. */
  function FirstPages<T>(xs: seq<T>, size: nat, n: nat): seq<T>
    requires size > 0
  {
    if n == 0 then [] else FirstPages(xs, size, n - 1) + Slice(xs, n - 1, size)
  }

  lemma {:induction false} FirstPagesIsPrefix<T>(xs: seq<T>, size: nat, n: nat)
    requires size > 0
    ensures FirstPages(xs, size, n) == xs[..Min(n * size, |xs|)]
  {
    if n > 0 {
      FirstPagesIsPrefix(xs, size, n - 1);
      var start := (n - 1) * size;
      assert n * size == start + size;
      if start < |xs| {
        assert xs[..start] + xs[start..Min(start + size, |xs|)] == xs[..Min(start + size, |xs|)];
      }
    }
  }

  /** Walking every page from the first to the last shows every row once, in order. */
  lemma PagesCoverAll<T>(xs: seq<T>, size: nat)
    requires size > 0
    ensures FirstPages(xs, size, TotalPages(|xs|, size)) == xs
  {
    FirstPagesIsPrefix(xs, size, TotalPages(|xs|, size));
  }
}
