/** Sequence helpers shared by the board, the calendar and the archive page:
    order-preserving filtering and first-match lookup (the behaviour of
    `Array.prototype.filter`, `getElementById` and `querySelector`). */
module Seqs {
  import opened Wrappers

  /** The elements of `s` that satisfy `p`, in their original order.
      Defined from the back so that a loop appending one element at a time
      extends it directly. */
  function Filter<T>(s: seq<T>, p: T -> bool): seq<T>
    decreases |s|
  {
    if |s| == 0 then []
    else Filter(s[..|s| - 1], p) + (if p(s[|s| - 1]) then [s[|s| - 1]] else [])
  }

  /** The positions in `s` of the elements `Filter` keeps. */
  function FilterPositions<T>(s: seq<T>, p: T -> bool): seq<int>
    decreases |s|
  {
    if |s| == 0 then []
    else FilterPositions(s[..|s| - 1], p) + (if p(s[|s| - 1]) then [|s| - 1] else [])
  }

  /** `idx` lists strictly increasing positions of `s` at which the elements of `r` occur:
      `r` is `s` with some elements removed and the rest kept in order. */
  ghost predicate EmbedsAt<T>(r: seq<T>, s: seq<T>, idx: seq<int>) {
    && |idx| == |r|
    && (forall k :: 0 <= k < |idx| ==> 0 <= idx[k] < |s| && s[idx[k]] == r[k])
    && (forall k, l :: 0 <= k < l < |idx| ==> idx[k] < idx[l])
  }

  ghost predicate IsSubsequence<T>(r: seq<T>, s: seq<T>) {
    exists idx :: EmbedsAt(r, s, idx)
  }

  /** Filtering keeps every element the predicate accepts, as often as it occurs,
      and nothing else. */
  lemma {:induction false} FilterCount<T>(s: seq<T>, p: T -> bool, x: T)
    ensures multiset(Filter(s, p))[x] == if p(x) then multiset(s)[x] else 0
    decreases |s|
  {
    if |s| > 0 {
      var init, last := s[..|s| - 1], s[|s| - 1];
      FilterCount(init, p, x);
      assert s == init + [last];
    }
  }

  /** Every kept element satisfies the predicate and comes from `s`; every element of `s`
      that satisfies it is kept. */
  lemma FilterMembers<T>(s: seq<T>, p: T -> bool)
    ensures forall x :: x in Filter(s, p) <==> x in s && p(x)
  {
    forall x
      ensures x in Filter(s, p) <==> x in s && p(x)
    {
      FilterCount(s, p, x);
    }
  }

  /** Filtering keeps the relative order of the elements it keeps. */
  lemma {:induction false} FilterKeepsOrder<T>(s: seq<T>, p: T -> bool)
    ensures EmbedsAt(Filter(s, p), s, FilterPositions(s, p))
    ensures IsSubsequence(Filter(s, p), s)
    decreases |s|
  {
    if |s| > 0 {
      var init := s[..|s| - 1];
      FilterKeepsOrder(init, p);
      var r0, idx0 := Filter(init, p), FilterPositions(init, p);
      assert forall k :: 0 <= k < |idx0| ==> idx0[k] < |init| && s[idx0[k]] == init[idx0[k]];
    }
  }

  /** Filtering with a predicate that rejects everything leaves nothing, and a result with
      no elements means the predicate rejected every element. */
  lemma FilterEmpty<T>(s: seq<T>, p: T -> bool)
    ensures Filter(s, p) == [] <==> forall i :: 0 <= i < |s| ==> !p(s[i])
  {
    FilterMembers(s, p);
    if Filter(s, p) != [] {
      assert Filter(s, p)[0] in Filter(s, p);
    }
  }

  /** The position of the first occurrence of `k` in `s` (how `getElementById` and
      `querySelector` pick among several matching elements). */
  function FirstIndexOf<T(==)>(s: seq<T>, k: T): (r: Option<int>)
    ensures r.Some? ==> 0 <= r.value < |s| && s[r.value] == k
    ensures r.Some? ==> forall j :: 0 <= j < r.value ==> s[j] != k
    ensures r.None? <==> k !in s
    decreases |s|
  {
    if |s| == 0 then None
    else if s[0] == k then Some(0)
    else match FirstIndexOf(s[1..], k)
      case None => None
      case Some(i) => Some(i + 1)
  }

  /** When the elements are pairwise distinct, the first occurrence is the only one. */
  lemma FirstIndexOfDistinct<T>(s: seq<T>, i: int)
    requires forall a, b :: 0 <= a < b < |s| ==> s[a] != s[b]
    requires 0 <= i < |s|
    ensures FirstIndexOf(s, s[i]) == Some(i)
  {
  }
}
