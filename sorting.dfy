/** The reference for the polygon filler's in-place node sort: an insertion
    sort on sequences, the fact that a sorted permutation is unique, and the
    inversion count that bounds the number of swaps. */
module Sorting {

  predicate Sorted(s: seq<int>)
  {
    forall i, j | 0 <= i < j < |s| :: s[i] <= s[j]
  }

  function Insert(x: int, s: seq<int>): (r: seq<int>)
    requires Sorted(s)
    ensures Sorted(r) && multiset(r) == multiset(s) + multiset{x}
  {
    if s == [] then [x]
    else if x <= s[0] then [x] + s
    else
      var rest := Insert(x, s[1..]);
      assert s == [s[0]] + s[1..];
      BoundedBelow(s[0], x, s[1..], rest);
      SortedCons(s[0], rest);
      [s[0]] + rest
  }

  /** A lower bound of `t` and of `x` bounds every element of a
      rearrangement of `t` with `x` added. */
  lemma BoundedBelow(a: int, x: int, t: seq<int>, r: seq<int>)
    requires a <= x && (forall k | 0 <= k < |t| :: a <= t[k]) && multiset(r) == multiset(t) + multiset{x}
    ensures forall k | 0 <= k < |r| :: a <= r[k]
  {
    forall k | 0 <= k < |r| ensures a <= r[k] {
      assert r[k] in multiset(r);
      if r[k] != x {
        assert r[k] in multiset(t);
      }
    }
  }

  /** A sorted sequence stays sorted with a lower bound of its elements put
      in front. */
  lemma SortedCons(a: int, r: seq<int>)
    requires Sorted(r) && forall k | 0 <= k < |r| :: a <= r[k]
    ensures Sorted([a] + r)
  {
  }

  /** The sorted permutation of `s`. */
  function Sort(s: seq<int>): (r: seq<int>)
    ensures Sorted(r) && multiset(r) == multiset(s)
  {
    if s == [] then []
    else
      assert s == [s[0]] + s[1..];
      Insert(s[0], Sort(s[1..]))
  }

  /** Two sorted sequences with the same elements are equal: any sort of `s`
      produces `Sort(s)`. */
  lemma {:induction false} SortedUnique(a: seq<int>, b: seq<int>)
    requires Sorted(a) && Sorted(b) && multiset(a) == multiset(b)
    ensures a == b
  {
    assert |a| == |multiset(a)| == |multiset(b)| == |b|;
    if a != [] {
      HeadsEqual(a, b);
      DropHead(a);
      DropHead(b);
      SortedUnique(a[1..], b[1..]);
    }
  }

  /** Sorted sequences with the same elements start with the same least one. */
  lemma HeadsEqual(a: seq<int>, b: seq<int>)
    requires Sorted(a) && Sorted(b) && multiset(a) == multiset(b) && |a| > 0 && |b| > 0
    ensures a[0] == b[0]
  {
    assert a[0] in multiset(b) && b[0] in multiset(a);
  }

  /** The tail of a sorted sequence is sorted and holds all but its head. */
  lemma DropHead(s: seq<int>)
    requires Sorted(s) && |s| > 0
    ensures Sorted(s[1..]) && s == [s[0]] + s[1..]
    ensures multiset(s[1..]) == multiset(s) - multiset{s[0]}
  {
    assert s == [s[0]] + s[1..];
  }

  /** The first `k` elements of `s` are in order. */
  predicate SortedUpTo(s: seq<int>, k: int)
    requires 0 <= k <= |s|
  {
    forall i, j | 0 <= i < j < k :: s[i] <= s[j]
  }

  /** An in-order neighbour extends the sorted prefix by one. */
  lemma SortedUpToExtend(s: seq<int>, k: int)
    requires 1 <= k < |s| && SortedUpTo(s, k) && s[k - 1] <= s[k]
    ensures SortedUpTo(s, k + 1)
  {
    forall i, j | 0 <= i < j < k + 1 ensures s[i] <= s[j] {
      if j == k && i < k - 1 {
        assert s[i] <= s[k - 1];
      }
    }
  }

  /** Swapping at `k` leaves the first `k` elements as they were. */
  lemma SortedUpToSwap(s: seq<int>, k: int)
    requires 0 <= k < |s| - 1 && SortedUpTo(s, k + 1)
    ensures SortedUpTo(Swap(s, k), k)
  {
    var r := Swap(s, k);
    assert forall i | 0 <= i < k :: r[i] == s[i];
  }

  /** `s` with the neighbours at `k` and `k + 1` exchanged. */
  function Swap(s: seq<int>, k: int): (r: seq<int>)
    requires 0 <= k < |s| - 1
    ensures |r| == |s| && multiset(r) == multiset(s)
  {
    s[k := s[k + 1]][k + 1 := s[k]]
  }

  /** How many elements of `t` exceed `v`. */
  function Above(t: seq<int>, v: int): nat
  {
    if t == [] then 0 else Above(t[..|t| - 1], v) + (if t[|t| - 1] > v then 1 else 0)
  }

  /** The number of pairs `i < j` with `s[i] > s[j]`. */
  function Inversions(s: seq<int>): nat
  {
    if s == [] then 0 else Inversions(s[..|s| - 1]) + Above(s[..|s| - 1], s[|s| - 1])
  }

  lemma {:induction false} AboveSwap(t: seq<int>, k: int, v: int)
    requires 0 <= k < |t| - 1
    ensures Above(Swap(t, k), v) == Above(t, v)
  {
    var t' := Swap(t, k);
    var n := |t|;
    if k + 1 == n - 1 {
      var u := t[..k];
      assert t[..n - 1] == u + [t[k]] && t[..n - 1][..k] == u;
      assert t'[..n - 1] == u + [t[k + 1]] && t'[..n - 1][..k] == u;
    } else {
      assert t'[..n - 1] == Swap(t[..n - 1], k);
      AboveSwap(t[..n - 1], k, v);
    }
  }

  /** Exchanging an out-of-order pair of neighbours removes exactly one
      inversion. */
  lemma {:induction false} SwapRemovesInversion(s: seq<int>, k: int)
    requires 0 <= k < |s| - 1 && s[k] > s[k + 1]
    ensures Inversions(Swap(s, k)) == Inversions(s) - 1
  {
    var s' := Swap(s, k);
    var n := |s|;
    if k + 1 == n - 1 {
      var t := s[..k];
      var a, b := s[k], s[k + 1];
      assert s[..n - 1] == t + [a] && s[..n - 1][..k] == t;
      assert s'[..n - 1] == t + [b] && s'[..n - 1][..k] == t;
    } else {
      assert s'[..n - 1] == Swap(s[..n - 1], k);
      SwapRemovesInversion(s[..n - 1], k);
      AboveSwap(s[..n - 1], k, s[n - 1]);
    }
  }
}
