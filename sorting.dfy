/**
 * Ascending sort of the fractal prices before they are clustered. The
 * detector sorts its NumPy copy of the prices in place; here that copy is an
 * `array<real>` and the sort is proved to leave exactly `SortSeq` of the old
 * contents, the one sorted permutation of them.
 */
module Sorting {

  /** `s` is in ascending (non-decreasing) order. */
  ghost predicate Sorted(s: seq<real>) {
    forall p, q :: 0 <= p < q < |s| ==> s[p] <= s[q]
  }

  /** Order between neighbours is order throughout. */
  lemma {:induction false} AdjacentSorted(s: seq<real>)
    requires forall k :: 0 < k < |s| ==> s[k - 1] <= s[k]
    ensures Sorted(s)
  {
    if |s| > 1 {
      var init := s[..|s| - 1];
      AdjacentSorted(init);
      forall p, q | 0 <= p < q < |s|
        ensures s[p] <= s[q]
      {
        if q == |s| - 1 && p < q - 1 {
          assert init[p] <= init[q - 1];
        }
      }
    }
  }

  /** A sorted concatenation: both halves are sorted and the first ends below the second's start. */
  lemma SortedConcat(a: seq<real>, b: seq<real>)
    requires Sorted(a + b)
    ensures Sorted(a) && Sorted(b)
    ensures forall p, q :: 0 <= p < |a| && 0 <= q < |b| ==> a[p] <= b[q]
  {
    assert forall p :: 0 <= p < |a| ==> (a + b)[p] == a[p];
    assert forall q :: 0 <= q < |b| ==> (a + b)[|a| + q] == b[q];
  }

  /** `x` placed in front of the first element of `s` that is not below it. */
  function Insert(x: real, s: seq<real>): (r: seq<real>)
    ensures multiset(r) == multiset(s) + multiset{x}
  {
    if s == [] then [x]
    else if x <= s[0] then [x] + s
    else
      assert s == [s[0]] + s[1..];
      [s[0]] + Insert(x, s[1..])
  }

  lemma {:induction false} InsertSorted(x: real, s: seq<real>)
    requires Sorted(s)
    ensures Sorted(Insert(x, s))
  {
    if s != [] && x > s[0] {
      var rest := Insert(x, s[1..]);
      InsertSorted(x, s[1..]);
      assert s == [s[0]] + s[1..];
      forall q | 0 <= q < |rest|
        ensures s[0] <= rest[q]
      {
        assert rest[q] in multiset(s[1..]) + multiset{x};
      }
    }
  }

  /** The ascending rearrangement of `s` (insertion sort, as a reference definition). */
  function SortSeq(s: seq<real>): (r: seq<real>)
    ensures Sorted(r)
    ensures multiset(r) == multiset(s)
  {
    if s == [] then []
    else
      assert s == [s[0]] + s[1..];
      InsertSorted(s[0], SortSeq(s[1..]));
      Insert(s[0], SortSeq(s[1..]))
  }

  /** Two sorted sequences with the same elements are equal: sorting has one answer. */
  lemma {:induction false} SortedUnique(s: seq<real>, t: seq<real>)
    requires Sorted(s) && Sorted(t)
    requires multiset(s) == multiset(t)
    ensures s == t
  {
    if s == [] {
      assert |t| == |multiset(t)| == 0;
    } else {
      assert |t| == |multiset(t)| == |multiset(s)| == |s|;
      assert s == [s[0]] + s[1..];
      assert t == [t[0]] + t[1..];
      assert s[0] in multiset(t);
      assert t[0] in multiset(s);
      assert t[0] <= s[0] by {
        var k :| 0 <= k < |t| && t[k] == s[0];
      }
      assert s[0] <= t[0] by {
        var k :| 0 <= k < |s| && s[k] == t[0];
      }
      assert multiset(s[1..]) == multiset(t[1..]) by {
        assert multiset(s[1..]) == multiset(s) - multiset{s[0]};
        assert multiset(t[1..]) == multiset(t) - multiset{t[0]};
      }
      SortedUnique(s[1..], t[1..]);
    }
  }

  /** Any reordering of the input sorts to the same sequence. */
  lemma SortSeqDependsOnMultiset(s: seq<real>, t: seq<real>)
    requires multiset(s) == multiset(t)
    ensures SortSeq(s) == SortSeq(t)
  {
    SortedUnique(SortSeq(s), SortSeq(t));
  }

  method Swap(a: array<real>, i: int, j: int)
    requires 0 <= i < a.Length && 0 <= j < a.Length
    modifies a
    ensures a[i] == old(a[j]) && a[j] == old(a[i])
    ensures forall m :: 0 <= m < a.Length && m != i && m != j ==> a[m] == old(a[m])
    ensures multiset(a[..]) == old(multiset(a[..]))
  {
    a[i], a[j] := a[j], a[i];
  }

  /** In-place ascending sort of `a`, the model of `levels_array.sort()`. */
  method SortInPlace(a: array<real>)
    modifies a
    ensures a[..] == SortSeq(old(a[..]))
  {
    var i := 0;
    while i < a.Length
      invariant 0 <= i <= a.Length
      invariant forall p, q :: 0 <= p < q < i ==> a[p] <= a[q]
      invariant multiset(a[..]) == old(multiset(a[..]))
    {
      var j := i;
      while j > 0 && a[j - 1] > a[j]
        invariant 0 <= j <= i
        invariant forall p, q :: 0 <= p < q <= i && p != j && q != j ==> a[p] <= a[q]
        invariant forall q :: j < q <= i ==> a[j] <= a[q]
        invariant multiset(a[..]) == old(multiset(a[..]))
      {
        Swap(a, j - 1, j);
        j := j - 1;
      }
      i := i + 1;
    }
    SortedUnique(a[..], SortSeq(old(a[..])));
  }
}
