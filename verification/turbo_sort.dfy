/**
 * The recursive merge sort of the TurboSort exercise, on a segment [lo, hi) of
 * an int array.  The std::async branch runs the same two recursive calls on
 * disjoint halves as the sequential branch, so one sequential recursion models
 * both.  std::sort and std::inplace_merge are library calls; SortSeq and Merge
 * state what they compute, and the array methods write that back in place.
 */
module TurboSort {

  /** Segments shorter than this are handed to std::sort directly. */
  const SerialCutoff: nat := 1000

  predicate Sorted(s: seq<int>) {
    forall i, j :: 0 <= i < j < |s| ==> s[i] <= s[j]
  }

  /** Every element of m is at least x. */
  predicate AllAtLeast(x: int, m: multiset<int>) {
    forall y :: y in m ==> x <= y
  }

  /** A sorted sequence whose first element is at least x has every element at least x. */
  lemma LowerBound(x: int, s: seq<int>)
    requires Sorted(s) && (s != [] ==> x <= s[0])
    ensures AllAtLeast(x, multiset(s))
  {
    forall y | y in multiset(s) ensures x <= y {
      assert y in s;
    }
  }

  /** Putting a lower bound in front of a sorted sequence keeps it sorted. */
  lemma PrependSorted(x: int, t: seq<int>)
    requires Sorted(t) && AllAtLeast(x, multiset(t))
    ensures Sorted([x] + t)
  {
    forall j | 0 <= j < |t| ensures x <= t[j] {
      assert t[j] in multiset(t);
    }
  }

  /** Inserts x before the first element not below it. */
  function Insert(x: int, s: seq<int>): (r: seq<int>)
    ensures multiset(r) == multiset(s) + multiset{x}
  {
    if s == [] || x <= s[0] then [x] + s
    else
      assert s == [s[0]] + s[1..];
      [s[0]] + Insert(x, s[1..])
  }

  lemma {:induction false} InsertSorted(x: int, s: seq<int>)
    requires Sorted(s)
    ensures Sorted(Insert(x, s))
  {
    if s == [] || x <= s[0] {
      LowerBound(x, s);
      PrependSorted(x, s);
    } else {
      var t := Insert(x, s[1..]);
      InsertSorted(x, s[1..]);
      LowerBound(s[0], s[1..]);
      assert AllAtLeast(s[0], multiset(t));
      PrependSorted(s[0], t);
    }
  }

  /** What std::sort leaves in a range: its elements in ascending order. */
  function SortSeq(s: seq<int>): (r: seq<int>)
    ensures Sorted(r) && multiset(r) == multiset(s)
  {
    if s == [] then []
    else
      assert s == [s[0]] + s[1..];
      InsertSorted(s[0], SortSeq(s[1..]));
      Insert(s[0], SortSeq(s[1..]))
  }

  /** What std::inplace_merge leaves in two adjacent ranges: one run, taking from the first range on ties. */
  function Merge(a: seq<int>, b: seq<int>): (r: seq<int>)
    ensures multiset(r) == multiset(a) + multiset(b)
    decreases |a| + |b|
  {
    if a == [] then b
    else if b == [] then a
    else if a[0] <= b[0] then
      assert a == [a[0]] + a[1..];
      [a[0]] + Merge(a[1..], b)
    else
      assert b == [b[0]] + b[1..];
      [b[0]] + Merge(a, b[1..])
  }

  /** Merging two sorted runs gives one sorted run. */
  lemma {:induction false} MergeSortedRuns(a: seq<int>, b: seq<int>)
    requires Sorted(a) && Sorted(b)
    ensures Sorted(Merge(a, b))
    decreases |a| + |b|
  {
    if a != [] && b != [] {
      if a[0] <= b[0] {
        MergeSortedRuns(a[1..], b);
        LowerBound(a[0], a[1..]);
        LowerBound(a[0], b);
        PrependSorted(a[0], Merge(a[1..], b));
      } else {
        MergeSortedRuns(a, b[1..]);
        LowerBound(b[0], a);
        LowerBound(b[0], b[1..]);
        PrependSorted(b[0], Merge(a, b[1..]));
      }
    }
  }

  /** What parallel_merge_sort leaves in a segment holding s. */
  function MergeSorted(s: seq<int>): (r: seq<int>)
    ensures Sorted(r) && multiset(r) == multiset(s)
    decreases |s|
  {
    if |s| < SerialCutoff then SortSeq(s)
    else
      var mid := |s| / 2;
      assert s == s[..mid] + s[mid..];
      MergeSortedRuns(MergeSorted(s[..mid]), MergeSorted(s[mid..]));
      Merge(MergeSorted(s[..mid]), MergeSorted(s[mid..]))
  }

  /** A segment of at least SerialCutoff elements is split at its middle and the sorted halves merged. */
  lemma MergeSortedSplit(s: seq<int>)
    requires |s| >= SerialCutoff
    ensures MergeSorted(s) == Merge(MergeSorted(s[..|s| / 2]), MergeSorted(s[|s| / 2..]))
  {
  }

  /** Two sorted arrangements of one multiset start with the same (least) element. */
  lemma SameHead(a: seq<int>, b: seq<int>)
    requires Sorted(a) && Sorted(b) && multiset(a) == multiset(b) && a != []
    ensures b != [] && a[0] == b[0]
  {
    assert a[0] in multiset(b);
    LowerBound(a[0], a);
    LowerBound(b[0], b);
    assert b[0] in multiset(a);
  }

  /** Removing the same first element from equal multisets leaves equal multisets. */
  lemma SameTail(a: seq<int>, b: seq<int>)
    requires a != [] && b != [] && a[0] == b[0] && multiset(a) == multiset(b)
    ensures multiset(a[1..]) == multiset(b[1..])
  {
    assert a == [a[0]] + a[1..] && b == [b[0]] + b[1..];
    assert multiset(a[1..]) == multiset(a) - multiset{a[0]};
    assert multiset(b[1..]) == multiset(b) - multiset{b[0]};
  }

  /** A sorted arrangement of a multiset is unique. */
  lemma {:induction false} SortedUnique(a: seq<int>, b: seq<int>)
    requires Sorted(a) && Sorted(b) && multiset(a) == multiset(b)
    ensures a == b
    decreases |a|
  {
    if a == [] {
      assert |b| == |multiset(b)| == 0;
    } else {
      SameHead(a, b);
      SameTail(a, b);
      assert Sorted(a[1..]) && Sorted(b[1..]);
      SortedUnique(a[1..], b[1..]);
      assert a == [a[0]] + a[1..] && b == [b[0]] + b[1..];
    }
  }

  /**
   * Whichever halves run asynchronously, the result is what a single std::sort
   * of the whole segment gives.
   */
  lemma MergeSortedIsSort(s: seq<int>)
    ensures MergeSorted(s) == SortSeq(s)
  {
    SortedUnique(MergeSorted(s), SortSeq(s));
  }

  /** Merging two sorted runs that together hold the elements of s gives std::sort's result for s. */
  lemma MergeIsSort(a: seq<int>, b: seq<int>, s: seq<int>)
    requires Sorted(a) && Sorted(b) && multiset(a) + multiset(b) == multiset(s)
    ensures Merge(a, b) == SortSeq(s)
  {
    MergeSortedRuns(a, b);
    SortedUnique(Merge(a, b), SortSeq(s));
  }

  /**
   * The split point does not matter: sorting the two sides of any split of a
   * segment and merging them gives the same run as one std::sort of it.
   */
  lemma MergeAnySplit(s: seq<int>, m: nat)
    requires m <= |s|
    ensures Merge(MergeSorted(s[..m]), MergeSorted(s[m..])) == SortSeq(s)
  {
    assert s == s[..m] + s[m..];
    MergeIsSort(MergeSorted(s[..m]), MergeSorted(s[m..]), s);
  }

  /** B agrees with A everywhere outside [lo, hi). */
  predicate SameOutside(A: seq<int>, B: seq<int>, lo: nat, hi: nat) {
    |A| == |B| && forall i :: 0 <= i < |A| && !(lo <= i < hi) ==> A[i] == B[i]
  }

  /** A segment lying outside [lo, hi) is the same in both. */
  lemma SliceKept(A: seq<int>, B: seq<int>, lo: nat, hi: nat, x: nat, y: nat)
    requires SameOutside(A, B, lo, hi) && x <= y <= |A| && (y <= lo || hi <= x)
    ensures A[x..y] == B[x..y]
  {
  }

  /** Changes inside [lo, mid) and then inside [mid, hi) and then inside [lo, hi) stay inside [lo, hi). */
  lemma SameOutsideSteps(A0: seq<int>, A1: seq<int>, A2: seq<int>, A3: seq<int>, lo: nat, mid: nat, hi: nat)
    requires lo <= mid <= hi
    requires SameOutside(A0, A1, lo, mid) && SameOutside(A1, A2, mid, hi) && SameOutside(A2, A3, lo, hi)
    ensures SameOutside(A0, A3, lo, hi)
  {
  }

  /** std::sort(begin, end) on the segment [lo, hi). */
  method SortRange(a: array<int>, lo: nat, hi: nat)
    requires lo <= hi <= a.Length
    modifies a
    ensures a[lo..hi] == SortSeq(old(a[lo..hi]))
    ensures SameOutside(old(a[..]), a[..], lo, hi)
  {
    var s := SortSeq(a[lo..hi]);
    assert |s| == |multiset(s)| == hi - lo;
    forall i | lo <= i < hi {
      a[i] := s[i - lo];
    }
    assert a[lo..hi] == s;
  }

  /** std::inplace_merge(begin, mid, end) on the adjacent segments [lo, mid) and [mid, hi). */
  method InplaceMerge(a: array<int>, lo: nat, mid: nat, hi: nat)
    requires lo <= mid <= hi <= a.Length
    modifies a
    ensures a[lo..hi] == Merge(old(a[lo..mid]), old(a[mid..hi]))
    ensures SameOutside(old(a[..]), a[..], lo, hi)
  {
    var s := Merge(a[lo..mid], a[mid..hi]);
    assert |s| == |multiset(s)| == hi - lo;
    forall i | lo <= i < hi {
      a[i] := s[i - lo];
    }
    assert a[lo..hi] == s;
  }

  /** parallel_merge_sort(begin, end) on the segment [lo, hi); elements outside it are untouched. */
  method ParallelMergeSort(a: array<int>, lo: nat, hi: nat)
    requires lo <= hi <= a.Length
    modifies a
    ensures a[lo..hi] == MergeSorted(old(a[lo..hi]))
    ensures Sorted(a[lo..hi]) && multiset(a[lo..hi]) == multiset(old(a[lo..hi]))
    ensures SameOutside(old(a[..]), a[..], lo, hi)
    decreases hi - lo
  {
    var len := hi - lo;
    if len < SerialCutoff {
      SortRange(a, lo, hi);
      return;
    }
    var mid := lo + len / 2;
    ghost var s, A0 := a[lo..hi], a[..];
    assert s[..len / 2] == a[lo..mid] && s[len / 2..] == a[mid..hi];
    // Above 100000 elements the first call runs as an async task while the second runs here; the halves are disjoint.
    ParallelMergeSort(a, lo, mid);
    ghost var A1, left := a[..], a[lo..mid];
    SliceKept(A0, A1, lo, mid, mid, hi);
    assert a[mid..hi] == A1[mid..hi] && A0[mid..hi] == s[len / 2..];
    ParallelMergeSort(a, mid, hi);
    ghost var A2, right := a[..], a[mid..hi];
    SliceKept(A1, A2, mid, hi, lo, mid);
    assert a[lo..mid] == A2[lo..mid] && A1[lo..mid] == left;
    InplaceMerge(a, lo, mid, hi);
    assert a[lo..hi] == Merge(left, right);
    SameOutsideSteps(A0, A1, A2, a[..], lo, mid, hi);
    assert |s| == len;
    MergeSortedSplit(s);
  }
}
