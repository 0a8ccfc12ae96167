// The engine's in-place heapsort (include/heapsort.h).
//
// `heapsink` works on a 1-based "virtual" view of the array: virtual index
// v is real index v - 1, and the children of v are 2v and 2v + 1.  The
// methods and the functions that specify them keep the source's virtual
// parameters and read the array at `v - 1`.  The heap predicates are stated
// on real indices, where the children of p are 2p + 1 and 2p + 2.  The
// element type is `int` with its built-in `<`, standing for the template's
// `operator<`.
//
// Each method is specified by a function on sequences that follows the
// same steps (Sink, BuildHeap, SortDown); what the source promises (a heap
// after sinking, a sorted permutation after sorting) is proved about those
// functions.
module HeapSort {

  /** Both children of p inside s[..n) are at most v. */
  ghost predicate ChildrenBelow(s: seq<int>, n: int, p: int, v: int)
    requires 0 <= p && n <= |s|
  {
    (2 * p + 1 < n ==> s[2 * p + 1] <= v) && (2 * p + 2 < n ==> s[2 * p + 2] <= v)
  }

  /** p is not smaller than its children inside s[..n). */
  ghost predicate ChildrenBelowSelf(s: seq<int>, n: int, p: int)
    requires 0 <= p && n <= |s|
  {
    2 * p + 1 < n ==> ChildrenBelow(s, n, p, s[p])
  }

  /** Max-heap property for every parent p with lo <= p, inside s[..n). */
  ghost predicate IsHeap(s: seq<int>, lo: int, n: int)
    requires 0 <= lo && n <= |s|
  {
    forall p :: lo <= p < n ==> ChildrenBelowSelf(s, n, p)
  }

  /** The heap property everywhere in [lo, n) except below the parent `hole`. */
  ghost predicate HeapExcept(s: seq<int>, lo: int, n: int, hole: int)
    requires 0 <= lo && n <= |s|
  {
    forall p :: lo <= p < n && p != hole ==> ChildrenBelowSelf(s, n, p)
  }

  /** What holds around the hole c while an element sinks: the heap property
      except below c, and c's children also fit under c's parent `up`. */
  ghost predicate Sinking(s: seq<int>, lo: int, n: int, c: int, up: int)
    requires 0 <= lo <= c <= n <= |s|
  {
    HeapExcept(s, lo, n, c) &&
    (c > lo ==> lo <= up < c && (c == 2 * up + 1 || c == 2 * up + 2) && ChildrenBelow(s, n, c, s[up]))
  }

  ghost predicate SortedRange(s: seq<int>, lo: int, hi: int)
    requires 0 <= lo && hi <= |s|
  {
    forall i, j :: lo <= i < j < hi ==> s[i] <= s[j]
  }

  ghost predicate Sorted(s: seq<int>)
  {
    forall i, j :: 0 <= i < j < |s| ==> s[i] <= s[j]
  }

  /** Swapping the hole with its larger child moves the hole down one level. */
  lemma SinkSwap(s: seq<int>, t: seq<int>, lo: int, n: int, c: int, up: int, j: int)
    requires 0 <= lo <= c < j < n <= |s| && (j == 2 * c + 1 || j == 2 * c + 2)
    requires Sinking(s, lo, n, c, up)
    requires s[c] < s[j] && ChildrenBelow(s, n, c, s[j])
    requires t == s[c := s[j]][j := s[c]]
    ensures Sinking(t, lo, n, j, c)
  {
    forall p | lo <= p < n && p != j
      ensures ChildrenBelowSelf(t, n, p)
    {
      if p == c {
      } else if c > lo && p == up {
        assert ChildrenBelowSelf(s, n, p);
      } else {
        assert ChildrenBelowSelf(s, n, p);
      }
    }
    assert ChildrenBelowSelf(s, n, j);
  }

  /** When the hole's children are below it, the heap is whole again. */
  lemma SinkDone(s: seq<int>, lo: int, n: int, c: int, up: int)
    requires 0 <= lo <= c <= n <= |s|
    requires Sinking(s, lo, n, c, up) && ChildrenBelowSelf(s, n, c)
    ensures IsHeap(s, lo, n)
  {
  }

  /** Exchanging the root with the last heap element leaves a heap below the root. */
  lemma RootSwapKeepsLowerHeap(s: seq<int>, t: seq<int>, i: int)
    requires 0 <= i < |s| && IsHeap(s, 0, i + 1)
    requires t == s[0 := s[i]][i := s[0]]
    ensures IsHeap(t, 1, i)
  {
    forall p | 1 <= p < i
      ensures ChildrenBelowSelf(t, i, p)
    {
      assert ChildrenBelowSelf(s, i + 1, p);
    }
  }

  /** The root of a heap is its largest element. */
  lemma {:induction false} HeapRootIsMax(s: seq<int>, n: int, k: int)
    requires 0 <= k < n <= |s| && IsHeap(s, 0, n)
    ensures s[k] <= s[0]
    decreases k
  {
    if k > 0 {
      var p := (k - 1) / 2;
      assert k == 2 * p + 1 || k == 2 * p + 2;
      assert ChildrenBelowSelf(s, n, p);
      HeapRootIsMax(s, n, p);
    }
  }

  /** s and t agree at every index outside [lo, hi). */
  ghost predicate SameOutside(s: seq<int>, t: seq<int>, lo: int, hi: int)
  {
    |s| == |t| && forall k :: 0 <= k < |s| && !(lo <= k < hi) ==> s[k] == t[k]
  }

  /** Every element of s[lo..hi) is at most b. */
  ghost predicate BoundedBy(s: seq<int>, lo: int, hi: int, b: int)
    requires 0 <= lo && hi <= |s|
  {
    forall k :: lo <= k < hi ==> s[k] <= b
  }

  /** The three-assignment exchange the source writes out by hand. */
  function Swap(s: seq<int>, i: int, j: int): (t: seq<int>)
    requires 0 <= i < |s| && 0 <= j < |s|
    ensures |t| == |s|
  {
    s[i := s[j]][j := s[i]]
  }

  /** The child heapsink compares against: the right one (virtual 2e + 1)
      only when it exists and the left one is smaller. */
  function LargerChild(s: seq<int>, e: int, max: int): (j: int)
    requires 1 <= e && e * 2 < max <= |s| + 1
    ensures j == e * 2 || j == e * 2 + 1
    ensures j < max && s[e * 2 - 1] <= s[j - 1]
    ensures j == e * 2 + 1 ==> s[j - 2] < s[j - 1]
  {
    if e * 2 + 1 < max && s[e * 2 - 1] < s[e * 2] then e * 2 + 1 else e * 2
  }

  /** heapsink on a sequence, with the source's virtual indices. */
  function Sink(s: seq<int>, e: int, max: int): (r: seq<int>)
    requires 1 <= e <= max <= |s| + 1
    ensures |r| == |s|
    decreases max - e
  {
    if e * 2 < max then
      var j := LargerChild(s, e, max);
      if s[e - 1] < s[j - 1] then Sink(Swap(s, e - 1, j - 1), j, max) else s
    else s
  }

  /** Sinking restores the heap below the start index, provided the rest of
      the range already was a heap. */
  lemma {:induction false} SinkRestoresHeap(s: seq<int>, element: int, e: int, max: int, up: int)
    requires 1 <= element <= e <= max <= |s| + 1
    requires Sinking(s, element - 1, max - 1, e - 1, up)
    ensures IsHeap(Sink(s, e, max), element - 1, max - 1)
    decreases max - e
  {
    if e * 2 < max {
      var j := LargerChild(s, e, max);
      assert ChildrenBelow(s, max - 1, e - 1, s[j - 1]);
      if s[e - 1] < s[j - 1] {
        SinkSwap(s, Swap(s, e - 1, j - 1), element - 1, max - 1, e - 1, up, j - 1);
        SinkRestoresHeap(Swap(s, e - 1, j - 1), element, j, max, e - 1);
      } else {
        SinkDone(s, element - 1, max - 1, e - 1, up);
      }
    } else {
      SinkDone(s, element - 1, max - 1, e - 1, up);
    }
  }

  /** An exchange keeps the multiset of elements. */
  lemma SwapPermutes(s: seq<int>, i: int, j: int)
    requires 0 <= i < |s| && 0 <= j < |s|
    ensures multiset(Swap(s, i, j)) == multiset(s)
  {
  }

  /** Sinking only exchanges elements, so it is a permutation. */
  lemma {:induction false} SinkPermutes(s: seq<int>, e: int, max: int)
    requires 1 <= e <= max <= |s| + 1
    ensures multiset(Sink(s, e, max)) == multiset(s)
    decreases max - e
  {
    if e * 2 < max {
      var j := LargerChild(s, e, max);
      if s[e - 1] < s[j - 1] {
        SinkPermutes(Swap(s, e - 1, j - 1), j, max);
        SwapPermutes(s, e - 1, j - 1);
      }
    }
  }

  /** Sinking touches only virtual indices [e, max). */
  lemma {:induction false} SinkStaysInside(s: seq<int>, e: int, max: int)
    requires 1 <= e <= max <= |s| + 1
    ensures SameOutside(Sink(s, e, max), s, e - 1, max - 1)
    decreases max - e
  {
    if e * 2 < max {
      var j := LargerChild(s, e, max);
      if s[e - 1] < s[j - 1] {
        SinkStaysInside(Swap(s, e - 1, j - 1), j, max);
      }
    }
  }

  /** A bound on every element of virtual [e, max) survives sinking. */
  lemma {:induction false} SinkKeepsBound(s: seq<int>, e: int, max: int, b: int)
    requires 1 <= e <= max <= |s| + 1
    requires BoundedBy(s, e - 1, max - 1, b)
    ensures BoundedBy(Sink(s, e, max), e - 1, max - 1, b)
    decreases max - e
  {
    if e * 2 < max {
      var j := LargerChild(s, e, max);
      if s[e - 1] < s[j - 1] {
        SinkKeepsBound(Swap(s, e - 1, j - 1), j, max, b);
        SinkStaysInside(Swap(s, e - 1, j - 1), j, max);
      }
    }
  }

  /** The first parent the build loop sinks: ((size - 1) / 2) with C's
      truncating division, which gives 0 for size 0. */
  function FirstParent(size: int): (i: int)
    requires size >= 0
    ensures 0 <= i <= size
    ensures 2 * (i + 1) + 1 >= size
  {
    if size >= 1 then (size - 1) / 2 else 0
  }

  /** The build loop of heapsort: heapsink(va, i + 1, size + 1) for i down to 0. */
  function BuildHeap(s: seq<int>, i: int): (r: seq<int>)
    requires -1 <= i <= |s|
    ensures |r| == |s|
    decreases i + 1
  {
    if i < 0 then s else BuildHeap(Sink(s, i + 1, |s| + 1), i - 1)
  }

  /** The sort loop of heapsort: swap a[0] with a[i], then heapsink(va, 1, i + 1). */
  function SortDown(s: seq<int>, i: int): (r: seq<int>)
    requires -1 <= i < |s|
    ensures |r| == |s|
    decreases i + 1
  {
    if i < 0 then s else SortDown(Sink(Swap(s, 0, i), 1, i + 1), i - 1)
  }

  /** What heapsort(array, size) leaves in the array. */
  function HeapSorted(s: seq<int>): (r: seq<int>)
    ensures |r| == |s|
  {
    SortDown(BuildHeap(s, FirstParent(|s|)), |s| - 1)
  }

  /** The build loop turns any sequence into a heap, by permutation. */
  lemma {:induction false} BuildHeapMakesHeap(s: seq<int>, i: int)
    requires -1 <= i <= |s|
    requires IsHeap(s, i + 1, |s|)
    ensures IsHeap(BuildHeap(s, i), 0, |s|)
    ensures multiset(BuildHeap(s, i)) == multiset(s)
    decreases i + 1
  {
    if i >= 0 {
      assert Sinking(s, i, |s|, i, 0);
      SinkRestoresHeap(s, i + 1, i + 1, |s| + 1, 0);
      SinkPermutes(s, i + 1, |s| + 1);
      BuildHeapMakesHeap(Sink(s, i + 1, |s| + 1), i - 1);
    }
  }

  /** What the sort loop keeps at index i: a heap in s[..i + 1], a sorted
      tail s[i + 1..], and no heap element above the first tail element. */
  ghost predicate SortInvariant(s: seq<int>, i: int)
    requires -1 <= i < |s|
  {
    IsHeap(s, 0, i + 1) && SortedRange(s, i + 1, |s|) &&
    (i + 1 < |s| ==> BoundedBy(s, 0, i + 1, s[i + 1]))
  }

  /** The element moved to the tail is the heap's largest, and sinking the
      new root keeps every other heap element below it. */
  lemma SortStepOrder(s: seq<int>, t: seq<int>, u: seq<int>, i: int)
    requires 0 <= i < |s| && SortInvariant(s, i)
    requires t == Swap(s, 0, i) && u == Sink(t, 1, i + 1)
    ensures SortedRange(u, i, |u|) && BoundedBy(u, 0, i, u[i])
  {
    forall k | 0 <= k <= i
      ensures s[k] <= s[0]
    {
      HeapRootIsMax(s, i + 1, k);
    }
    assert BoundedBy(t, 0, i, s[0]);
    SinkKeepsBound(t, 1, i + 1, s[0]);
    SinkStaysInside(t, 1, i + 1);
    assert u[i] == s[0];
    assert forall m :: i < m < |u| ==> u[m] == s[m];
  }

  /** One pass of the sort loop keeps its invariant and permutes. */
  lemma SortDownStep(s: seq<int>, i: int)
    requires 0 <= i < |s| && SortInvariant(s, i)
    ensures SortInvariant(Sink(Swap(s, 0, i), 1, i + 1), i - 1)
    ensures multiset(Sink(Swap(s, 0, i), 1, i + 1)) == multiset(s)
  {
    var t := Swap(s, 0, i);
    var u := Sink(t, 1, i + 1);
    SwapPermutes(s, 0, i);
    SinkPermutes(t, 1, i + 1);
    SortStepHeap(s, t, i);
    SortStepOrder(s, t, u, i);
  }

  /** After the root moves to the tail, sinking the new root leaves a heap
      in the shortened range. */
  lemma SortStepHeap(s: seq<int>, t: seq<int>, i: int)
    requires 0 <= i < |s| && IsHeap(s, 0, i + 1)
    requires t == Swap(s, 0, i)
    ensures IsHeap(Sink(t, 1, i + 1), 0, i)
  {
    RootSwapKeepsLowerHeap(s, t, i);
    assert Sinking(t, 0, i, 0, 0);
    SinkRestoresHeap(t, 1, 1, i + 1, 0);
  }

  /** The sort loop sorts any sequence that meets its invariant. */
  lemma {:induction false} SortDownSorts(s: seq<int>, i: int)
    requires -1 <= i < |s| && SortInvariant(s, i)
    ensures Sorted(SortDown(s, i))
    ensures multiset(SortDown(s, i)) == multiset(s)
    decreases i + 1
  {
    if i >= 0 {
      SortDownStep(s, i);
      SortDownSorts(Sink(Swap(s, 0, i), 1, i + 1), i - 1);
    }
  }

  /** heapsort sorts, and only permutes. */
  lemma HeapSortedIsSortedPermutation(s: seq<int>)
    ensures Sorted(HeapSorted(s))
    ensures multiset(HeapSorted(s)) == multiset(s)
  {
    var i := FirstParent(|s|);
    assert IsHeap(s, i + 1, |s|);
    BuildHeapMakesHeap(s, i);
    SortDownSorts(BuildHeap(s, i), |s| - 1);
  }

  /** A sorted permutation is unique, so heapsort's result depends only on
      the multiset of its input. */
  lemma {:induction false} SortedPermutationUnique(s: seq<int>, t: seq<int>)
    requires Sorted(s) && Sorted(t) && multiset(s) == multiset(t)
    ensures s == t
    decreases |s|
  {
    assert |s| == |multiset(s)| == |multiset(t)| == |t|;
    if |s| > 0 {
      assert t[0] in multiset(t) && s[0] in multiset(s);
      SortedHeadIsLeast(s, t[0]);
      SortedHeadIsLeast(t, s[0]);
      SortedTail(s);
      SortedTail(t);
      assert s[0] == t[0];
      assert multiset(s[1..]) == multiset(t[1..]);
      SortedPermutationUnique(s[1..], t[1..]);
      assert s == [s[0]] + s[1..];
      assert t == [t[0]] + t[1..];
    }
  }

  /** Dropping the head of a sorted sequence leaves a sorted sequence
      holding the other elements. */
  lemma SortedTail(s: seq<int>)
    requires Sorted(s) && |s| > 0
    ensures Sorted(s[1..])
    ensures multiset(s[1..]) == multiset(s) - multiset{s[0]}
  {
    assert s == [s[0]] + s[1..];
  }

  /** The first element of a sorted sequence is at most any of its elements. */
  lemma SortedHeadIsLeast(s: seq<int>, x: int)
    requires Sorted(s) && x in multiset(s)
    ensures |s| > 0 && s[0] <= x
  {
    var k :| 0 <= k < |s| && s[k] == x;
  }

  /** Already sorted input, in particular any input of size 0 or 1, is left unchanged. */
  lemma HeapSortedKeepsSorted(s: seq<int>)
    requires Sorted(s)
    ensures HeapSorted(s) == s
  {
    HeapSortedIsSortedPermutation(s);
    SortedPermutationUnique(HeapSorted(s), s);
  }

  /** heapsink(array, element, max): sinks the element at virtual index
      `element`; only virtual indices [element, max) are touched. */
  method HeapSink(a: array<int>, element: int, max: int)
    requires 1 <= element <= max <= a.Length + 1
    modifies a
    ensures a[..] == Sink(old(a[..]), element, max)
  {
    var e := element;
    while e * 2 < max
      invariant element <= e <= max
      invariant Sink(a[..], e, max) == Sink(old(a[..]), element, max)
      decreases max - e
    {
      var j := e * 2;
      if j + 1 < max && a[j - 1] < a[j] {
        j := j + 1;
      }
      if a[e - 1] < a[j - 1] {
        ghost var before := a[..];
        a[e - 1], a[j - 1] := a[j - 1], a[e - 1];
        assert a[..] == Swap(before, e - 1, j - 1);
        assert j == LargerChild(before, e, max);
        assert Sink(before, e, max) == Sink(a[..], j, max);
        e := j;
      } else {
        return;
      }
    }
  }

  /** heapsort(array, size) with size = a.Length.  That the result is the
      sorted permutation of the input is HeapSortedIsSortedPermutation. */
  method Sort(a: array<int>)
    modifies a
    ensures a[..] == HeapSorted(old(a[..]))
  {
    var size := a.Length;
    var i := FirstParent(size);
    ghost var first := i;
    while i >= 0
      invariant -1 <= i <= first
      invariant BuildHeap(a[..], i) == BuildHeap(old(a[..]), first)
    {
      HeapSink(a, i + 1, size + 1);
      i := i - 1;
    }
    ghost var heap := a[..];
    i := size - 1;
    while i >= 0
      invariant -1 <= i < size
      invariant SortDown(a[..], i) == SortDown(heap, size - 1)
    {
      ghost var before := a[..];
      a[0], a[i] := a[i], a[0];
      assert a[..] == Swap(before, 0, i);
      HeapSink(a, 1, i + 1);
      i := i - 1;
    }
  }
}
