// The quicksort test program of Nachos (test/quicksort.c, in the base tree with
// MAX_SIZE 100 and in the Project 2 copy with MAX_SIZE 10): Hoare partitioning around
// the middle element, an explicit stack of (left, right) index pairs in an array of
// MAX_SIZE ints, and an optional reversal for decreasing order.

module QuickSort {
  import opened Wrappers

  const MAX_SIZE: nat := 100
  const MAX_SIZE_PROJECT2: nat := 10

  predicate Sorted(s: seq<int>) {
    forall p, q :: 0 <= p < q < |s| ==> s[p] <= s[q]
  }

  predicate Nonincreasing(s: seq<int>) {
    forall p, q :: 0 <= p < q < |s| ==> s[p] >= s[q]
  }

  /** C's `x / 2`, which truncates toward zero (Dafny's rounds toward minus infinity). */
  function Half(x: int): (h: int)
    ensures x >= 0 ==> 0 <= 2 * h <= x
    ensures x == -1 ==> h == 0
  {
    if x >= 0 then x / 2 else -((-x) / 2)
  }

  // ---------------------------------------------------------------- partition

  /** One partition pass over a[left..right]: the pivot is the middle element, `i` scans
      up past smaller elements, `j` scans down past larger ones, and out-of-place pairs
      are swapped. Afterwards everything before `i` is at most the pivot, everything
      after `j` at least the pivot, and j < i. */
  method Partition(a: array<int>, left: int, right: int) returns (i: int, j: int, pivot: int)
    requires 0 <= left <= right + 1 <= a.Length && left < a.Length
    modifies a
    ensures left <= i <= right + 1 && left - 1 <= j <= right && j < i
    ensures left <= right ==> left < i && j < right
    ensures forall k :: left <= k < i ==> a[k] <= pivot
    ensures forall k :: j < k <= right ==> a[k] >= pivot
    ensures forall k :: 0 <= k < a.Length && !(left <= k <= right) ==> a[k] == old(a[k])
    ensures multiset(a[..]) == multiset(old(a[..]))
  {
    var pivotIndex := left + Half(right - left);
    pivot := a[pivotIndex];
    i, j := left, right;
    // Positions that stop the two scans: one holding at most, one at least the pivot.
    ghost var lo, hi := pivotIndex, pivotIndex;
    while i <= j
      invariant left <= i <= right + 1 && left - 1 <= j <= right && i <= j + 2
      invariant forall k :: left <= k < i ==> a[k] <= pivot
      invariant forall k :: j < k <= right ==> a[k] >= pivot
      invariant i <= j ==>
        (left <= lo <= j && a[lo] <= pivot && i <= hi <= j + 1 && hi <= right && a[hi] >= pivot)
      invariant left <= right ==>
        ((i == left && j == right && lo == pivotIndex && hi == pivotIndex) || (left < i && j < right))
      invariant forall k :: 0 <= k < a.Length && !(left <= k <= right) ==> a[k] == old(a[k])
      invariant multiset(a[..]) == multiset(old(a[..]))
      decreases j - i + 2
    {
      i := ScanUp(a, left, i, hi, pivot);
      j := ScanDown(a, left, right, i, j, lo, pivot);
      if i <= j {
        Swap(a, i, j);
        lo, hi := i, j;
        i, j := i + 1, j - 1;
      }
    }
  }

  /** The three-assignment swap through `temp`. */
  method Swap(a: array<int>, x: int, y: int)
    requires 0 <= x < a.Length && 0 <= y < a.Length
    modifies a
    ensures a[x] == old(a[y]) && a[y] == old(a[x])
    ensures forall k :: 0 <= k < a.Length && k != x && k != y ==> a[k] == old(a[k])
    ensures multiset(a[..]) == multiset(old(a[..]))
  {
    var temp := a[x];
    a[x] := a[y];
    a[y] := temp;
  }

  /** `while (a[i] < pivot) i++;` stops at the first element from i on that is at least
      the pivot, which exists at `hi` or before. */
  method ScanUp(a: array<int>, left: int, i0: int, ghost hi: int, pivot: int) returns (i: int)
    requires 0 <= left <= i0 <= hi < a.Length && a[hi] >= pivot
    requires forall k :: left <= k < i0 ==> a[k] <= pivot
    ensures i0 <= i <= hi && a[i] >= pivot
    ensures forall k :: left <= k < i ==> a[k] <= pivot
  {
    i := i0;
    while a[i] < pivot
      invariant i0 <= i <= hi
      invariant forall k :: left <= k < i ==> a[k] <= pivot
      decreases hi - i
    {
      i := i + 1;
    }
  }

  /** `while (a[j] > pivot) j--;` stops at the first element from j down that is at most
      the pivot: at `lo` at the latest, and never below i - 1 since everything before i
      is at most the pivot. */
  method ScanDown(a: array<int>, left: int, right: int, i: int, j0: int, ghost lo: int, pivot: int) returns (j: int)
    requires 0 <= left <= lo <= j0 <= right < a.Length && i - 1 <= j0 && a[lo] <= pivot
    requires forall k :: left <= k < i ==> a[k] <= pivot
    requires forall k :: j0 < k <= right ==> a[k] >= pivot
    ensures lo <= j <= j0 && i - 1 <= j && a[j] <= pivot
    ensures forall k :: j < k <= right ==> a[k] >= pivot
  {
    j := j0;
    while a[j] > pivot
      invariant lo <= j <= j0 && i - 1 <= j
      invariant forall k :: j < k <= right ==> a[k] >= pivot
      decreases j - lo
    {
      j := j - 1;
    }
  }

  // ---------------------------------------------------------------- the stack invariant

  /** A boundary x between positions x-1 and x: everything before it is at most
      everything from it on. */
  predicate Fence(s: seq<int>, x: int) {
    0 <= x <= |s| && forall p, q :: 0 <= p < x <= q < |s| ==> s[p] <= s[q]
  }

  /** Boundary x is not strictly inside any pending range [left, right]. */
  predicate Settled(segs: seq<(int, int)>, x: int) {
    forall k :: 0 <= k < |segs| ==> !(segs[k].0 < x <= segs[k].1)
  }

  /** Every boundary outside the pending ranges separates smaller from larger elements. */
  predicate Fenced(s: seq<int>, segs: seq<(int, int)>) {
    forall x :: 0 <= x <= |s| && Settled(segs, x) ==> Fence(s, x)
  }

  /** The pending ranges on the stack, bottom first: either the initial [0, n-1], or
      ranges of at least two positions, ordered left to right and disjoint. The k-th
      range starts at 2k or later, which is what bounds the stack. */
  predicate Layout(segs: seq<(int, int)>, n: int) {
    segs == [(0, n - 1)] || Ordered(segs, n)
  }

  /** The stack array holds the ranges as left, right pairs. */
  predicate Stacked(stack: seq<int>, segs: seq<(int, int)>) {
    2 * |segs| <= |stack|
    && forall k :: 0 <= k < |segs| ==> stack[2 * k] == segs[k].0 && stack[2 * k + 1] == segs[k].1
  }

  /** The boundaries still to be settled: the sort's termination measure. */
  function Work(segs: seq<(int, int)>): nat
    decreases |segs|
  {
    if segs == [] then 0 else Work(segs[..|segs| - 1]) + Span(segs[|segs| - 1])
  }

  /** The inner boundaries of one range. */
  function Span(seg: (int, int)): nat {
    if seg.0 < seg.1 then seg.1 - seg.0 else 0
  }

  lemma WorkAppend(segs: seq<(int, int)>, seg: (int, int))
    ensures Work(segs + [seg]) == Work(segs) + Span(seg)
  {
    assert (segs + [seg])[..|segs|] == segs;
  }

  /** The ranges left on the stack after popping `segs`' top range [l, r] and pushing the
      two sides of its partition that still hold two positions or more. */
  function Replaced(segs: seq<(int, int)>, l: int, r: int, i: int, j: int): seq<(int, int)>
    requires segs != []
  {
    segs[..|segs| - 1] + (if l < j then [(l, j)] else []) + (if i < r then [(i, r)] else [])
  }

  /** At most max(1, n/2) ranges are pending, so 2 * max(1, n/2) stack slots suffice. */
  lemma PendingBound(segs: seq<(int, int)>, n: int)
    requires Layout(segs, n)
    ensures |segs| <= 1 || 2 * |segs| <= n
  {
    if |segs| > 1 && segs != [(0, n - 1)] {
      var k := |segs| - 1;
      assert 2 * k <= segs[k].0 < segs[k].1 < n;
    }
  }

  /** Replacing the top range by the sides of its partition keeps the layout. */
  lemma LayoutStep(segs: seq<(int, int)>, n: int, l: int, r: int, i: int, j: int)
    requires Layout(segs, n) && segs != [] && segs[|segs| - 1] == (l, r)
    requires l - 1 <= j < i <= r + 1 && (l <= r ==> l < i && j < r)
    ensures Layout(Replaced(segs, l, r, i, j), n)
  {
    var rest := segs[..|segs| - 1];
    if segs == [(0, n - 1)] {
      assert rest == [];
    } else {
      OrderedPop(segs, n);
    }
    var mid := rest + (if l < j then [(l, j)] else []);
    if l < j {
      OrderedAppend(rest, (l, j), n);
      BelowAppend(rest, (l, j), i);
    } else {
      assert mid == rest;
    }
    assert Below(mid, i) && 2 * |mid| <= i;
    if i < r {
      OrderedAppend(mid, (i, r), n);
    } else {
      assert mid + [] == mid;
    }
  }

  /** The general shape of the layout: ranges of two or more positions, ordered and
      disjoint, the k-th starting at 2k or later. */
  predicate Ordered(segs: seq<(int, int)>, n: int) {
    (forall k :: 0 <= k < |segs| ==> 2 * k <= segs[k].0 < segs[k].1 < n)
    && forall k1, k2 :: 0 <= k1 < k2 < |segs| ==> segs[k1].1 < segs[k2].0
  }

  /** Every range ends before x. */
  predicate Below(segs: seq<(int, int)>, x: int) {
    forall k :: 0 <= k < |segs| ==> segs[k].1 < x
  }

  lemma OrderedPop(segs: seq<(int, int)>, n: int)
    requires Ordered(segs, n) && segs != []
    ensures var m := |segs| - 1;
      Ordered(segs[..m], n) && Below(segs[..m], segs[m].0) && 2 * m <= segs[m].0 < segs[m].1 < n
  {
    var m := |segs| - 1;
    assert forall k :: 0 <= k < m ==> segs[..m][k] == segs[k];
  }

  lemma OrderedAppend(segs: seq<(int, int)>, seg: (int, int), n: int)
    requires Ordered(segs, n) && Below(segs, seg.0) && 2 * |segs| <= seg.0 < seg.1 < n
    ensures Ordered(segs + [seg], n)
  {
    assert forall k :: 0 <= k < |segs| ==> (segs + [seg])[k] == segs[k];
  }

  lemma BelowAppend(segs: seq<(int, int)>, seg: (int, int), x: int)
    requires Below(segs, x) && seg.1 < x
    ensures Below(segs + [seg], x)
  {
    assert forall k :: 0 <= k < |segs| ==> (segs + [seg])[k] == segs[k];
  }

  /** The measure falls: a popped range either leaves nothing behind or is replaced by
      ranges with fewer inner boundaries between them. */
  lemma WorkStep(segs: seq<(int, int)>, l: int, r: int, i: int, j: int)
    requires segs != [] && segs[|segs| - 1] == (l, r)
    requires l - 1 <= j < i <= r + 1 && (l <= r ==> l < i && j < r)
    ensures var next := Replaced(segs, l, r, i, j);
      Work(next) < Work(segs) || (Work(next) == Work(segs) && |next| < |segs|)
  {
    var rest := segs[..|segs| - 1];
    var left := rest + (if l < j then [(l, j)] else []);
    var next := left + (if i < r then [(i, r)] else []);
    assert Replaced(segs, l, r, i, j) == next;
    assert segs == rest + [(l, r)];
    WorkAppend(rest, (l, r));
    if l < j {
      WorkAppend(rest, (l, j));
    } else {
      assert left == rest;
    }
    if i < r {
      WorkAppend(left, (i, r));
    } else {
      assert next == left;
    }
  }

  /** Every element of a range after a permutation confined to it comes from the range. */
  lemma Permuted(s: seq<int>, t: seq<int>, l: int, r: int, q: int)
    requires 0 <= l <= q <= r < |s| == |t|
    requires multiset(t[l..r + 1]) == multiset(s[l..r + 1])
    ensures exists q' :: l <= q' <= r && t[q] == s[q']
  {
    assert t[q] == t[l..r + 1][q - l];
    assert t[q] in multiset(s[l..r + 1]);
    var k :| 0 <= k < r + 1 - l && s[l..r + 1][k] == t[q];
    assert s[l + k] == t[q];
  }

  /** A fence outside the range [l, r] survives a permutation confined to the range. */
  lemma FenceKept(s: seq<int>, t: seq<int>, l: int, r: int, x: int)
    requires 0 <= l <= r + 1 <= |s| == |t|
    requires forall k :: 0 <= k < |s| && !(l <= k <= r) ==> t[k] == s[k]
    requires multiset(t[l..r + 1]) == multiset(s[l..r + 1])
    requires Fence(s, x) && (x <= l || x > r)
    ensures Fence(t, x)
  {
    forall p, q | 0 <= p < x <= q < |t|
      ensures t[p] <= t[q]
    {
      if x <= l {
        if l <= q <= r {
          Permuted(s, t, l, r, q);
          var q' :| l <= q' <= r && t[q] == s[q'];
          assert s[p] <= s[q'];
        } else {
          assert s[p] <= s[q];
        }
      } else {
        if l <= p <= r {
          Permuted(s, t, l, r, p);
          var p' :| l <= p' <= r && t[p] == s[p'];
          assert s[p'] <= s[q];
        } else {
          assert s[p] <= s[q];
        }
      }
    }
  }

  /** A boundary of the partitioned range between j and i is a fence, given that the
      boundaries at both ends of the range were fences. */
  lemma FenceSplit(s: seq<int>, t: seq<int>, l: int, r: int, i: int, j: int, pivot: int, x: int)
    requires 0 <= l <= r + 1 <= |s| == |t|
    requires forall k :: 0 <= k < |s| && !(l <= k <= r) ==> t[k] == s[k]
    requires multiset(t[l..r + 1]) == multiset(s[l..r + 1])
    requires l - 1 <= j < i <= r + 1
    requires forall k :: l <= k < i ==> t[k] <= pivot
    requires forall k :: j < k <= r ==> t[k] >= pivot
    requires Fence(s, l) && Fence(s, r + 1)
    requires l < x <= r && j < x <= i
    ensures Fence(t, x)
  {
    forall p, q | 0 <= p < x <= q < |t|
      ensures t[p] <= t[q]
    {
      if p < l {
        if q <= r {
          Permuted(s, t, l, r, q);
          var q' :| l <= q' <= r && t[q] == s[q'];
          assert s[p] <= s[q'];
        } else {
          assert s[p] <= s[q];
        }
      } else if q <= r {
        assert t[p] <= pivot <= t[q];
      } else {
        Permuted(s, t, l, r, p);
        var p' :| l <= p' <= r && t[p] == s[p'];
        assert s[p'] <= s[q];
      }
    }
  }

  /** Agreement outside [l, r] and equal multisets overall give equal multisets of the
      range. */
  lemma RangeMultiset(s: seq<int>, t: seq<int>, l: int, r: int)
    requires 0 <= l <= r + 1 <= |s| == |t|
    requires forall k :: 0 <= k < |s| && !(l <= k <= r) ==> t[k] == s[k]
    requires multiset(t) == multiset(s)
    ensures multiset(t[l..r + 1]) == multiset(s[l..r + 1])
  {
    ThreeParts(s, l, r);
    ThreeParts(t, l, r);
    assert t[..l] == s[..l];
    assert t[r + 1..] == s[r + 1..];
    Cancel(multiset(t[l..r + 1]), multiset(s[l..r + 1]), multiset(s[..l]) + multiset(s[r + 1..]));
  }

  lemma ThreeParts(s: seq<int>, l: int, r: int)
    requires 0 <= l <= r + 1 <= |s|
    ensures multiset(s) == multiset(s[l..r + 1]) + (multiset(s[..l]) + multiset(s[r + 1..]))
  {
    assert s == s[..l] + s[l..r + 1] + s[r + 1..];
  }

  lemma Cancel(a: multiset<int>, b: multiset<int>, c: multiset<int>)
    requires a + c == b + c
    ensures a == b
  {
    forall v
      ensures a[v] == b[v]
    {
      assert (a + c)[v] == (b + c)[v];
    }
  }

  /** Partitioning the top range and replacing it by its two sides keeps every settled
      boundary a fence. */
  lemma FencedStep(s: seq<int>, t: seq<int>, segs: seq<(int, int)>, l: int, r: int, i: int, j: int, pivot: int)
    requires Layout(segs, |s|) && segs != [] && segs[|segs| - 1] == (l, r)
    requires Fenced(s, segs) && |t| == |s|
    requires l - 1 <= j < i <= r + 1
    requires forall k :: 0 <= k < |s| && !(l <= k <= r) ==> t[k] == s[k]
    requires multiset(t) == multiset(s)
    requires forall k :: l <= k < i ==> t[k] <= pivot
    requires forall k :: j < k <= r ==> t[k] >= pivot
    ensures Fenced(t, Replaced(segs, l, r, i, j))
  {
    var m := |segs| - 1;
    var next := Replaced(segs, l, r, i, j);
    assert 0 <= l && r < |s| by {
      if segs != [(0, |s| - 1)] {
        assert segs[m].0 >= 2 * m && segs[m].1 < |s|;
      }
    }
    RangeMultiset(s, t, l, r);
    // Boundaries at or before l, and after r, were settled before and stay settled.
    forall x | 0 <= x <= |s| && (x <= l || x > r)
      ensures Settled(next, x) ==> Settled(segs, x)
    {
      if Settled(next, x) {
        forall k | 0 <= k < |segs|
          ensures !(segs[k].0 < x <= segs[k].1)
        {
          if k < m {
            assert next[k] == segs[k];
          }
        }
      }
    }
    assert Settled(segs, l) && Settled(segs, r + 1) by {
      forall k | 0 <= k < m
        ensures segs[k].1 < l
      {
        assert segs != [(0, |s| - 1)];
      }
    }
    forall x | 0 <= x <= |t| && Settled(next, x)
      ensures Fence(t, x)
    {
      if x <= l || x > r {
        FenceKept(s, t, l, r, x);
      } else {
        if l < j {
          assert next[m] == (l, j);
        }
        if i < r {
          assert next[|next| - 1] == (i, r);
        }
        FenceSplit(s, t, l, r, i, j, pivot, x);
      }
    }
  }

  /** With no range pending, every boundary is a fence and the sequence is sorted. */
  lemma FencedSorted(s: seq<int>)
    requires Fenced(s, [])
    ensures Sorted(s)
  {
    forall p, q | 0 <= p < q < |s|
      ensures s[p] <= s[q]
    {
      assert Settled([], q);
    }
  }

  // ---------------------------------------------------------------- the sort

  /** The stack loop of quicksort.c: push [0, n-1], then pop a range, partition it and
      push the sides that still hold two elements or more, until the stack is empty. */
  method Sort(a: array<int>, n: int)
    requires 2 <= a.Length && 0 <= n <= a.Length
    modifies a
    ensures Sorted(a[..n])
    ensures multiset(a[..n]) == multiset(old(a[..n]))
    ensures a[n..] == old(a[n..])
  {
    var stack := new int[a.Length];
    var top := -1;
    var left, right := 0, n - 1;
    ghost var segs: seq<(int, int)> := [];
    top := Push(stack, top, left, right, segs);
    segs := [(left, right)];
    while top >= 0
      invariant stack.Length == a.Length && stack != a
      invariant top == 2 * |segs| - 1
      invariant Stacked(stack[..], segs)
      invariant Layout(segs, n)
      invariant Fenced(a[..n], segs)
      invariant forall k :: n <= k < a.Length ==> a[k] == old(a[k])
      invariant multiset(a[..]) == multiset(old(a[..]))
      decreases Work(segs), |segs|
    {
      top, segs := SortStep(a, stack, top, n, segs);
    }
    FencedSorted(a[..n]);
    PrefixMultiset(old(a[..]), a[..], n);
  }

  /** One pass of the stack loop: pop a range, partition it, push its sides. */
  method SortStep(a: array<int>, stack: array<int>, top: int, n: int, ghost segs: seq<(int, int)>)
      returns (top': int, ghost next: seq<(int, int)>)
    requires stack != a && stack.Length == a.Length && 2 <= a.Length && 0 <= n <= a.Length
    requires top == 2 * |segs| - 1 && segs != []
    requires Stacked(stack[..], segs) && Layout(segs, n) && Fenced(a[..n], segs)
    modifies a, stack
    ensures top' == 2 * |next| - 1
    ensures Stacked(stack[..], next) && Layout(next, n) && Fenced(a[..n], next)
    ensures Work(next) < Work(segs) || (Work(next) == Work(segs) && |next| < |segs|)
    ensures forall k :: n <= k < a.Length ==> a[k] == old(a[k])
    ensures multiset(a[..]) == multiset(old(a[..]))
  {
    var left, right;
    left, right, top' := Pop(stack, top, segs);
    TopInRange(segs, n);
    ghost var before := a[..];
    var i, j, pivot := Partition(a, left, right);
    next := Replaced(segs, left, right, i, j);
    PartitionKeepsInvariant(a, before, n, segs, left, right, i, j, pivot);
    top' := PushSides(stack, top', left, right, i, j, segs);
  }

  /** The facts a partition of the top range gives about the array, the stack layout
      and the measure, gathered from the sequence lemmas above. */
  lemma PartitionKeepsInvariant(a: array<int>, before: seq<int>, n: int, segs: seq<(int, int)>,
                                l: int, r: int, i: int, j: int, pivot: int)
    requires 2 <= a.Length == |before| && 0 <= n <= a.Length
    requires Layout(segs, n) && segs != [] && segs[|segs| - 1] == (l, r)
    requires Fenced(before[..n], segs) && 0 <= l <= r + 1 <= n
    requires l - 1 <= j < i <= r + 1 && (l <= r ==> l < i && j < r)
    requires forall k :: l <= k < i ==> a[k] <= pivot
    requires forall k :: j < k <= r ==> a[k] >= pivot
    requires forall k :: 0 <= k < a.Length && !(l <= k <= r) ==> a[k] == before[k]
    requires multiset(a[..]) == multiset(before)
    ensures var next := Replaced(segs, l, r, i, j);
      Layout(next, n) && Fenced(a[..n], next) && 2 * |next| <= a.Length
      && (Work(next) < Work(segs) || (Work(next) == Work(segs) && |next| < |segs|))
    ensures forall k :: n <= k < a.Length ==> a[k] == before[k]
  {
    var t := a[..];
    var next := Replaced(segs, l, r, i, j);
    LayoutStep(segs, n, l, r, i, j);
    WorkStep(segs, l, r, i, j);
    PartitionMultiset(before, t, n, l, r);
    FencedStep(before[..n], t[..n], segs, l, r, i, j, pivot);
    PendingBound(next, n);
  }

  /** `if (left < j) push(left, j); if (i < right) push(i, right);` */
  method PushSides(stack: array<int>, top: int, left: int, right: int, i: int, j: int, ghost segs: seq<(int, int)>)
      returns (top': int)
    requires segs != [] && top == 2 * |segs| - 3 && Stacked(stack[..], segs[..|segs| - 1])
    requires 2 * |Replaced(segs, left, right, i, j)| <= stack.Length
    modifies stack
    ensures top' == 2 * |Replaced(segs, left, right, i, j)| - 1
    ensures Stacked(stack[..], Replaced(segs, left, right, i, j))
  {
    ghost var rest := segs[..|segs| - 1];
    ghost var mid := rest + (if left < j then [(left, j)] else []);
    assert Replaced(segs, left, right, i, j) == mid + (if i < right then [(i, right)] else []);
    top' := top;
    if left < j {
      top' := Push(stack, top', left, j, rest);
    }
    if i < right {
      top' := Push(stack, top', i, right, mid);
    }
  }

  /** `stack[++top] = l; stack[++top] = r;`: push a range onto the index stack. */
  method Push(stack: array<int>, top: int, l: int, r: int, ghost segs: seq<(int, int)>) returns (top': int)
    requires top == 2 * |segs| - 1 && top + 2 < stack.Length && Stacked(stack[..], segs)
    modifies stack
    ensures top' == top + 2 && Stacked(stack[..], segs + [(l, r)])
  {
    top' := top + 1;
    stack[top'] := l;
    top' := top' + 1;
    stack[top'] := r;
    assert forall k :: 0 <= k < |segs| ==> (segs + [(l, r)])[k] == segs[k];
  }

  /** `right = stack[top--]; left = stack[top--];`: pop the top range. */
  method Pop(stack: array<int>, top: int, ghost segs: seq<(int, int)>) returns (l: int, r: int, top': int)
    requires top == 2 * |segs| - 1 && segs != [] && Stacked(stack[..], segs)
    ensures (l, r) == segs[|segs| - 1] && top' == top - 2
    ensures Stacked(stack[..], segs[..|segs| - 1])
  {
    r := stack[top];
    top' := top - 1;
    l := stack[top'];
    top' := top' - 1;
  }

  /** The top range lies in [0, n), or is empty at its start. */
  lemma TopInRange(segs: seq<(int, int)>, n: int)
    requires Layout(segs, n) && segs != [] && 0 <= n
    ensures 0 <= segs[|segs| - 1].0 <= segs[|segs| - 1].1 + 1 <= n
  {
    if segs != [(0, n - 1)] {
      assert segs[|segs| - 1].0 >= 2 * (|segs| - 1);
    }
  }

  /** Equal multisets and equal suffixes from n give equal multisets of the prefixes. */
  lemma PrefixMultiset(s: seq<int>, t: seq<int>, n: int)
    requires 0 <= n <= |s| == |t|
    requires multiset(t) == multiset(s)
    requires forall k :: n <= k < |s| ==> t[k] == s[k]
    ensures multiset(t[..n]) == multiset(s[..n]) && t[n..] == s[n..]
  {
    assert s == s[..n] + s[n..];
    assert t == t[..n] + t[n..];
    assert t[n..] == s[n..];
    Cancel(multiset(t[..n]), multiset(s[..n]), multiset(s[n..]));
  }

  /** What a partition of a range inside [0, n) does to the prefix a[..n]. */
  lemma PartitionMultiset(s: seq<int>, t: seq<int>, n: int, l: int, r: int)
    requires 0 <= l <= r + 1 <= n <= |s| == |t|
    requires forall k :: 0 <= k < |s| && !(l <= k <= r) ==> t[k] == s[k]
    requires multiset(t) == multiset(s)
    ensures forall k :: 0 <= k < n && !(l <= k <= r) ==> t[..n][k] == s[..n][k]
    ensures multiset(t[..n]) == multiset(s[..n])
    ensures t[n..] == s[n..]
  {
    PrefixMultiset(s, t, n);
  }

  // ---------------------------------------------------------------- decreasing order

  function Reversed(s: seq<int>): (r: seq<int>)
    ensures |r| == |s| && forall k :: 0 <= k < |s| ==> r[k] == s[|s| - 1 - k]
    decreases |s|
  {
    if s == [] then [] else [s[|s| - 1]] + Reversed(s[..|s| - 1])
  }

  /** Reversing rearranges the elements and nothing more. */
  lemma {:induction false} ReversedPermutes(s: seq<int>)
    ensures multiset(Reversed(s)) == multiset(s)
    decreases |s|
  {
    if s != [] {
      ReversedPermutes(s[..|s| - 1]);
      assert s == s[..|s| - 1] + [s[|s| - 1]];
    }
  }

  /** A sorted sequence read backwards is nonincreasing. */
  lemma ReversedSortedNonincreasing(s: seq<int>)
    requires Sorted(s)
    ensures Nonincreasing(Reversed(s))
  {
    var r := Reversed(s);
    forall p, q | 0 <= p < q < |r|
      ensures r[p] >= r[q]
    {
      assert r[p] == s[|s| - 1 - p] && r[q] == s[|s| - 1 - q];
    }
  }

  /** The reversal loop for order 2: swap a[i] with a[n-1-i] for i below n/2. */
  method Reverse(a: array<int>, n: int)
    requires 0 <= n <= a.Length
    modifies a
    ensures a[..n] == Reversed(old(a[..n]))
    ensures a[n..] == old(a[n..])
  {
    for i := 0 to n / 2
      invariant forall k :: 0 <= k < i ==> a[k] == old(a[n - 1 - k]) && a[n - 1 - k] == old(a[k])
      invariant forall k :: i <= k < n - i ==> a[k] == old(a[k])
      invariant forall k :: n <= k < a.Length ==> a[k] == old(a[k])
    {
      a[i], a[n - i - 1] := a[n - i - 1], a[i];
    }
    assert forall k :: 0 <= k < n ==> a[..n][k] == Reversed(old(a[..n]))[k];
  }

  /** The program after its inputs are read: sort, then reverse for order 2. */
  method SortInOrder(a: array<int>, n: int, order: int)
    requires 2 <= a.Length && 0 <= n <= a.Length && (order == 1 || order == 2)
    modifies a
    ensures order == 1 ==> Sorted(a[..n])
    ensures order == 2 ==> Nonincreasing(a[..n])
    ensures multiset(a[..n]) == multiset(old(a[..n]))
    ensures a[n..] == old(a[n..])
  {
    Sort(a, n);
    if order == 2 {
      ghost var sorted := a[..n];
      Reverse(a, n);
      ReversedSortedNonincreasing(sorted);
      ReversedPermutes(sorted);
    }
  }

  // ---------------------------------------------------------------- input

  /** The first of the integers read that lies in [lo, hi]; the do-while loops of the
      program read again until one does. */
  function FirstInRange(inputs: seq<int>, lo: int, hi: int): (r: Option<int>)
    ensures r.Some? ==> lo <= r.value <= hi && r.value in inputs
    ensures r.None? <==> forall k :: 0 <= k < |inputs| ==> !(lo <= inputs[k] <= hi)
    decreases |inputs|
  {
    if inputs == [] then None
    else if lo <= inputs[0] <= hi then Some(inputs[0])
    else FirstInRange(inputs[1..], lo, hi)
  }

  /** A do-while input loop: read until the value is in [lo, hi]; None when the inputs run
      out first. */
  method ReadInRange(inputs: seq<int>, lo: int, hi: int) returns (r: Option<int>)
    ensures r == FirstInRange(inputs, lo, hi)
  {
    var k := 0;
    while k < |inputs|
      invariant k <= |inputs|
      invariant FirstInRange(inputs[k..], lo, hi) == FirstInRange(inputs, lo, hi)
    {
      assert inputs[k..][1..] == inputs[k + 1..];
      if lo <= inputs[k] <= hi {
        return Some(inputs[k]);
      }
      k := k + 1;
    }
    return None;
  }

  /** The base program: n is accepted in [0, MAX_SIZE] and the order in {1, 2}; the
      elements read fill a[..n]. */
  method SortTest(a: array<int>, counts: seq<int>, orders: seq<int>) returns (n: Option<int>, order: Option<int>)
    requires a.Length == MAX_SIZE
    modifies a
    ensures n == FirstInRange(counts, 0, MAX_SIZE) && order == FirstInRange(orders, 1, 2)
    ensures n.Some? && order.Some? ==>
      (multiset(a[..n.value]) == multiset(old(a[..n.value]))
       && (order.value == 1 ==> Sorted(a[..n.value]))
       && (order.value == 2 ==> Nonincreasing(a[..n.value])))
    ensures n.None? || order.None? ==> a[..] == old(a[..])
  {
    n := ReadInRange(counts, 0, MAX_SIZE);
    order := ReadInRange(orders, 1, 2);
    if n.Some? && order.Some? {
      SortInOrder(a, n.value, order.value);
    }
  }

  /** The Project 2 program: the same, with MAX_SIZE 10 and n accepted in [1, 10]. */
  method SortProject2(a: array<int>, counts: seq<int>, orders: seq<int>) returns (n: Option<int>, order: Option<int>)
    requires a.Length == MAX_SIZE_PROJECT2
    modifies a
    ensures n == FirstInRange(counts, 1, MAX_SIZE_PROJECT2) && order == FirstInRange(orders, 1, 2)
    ensures n.Some? && order.Some? ==>
      (multiset(a[..n.value]) == multiset(old(a[..n.value]))
       && (order.value == 1 ==> Sorted(a[..n.value]))
       && (order.value == 2 ==> Nonincreasing(a[..n.value])))
    ensures n.None? || order.None? ==> a[..] == old(a[..])
  {
    n := ReadInRange(counts, 1, MAX_SIZE_PROJECT2);
    order := ReadInRange(orders, 1, 2);
    if n.Some? && order.Some? {
      SortInOrder(a, n.value, order.value);
    }
  }
}
