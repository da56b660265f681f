/** goofy/sort/util.go and goofy/sort/sort.go: slice helpers and the
    insertion, Shell and heap sorts of a Go slice, in place. A Go slice is a
    window [lo, hi) of a backing array, so each routine takes the array and
    the window; indices inside the slice are offsets from lo. The elements
    are only compared, so they are unbounded integers. */
module GoSort {
  import opened Sorting

  /** s and t have the same length and agree outside [lo, hi). */
  ghost predicate Untouched(s: seq<int>, t: seq<int>, lo: int, hi: int)
  {
    |s| == |t| && forall q :: 0 <= q < |s| && (q < lo || hi <= q) ==> s[q] == t[q]
  }

  lemma UntouchedSameOutside(s: seq<int>, t: seq<int>, lo: int, hi: int)
    requires 0 <= lo <= hi <= |s| && Untouched(s, t, lo, hi)
    ensures SameOutside(s, t, lo, hi)
  {
    assert s[..lo] == t[..lo];
    assert s[hi..] == t[hi..];
  }

  /** The reverse of s. */
  function Reversed(s: seq<int>): (r: seq<int>)
    ensures |r| == |s|
    ensures forall i :: 0 <= i < |s| ==> r[i] == s[|s| - 1 - i]
  {
    if s == [] then [] else Reversed(s[1..]) + [s[0]]
  }

  /** Reversing twice gives the sequence back. */
  lemma ReversedTwice(s: seq<int>)
    ensures Reversed(Reversed(s)) == s
  {
  }

  /** Reversing keeps the elements. */
  lemma {:induction false} ReversedKeepsMultiset(s: seq<int>)
    ensures multiset(Reversed(s)) == multiset(s)
  {
    if s != [] {
      ReversedKeepsMultiset(s[1..]);
      assert s == [s[0]] + s[1..];
    }
  }

  /** `swap`: a[i] and a[j] trade places; nothing else moves. */
  method Swap(a: array<int>, i: int, j: int)
    requires 0 <= i < a.Length && 0 <= j < a.Length
    modifies a
    ensures a[..] == old(a[..])[i := old(a[j])][j := old(a[i])]
    ensures multiset(a[..]) == multiset(old(a[..]))
  {
    var t := a[i];
    a[i] := a[j];
    a[j] := t;
    SwapKeepsMultiset(old(a[..]), i, j);
  }

  /** The state of the loop of `rev` on [lo, hi) after the swaps below l:
      each pair l' < l and its mirror are exchanged, the rest is as in s0. */
  ghost predicate EndsReversed(s: seq<int>, s0: seq<int>, lo: int, hi: int, l: int)
  {
    |s| == |s0| && 0 <= lo <= l && l - lo <= hi - l && hi <= |s|
    && (forall k :: lo <= k < l ==> s[k] == s0[lo + hi - 1 - k] && s[lo + hi - 1 - k] == s0[k])
    && (forall k :: 0 <= k < |s| && (k < lo || hi <= k || l <= k < lo + hi - l) ==> s[k] == s0[k])
  }

  /** Once the ends meet, the window is reversed. */
  lemma EndsMeet(s: seq<int>, s0: seq<int>, lo: int, hi: int, l: int)
    requires EndsReversed(s, s0, lo, hi, l) && l >= lo + hi - 1 - l
    ensures s[lo..hi] == Reversed(s0[lo..hi]) && Untouched(s, s0, lo, hi)
  {
    forall k | 0 <= k < hi - lo ensures s[lo..hi][k] == Reversed(s0[lo..hi])[k] {
      var m := lo + k;
      if l <= m < lo + hi - l {
        assert m == lo + hi - 1 - m;
      } else if m >= lo + hi - l {
        assert s[lo + hi - 1 - (lo + hi - 1 - m)] == s0[lo + hi - 1 - m];
      }
    }
  }

  /** The swap of `rev` at l and its mirror r. */
  method SwapEnds(a: array<int>, lo: int, hi: int, l: int, r: int, ghost s0: seq<int>)
    requires EndsReversed(a[..], s0, lo, hi, l) && l < r == lo + hi - 1 - l
    modifies a
    ensures EndsReversed(a[..], s0, lo, hi, l + 1)
    ensures multiset(a[..]) == multiset(old(a[..]))
  {
    Swap(a, l, r);
  }

  /** `rev`: the two ends of the slice swap towards the middle. */
  method Rev(a: array<int>, lo: int, hi: int)
    requires 0 <= lo <= hi <= a.Length
    modifies a
    ensures a[lo..hi] == Reversed(old(a[lo..hi]))
    ensures Untouched(a[..], old(a[..]), lo, hi)
    ensures multiset(a[..]) == multiset(old(a[..]))
  {
    var l, r := lo, hi - 1;
    while l < r
      invariant EndsReversed(a[..], old(a[..]), lo, hi, l) && r == lo + hi - 1 - l
      invariant multiset(a[..]) == multiset(old(a[..]))
      decreases r - l
    {
      SwapEnds(a, lo, hi, l, r, old(a[..]));
      l, r := l + 1, r - 1;
    }
    EndsMeet(a[..], old(a[..]), lo, hi, l);
  }

  /** `min`: the smaller argument. */
  function Min(a: int, b: int): (r: int)
    ensures r <= a && r <= b && (r == a || r == b)
  {
    if a < b then a else b
  }

  /** `shiftForward` on the slice starting at lo: a[j], smaller than its
      left neighbour, travels left by adjacent swaps and stops at index k,
      at lo or on an element not above it. The elements it passed move one
      place right. */
  method ShiftForward(a: array<int>, lo: int, j: int) returns (ghost k: int)
    requires 0 <= lo < j < a.Length && a[j] < a[j - 1]
    modifies a
    ensures lo <= k < j && a[k] == old(a[j])
    ensures forall q :: k < q <= j ==> a[q] == old(a[q - 1]) && old(a[j]) < a[q]
    ensures forall q :: 0 <= q < k || j < q < a.Length ==> a[q] == old(a[q])
    ensures k == lo || a[k - 1] <= a[k]
    ensures multiset(a[..]) == multiset(old(a[..]))
  {
    ghost var x := a[j];
    var i := j;
    while true
      invariant lo < i <= j && a[i] == x && a[i] < a[i - 1]
      invariant forall q :: i < q <= j ==> a[q] == old(a[q - 1]) && x < a[q]
      invariant forall q :: 0 <= q < i || j < q < a.Length ==> a[q] == old(a[q])
      invariant multiset(a[..]) == multiset(old(a[..]))
      decreases i
    {
      Swap(a, i, i - 1);
      i := i - 1;
      if i == lo || a[i] >= a[i - 1] {
        break;
      }
    }
    k := i;
  }

  /** Moving s[j] left into the sorted run s[lo..j) the way ShiftForward
      does leaves s[lo..=j] sorted. */
  lemma ShiftedIntoSorted(s: seq<int>, t: seq<int>, lo: int, j: int, k: int)
    requires 0 <= lo <= k < j < |s| == |t| && SortedRange(s, lo, j)
    requires t[k] == s[j] && (k == lo || t[k - 1] <= t[k])
    requires forall q :: k < q <= j ==> t[q] == s[q - 1] && s[j] < t[q]
    requires forall q :: 0 <= q < k ==> t[q] == s[q]
    ensures SortedRange(t, lo, j + 1)
  {
    forall p, q | lo <= p < q < j + 1 ensures t[p] <= t[q] {
      if q < k {
      } else if p < k {
        assert t[p] <= t[k - 1];
      } else if p > k {
        assert t[p] == s[p - 1] && t[q] == s[q - 1];
      }
    }
  }

  /** `InsertionSort` on the slice a[lo:hi]: each element below its left
      neighbour is shifted into the sorted prefix. */
  method InsertionSort(a: array<int>, lo: int, hi: int)
    requires 0 <= lo <= hi <= a.Length
    modifies a
    ensures SortedRange(a[..], lo, hi)
    ensures Untouched(a[..], old(a[..]), lo, hi)
    ensures multiset(a[..]) == multiset(old(a[..]))
  {
    var i := lo + 1;
    while i < hi
      invariant lo + 1 <= i <= hi || hi == lo
      invariant SortedRange(a[..], lo, i)
      invariant Untouched(a[..], old(a[..]), lo, hi)
      invariant multiset(a[..]) == multiset(old(a[..]))
    {
      if a[i] < a[i - 1] {
        ghost var s := a[..];
        ghost var k := ShiftForward(a, lo, i);
        ShiftedIntoSorted(s, a[..], lo, i, k);
      }
      i := i + 1;
    }
  }

  /** s[lo..n) is h-sorted: each element at least h places past lo is at
      least the one h places before it. With h = 1 this is ascending order. */
  ghost predicate GapSorted(s: seq<int>, lo: int, h: int, n: int)
  {
    forall p :: 0 <= lo && 0 < h && lo + h <= p < n <= |s| ==> s[p - h] <= s[p]
  }

  lemma GapOneSorted(s: seq<int>, lo: int, n: int)
    requires 0 <= lo && n <= |s| && GapSorted(s, lo, 1, n)
    ensures SortedRange(s, lo, n)
  {
    forall i | lo <= i && i + 1 < n ensures s[i] <= s[i + 1] {
      assert s[i + 1 - 1] <= s[i + 1];
    }
    if lo <= n {
      AdjacentIsSorted(s, lo, n);
    }
  }

  /** The state of the loop of `shiftForwardStep` before the swap at j: the
      h-gapped order holds in s[lo..=i] except on the two links through j,
      s[j] is below both its chain neighbours, and they are in order. */
  ghost predicate Sinking(s: seq<int>, lo: int, h: int, i: int, j: int)
  {
    0 <= lo && 0 < h && lo + h <= j <= i < |s| && s[j] < s[j - h]
    && (forall p :: lo + h <= p <= i && p != j && p != j + h ==> s[p - h] <= s[p])
    && (j + h <= i ==> s[j] < s[j + h] && s[j - h] <= s[j + h])
  }

  /** One swap of `shiftForwardStep` keeps the state with j one gap lower,
      or ends it with the slice h-sorted through i. */
  lemma SinkStep(s: seq<int>, t: seq<int>, lo: int, h: int, i: int, j: int)
    requires Sinking(s, lo, h, i, j) && t == s[j := s[j - h]][j - h := s[j]]
    ensures j - h - lo < h || t[j - h] >= t[j - h - h] ==> GapSorted(t, lo, h, i + 1)
    ensures j - h - lo >= h && t[j - h] < t[j - h - h] ==> Sinking(t, lo, h, i, j - h)
  {
  }

  /** The swap of `shiftForwardStep` at j, with what it keeps. */
  method SwapSink(a: array<int>, lo: int, h: int, i: int, j: int)
    requires Sinking(a[..], lo, h, i, j)
    modifies a
    ensures j - h - lo < h || a[j - h] >= a[j - h - h] ==> GapSorted(a[..], lo, h, i + 1)
    ensures j - h - lo >= h && a[j - h] < a[j - h - h] ==> Sinking(a[..], lo, h, i, j - h)
    ensures Untouched(a[..], old(a[..]), lo, i + 1)
    ensures multiset(a[..]) == multiset(old(a[..]))
  {
    Swap(a, j, j - h);
    SinkStep(old(a[..]), a[..], lo, h, i, j);
  }

  /** `shiftForwardStep` on the slice starting at lo: like ShiftForward
      along the chain j, j - h, j - 2h, ..., turning an h-sorted a[lo..j)
      into an h-sorted a[lo..=j]. */
  method ShiftForwardStep(a: array<int>, lo: int, j: int, h: int)
    requires 0 <= lo && 0 < h && lo + h <= j < a.Length && a[j] < a[j - h]
    requires GapSorted(a[..], lo, h, j)
    modifies a
    ensures GapSorted(a[..], lo, h, j + 1)
    ensures Untouched(a[..], old(a[..]), lo, j + 1)
    ensures multiset(a[..]) == multiset(old(a[..]))
  {
    var i := j;
    while true
      invariant Sinking(a[..], lo, h, j, i)
      invariant Untouched(a[..], old(a[..]), lo, j + 1)
      invariant multiset(a[..]) == multiset(old(a[..]))
      decreases i
    {
      SwapSink(a, lo, h, j, i);
      i := i - h;
      if i - lo < h || a[i] >= a[i - h] {
        break;
      }
    }
  }

  /** The gaps of `ShellSort`: 0, 1, 4, 13, 40, ..., each three times the
      previous plus one. */
  function Gap(k: nat): (h: nat)
    ensures k > 0 ==> h % 3 == 1 && h / 3 == Gap(k - 1)
  {
    if k == 0 then 0 else 3 * Gap(k - 1) + 1
  }

  /** Dividing a gap by 3 gives the previous one, and the gap before 0 is 1. */
  lemma LastGapIsOne(k: nat)
    requires Gap(k) > 0
    ensures k > 0 && Gap(k) / 3 == Gap(k - 1)
    ensures Gap(k - 1) == 0 ==> Gap(k) == 1
  {
  }

  /** The starting gap of `ShellSort`: the first gap not below n / 3. */
  method StartGap(n: int) returns (h: int, ghost k: nat)
    ensures k > 0 && h == Gap(k) && h >= n / 3
    ensures k == 1 || Gap(k - 1) < n / 3
  {
    h, k := 1, 1;
    while h < n / 3
      invariant k > 0 && h == Gap(k)
      invariant k == 1 || Gap(k - 1) < n / 3
    {
      h, k := h * 3 + 1, k + 1;
    }
  }

  /** One pass of `ShellSort` with gap h: the slice becomes h-sorted. */
  method GapPass(a: array<int>, lo: int, hi: int, h: int)
    requires 0 <= lo <= hi <= a.Length && h > 0
    modifies a
    ensures GapSorted(a[..], lo, h, hi)
    ensures Untouched(a[..], old(a[..]), lo, hi)
    ensures multiset(a[..]) == multiset(old(a[..]))
  {
    var i := lo + h;
    while i < hi
      invariant lo + h <= i && (i <= hi || hi < lo + h)
      invariant GapSorted(a[..], lo, h, i)
      invariant Untouched(a[..], old(a[..]), lo, hi)
      invariant multiset(a[..]) == multiset(old(a[..]))
    {
      if a[i] < a[i - h] {
        ShiftForwardStep(a, lo, i, h);
      }
      i := i + 1;
    }
  }

  /** `ShellSort` on the slice a[lo:hi]: passes with the gaps from the
      starting one down to 1; the last pass has gap 1, so the slice ends
      sorted. */
  method ShellSort(a: array<int>, lo: int, hi: int)
    requires 0 <= lo <= hi <= a.Length
    modifies a
    ensures SortedRange(a[..], lo, hi)
    ensures Untouched(a[..], old(a[..]), lo, hi)
    ensures multiset(a[..]) == multiset(old(a[..]))
  {
    var h, k := StartGap(hi - lo);
    while h >= 1
      invariant h == Gap(k)
      invariant h == 0 ==> GapSorted(a[..], lo, 1, hi)
      invariant Untouched(a[..], old(a[..]), lo, hi)
      invariant multiset(a[..]) == multiset(old(a[..]))
    {
      GapPass(a, lo, hi, h);
      LastGapIsOne(k);
      h, k := h / 3, k - 1;
    }
    GapOneSorted(a[..], lo, hi);
  }

  /** The parent of node c in the implicit binary tree of a heap. */
  function Parent(c: int): (p: int)
    ensures c > 0 ==> 0 <= p < c && (c == 2 * p + 1 || c == 2 * p + 2)
  {
    (c - 1) / 2
  }

  /** The n nodes stored from b on form a max-heap below node lo: no node
      at lo or beyond is smaller than a child. */
  ghost predicate HeapFrom(s: seq<int>, b: int, lo: int, n: int)
  {
    0 <= b && b + n <= |s|
    && forall c :: 0 < c < n && lo <= Parent(c) ==> s[b + c] <= s[b + Parent(c)]
  }

  /** The state of the loop of `siftDown` at node j: heap order below lo
      except on the links from j to its children, which are bounded by the
      parent of j. */
  ghost predicate HeapBut(s: seq<int>, b: int, lo: int, n: int, j: int)
  {
    0 <= b && 0 <= lo <= j && b + n <= |s|
    && (forall c :: 0 < c < n && lo <= Parent(c) && Parent(c) != j ==> s[b + c] <= s[b + Parent(c)])
    && (lo < j ==> forall c :: 0 < c < n && Parent(c) == j ==> s[b + c] <= s[b + Parent(j)])
  }

  /** The children of j lie at 2j + 1 and 2j + 2. */
  lemma Children(j: int, c: int)
    requires 0 <= j && 0 < c
    ensures Parent(c) == j <==> c == 2 * j + 1 || c == 2 * j + 2
  {
  }

  /** Exchanging j with its larger child m, when that child is above j,
      moves the defect down to m. */
  lemma SiftStep(s: seq<int>, t: seq<int>, b: int, lo: int, n: int, j: int, m: int)
    requires HeapBut(s, b, lo, n, j) && 0 < m < n && Parent(m) == j
    requires s[b + j] < s[b + m]
    requires forall c :: 0 < c < n && Parent(c) == j ==> s[b + c] <= s[b + m]
    requires t == s[b + j := s[b + m]][b + m := s[b + j]]
    ensures HeapBut(t, b, lo, n, m)
  {
    forall c | 0 < c < n && lo <= Parent(c) && Parent(c) != m
      ensures t[b + c] <= t[b + Parent(c)]
    {
      if c == j {
        assert t[b + Parent(c)] == s[b + Parent(j)] && t[b + c] == s[b + m];
      }
    }
  }

  /** The child of j that `siftDown` picks: the right one when it exists and
      is larger, otherwise the left one. It is at least both children. */
  lemma LargerChild(s: seq<int>, b: int, n: int, j: int, m: int)
    requires 0 <= b && 0 <= j && 2 * j + 1 < n && b + n <= |s|
    requires m == if 2 * j + 2 < n && s[b + 2 * j + 1] < s[b + 2 * j + 2] then 2 * j + 2 else 2 * j + 1
    ensures Parent(m) == j
    ensures forall c :: 0 < c < n && Parent(c) == j ==> s[b + c] <= s[b + m]
  {
    forall c | 0 < c < n && Parent(c) == j ensures s[b + c] <= s[b + m] {
      Children(j, c);
    }
  }

  /** When j is at least its larger child, or has no children, the defect
      is gone. */
  lemma SiftDone(s: seq<int>, b: int, lo: int, n: int, j: int, m: int)
    requires HeapBut(s, b, lo, n, j)
    requires 2 * j + 1 >= n || (0 <= m < n && s[b + m] <= s[b + j] && forall c :: 0 < c < n && Parent(c) == j ==> s[b + c] <= s[b + m])
    ensures HeapFrom(s, b, lo, n)
  {
    forall c | 0 < c < n && Parent(c) == j ensures s[b + c] <= s[b + j] {
      Children(j, c);
    }
  }

  /** The swap of `siftDown`: node j trades places with its larger child m,
      which is above it. */
  method SwapDown(a: array<int>, b: int, lo: int, n: int, j: int, m: int)
    requires HeapBut(a[..], b, lo, n, j) && 0 < m < n && Parent(m) == j && a[b + j] < a[b + m]
    requires forall c :: 0 < c < n && Parent(c) == j ==> a[b + c] <= a[b + m]
    modifies a
    ensures HeapBut(a[..], b, lo, n, m)
    ensures multiset(a[..]) == multiset(old(a[..]))
    ensures Untouched(a[..], old(a[..]), b + j, b + m + 1)
  {
    Swap(a, b + j, b + m);
    SiftStep(old(a[..]), a[..], b, lo, n, j, m);
  }

  /** `siftDown` on the slice of n elements from b: node i sinks below its
      larger child until it is at least both children, making a heap below
      i out of a heap below i + 1. Only the nodes from i on move. */
  method SiftDown(a: array<int>, b: int, n: int, i: int)
    requires 0 <= b && 0 <= i && b + n <= a.Length && HeapFrom(a[..], b, i + 1, n)
    modifies a
    ensures HeapFrom(a[..], b, i, n)
    ensures multiset(a[..]) == multiset(old(a[..]))
    ensures Untouched(a[..], old(a[..]), b + i, b + n)
  {
    var half := n / 2;
    var j := i;
    while j < half
      invariant HeapBut(a[..], b, i, n, j)
      invariant multiset(a[..]) == multiset(old(a[..]))
      invariant Untouched(a[..], old(a[..]), b + i, b + n)
      decreases n - j
    {
      var left := 2 * j + 1;
      var right := 2 * j + 2;
      if right < n && a[b + left] < a[b + right] {
        left := right;
      }
      LargerChild(a[..], b, n, j, left);
      if left >= n || a[b + j] >= a[b + left] {
        SiftDone(a[..], b, i, n, j, left);
        break;
      }
      SwapDown(a, b, i, n, j, left);
      j := left;
    }
    if j >= half {
      SiftDone(a[..], b, i, n, j, j);
    }
  }

  /** The root of a heap is its largest element. */
  lemma {:induction false} RootIsMax(s: seq<int>, b: int, n: int, k: int)
    requires HeapFrom(s, b, 0, n) && 0 <= k < n
    ensures s[b + k] <= s[b]
    decreases k
  {
    if k > 0 {
      RootIsMax(s, b, n, Parent(k));
    }
  }

  /** The state of the second loop of `HeapSort` on [b, hi) at i: a heap
      on s[b..=b+i], followed by a sorted run whose elements are all at
      least those of the heap. */
  ghost predicate Extracting(s: seq<int>, b: int, hi: int, i: int)
  {
    0 <= b && -1 <= i && b + i < hi <= |s|
    && HeapFrom(s, b, 0, i + 1) && SortedRange(s, b + i + 1, hi)
    && (0 <= i && b + i + 1 < hi ==> forall p :: b <= p <= b + i ==> s[p] <= s[b + i + 1])
  }

  /** Swapping the root of the heap with its last node i puts the largest
      element at b + i, ahead of the sorted run, and leaves a heap below the
      root on s[b..b+i). */
  lemma MaxToEnd(s: seq<int>, t: seq<int>, b: int, hi: int, i: int)
    requires Extracting(s, b, hi, i) && 1 <= i
    requires t == s[b := s[b + i]][b + i := s[b]]
    ensures HeapFrom(t, b, 1, i) && SortedRange(t, b + i, hi)
    ensures forall p :: b <= p < b + i ==> t[p] <= t[b + i]
  {
    forall p | b <= p <= b + i ensures s[p] <= s[b] {
      RootIsMax(s, b, i + 1, p - b);
    }
  }

  /** Rearranging s[b..b+i) into a heap restores the loop state at i - 1. */
  lemma HeapRestored(t: seq<int>, u: seq<int>, b: int, hi: int, i: int)
    requires 0 <= b && 1 <= i && b + i < hi <= |t| && Untouched(u, t, b, b + i)
    requires multiset(u) == multiset(t) && HeapFrom(u, b, 0, i)
    requires SortedRange(t, b + i, hi)
    requires forall p :: b <= p < b + i ==> t[p] <= t[b + i]
    ensures Extracting(u, b, hi, i - 1)
  {
    UntouchedSameOutside(u, t, b, b + i);
    RangeMultiset(u, t, b, b + i);
    UpperBoundKept(u, t, b, b + i, t[b + i]);
  }

  /** One round of the second loop of `HeapSort`: the root, the largest
      element of the heap a[b..=b+i], is swapped to b + i and the heap on
      a[b..b+i) is restored. */
  method MoveMax(a: array<int>, b: int, hi: int, i: int)
    requires Extracting(a[..], b, hi, i) && 1 <= i
    modifies a
    ensures Extracting(a[..], b, hi, i - 1)
    ensures multiset(a[..]) == multiset(old(a[..]))
    ensures Untouched(a[..], old(a[..]), b, hi)
  {
    Swap(a, b, b + i);
    MaxToEnd(old(a[..]), a[..], b, hi, i);
    ghost var t := a[..];
    SiftDown(a, b, i, 0);
    HeapRestored(t, a[..], b, hi, i);
  }

  /** `HeapSort` on the slice a[lo:hi]: sift-downs from the last parent
      build a max-heap; then the maximum is moved to the end of the
      shrinking heap, one at a time. */
  method HeapSort(a: array<int>, lo: int, hi: int)
    requires 0 <= lo <= hi <= a.Length
    modifies a
    ensures SortedRange(a[..], lo, hi)
    ensures Untouched(a[..], old(a[..]), lo, hi)
    ensures multiset(a[..]) == multiset(old(a[..]))
  {
    var n := hi - lo;
    var i := n / 2 - 1;
    NoParentsAbove(a[..], lo, n);
    while i >= 0
      invariant -1 <= i < n
      invariant HeapFrom(a[..], lo, i + 1, n)
      invariant Untouched(a[..], old(a[..]), lo, hi)
      invariant multiset(a[..]) == multiset(old(a[..]))
    {
      SiftDown(a, lo, n, i);
      i := i - 1;
    }
    i := n - 1;
    while i >= 1
      invariant Extracting(a[..], lo, hi, i)
      invariant Untouched(a[..], old(a[..]), lo, hi)
      invariant multiset(a[..]) == multiset(old(a[..]))
    {
      MoveMax(a, lo, hi, i);
      i := i - 1;
    }
    SortedBelowRest(a[..], lo, hi, i);
  }

  /** The second half of a slice holds no parents, so it is a heap. */
  lemma NoParentsAbove(s: seq<int>, b: int, n: int)
    requires 0 <= b && 0 <= n && b + n <= |s|
    ensures HeapFrom(s, b, n / 2, n)
  {
  }

  /** When the heap is down to at most one node, the slice is sorted. */
  lemma SortedBelowRest(s: seq<int>, lo: int, hi: int, i: int)
    requires Extracting(s, lo, hi, i) && i <= 0
    ensures SortedRange(s, lo, hi)
  {
  }
}
