/** goofy/sort/pdqsort.go without `partitionInBlocks` and `partition`
    (those are in pdq_partition.dfy): the random pattern breaker, the
    pivot choice, the partial insertion sort, the equal-element partition
    and the introsort-style loop of `recurse`. As in go_sort.dfy, a Go
    slice is a window [lo, hi) of an array and indices inside the slice are
    offsets from lo. */
module Pdqsort {
  import opened Base
  import opened Sorting
  import opened GoSort
  import opened PdqPartition
  import PseudoRandom

  // ---------------------------------------------------------------------
  // xorshift

  /** `xorshift`: the 32-bit xorshift step with shifts 13, 17 and 5. Zero
      is its only fixed point: a non-zero seed never becomes zero. */
  function Xorshift(seed: bv32): (r: bv32)
    ensures seed != 0 ==> r != 0
  {
    var s1 := seed ^ (seed << 13);
    var s2 := s1 ^ (s1 >> 17);
    s2 ^ (s2 << 5)
  }

  // ---------------------------------------------------------------------
  // shiftBack and partialInsertionSort

  /** `shiftBack` on the slice [lo, hi) from offset j: a[j], larger than
      its right neighbour, travels right by adjacent swaps and stops at k,
      at the last index or before an element not below it. The elements it
      passed move one place left. */
  method ShiftBack(a: array<int>, lo: int, hi: int, j: int) returns (ghost k: int)
    requires 0 <= lo <= j && j + 1 < hi <= a.Length && a[j + 1] < a[j]
    modifies a
    ensures j < k < hi && a[k] == old(a[j])
    ensures forall q :: j <= q < k ==> a[q] == old(a[q + 1]) && a[q] < old(a[j])
    ensures forall q :: 0 <= q < j || k < q < a.Length ==> a[q] == old(a[q])
    ensures k == hi - 1 || a[k] <= a[k + 1]
    ensures multiset(a[..]) == multiset(old(a[..]))
  {
    ghost var x := a[j];
    var i := j;
    while true
      invariant j <= i < hi - 1 && a[i] == x && a[i + 1] < a[i]
      invariant forall q :: j <= q < i ==> a[q] == old(a[q + 1]) && a[q] < x
      invariant forall q :: 0 <= q < j || i < q < a.Length ==> a[q] == old(a[q])
      invariant multiset(a[..]) == multiset(old(a[..]))
      decreases hi - i
    {
      Swap(a, i, i + 1);
      i := i + 1;
      if i == hi - 1 || a[i + 1] >= a[i] {
        break;
      }
    }
    k := i;
  }

  /** `partialInsertionSort` on [lo, hi): at most five out-of-order
      elements are moved into place. It answers true only when the slice
      is sorted, always answers true for a sorted non-empty slice, and
      leaves a slice shorter than 50 alone. */
  method PartialInsertionSort(a: array<int>, lo: int, hi: int) returns (sorted: bool)
    requires 0 <= lo <= hi <= a.Length
    modifies a
    ensures sorted ==> SortedRange(a[..], lo, hi)
    ensures lo < hi && SortedRange(old(a[..]), lo, hi) ==> sorted
    ensures hi - lo < ShortestShifting ==> a[..] == old(a[..])
    ensures Untouched(a[..], old(a[..]), lo, hi)
    ensures multiset(a[..]) == multiset(old(a[..]))
  {
    var i := lo + 1;
    for j := 0 to MaxSteps
      invariant lo + 1 <= i <= hi || (i == lo + 1 && hi == lo)
      invariant SortedRange(a[..], lo, i)
      invariant j == 0 || hi - lo < ShortestShifting ==> a[..] == old(a[..])
      invariant j > 0 ==> !(lo < hi && SortedRange(old(a[..]), lo, hi))
      invariant Untouched(a[..], old(a[..]), lo, hi)
      invariant multiset(a[..]) == multiset(old(a[..]))
    {
      while i < hi && a[i] >= a[i - 1]
        invariant lo + 1 <= i <= hi || (i == lo + 1 && hi == lo)
        invariant SortedRange(a[..], lo, i)
      {
        i := i + 1;
      }
      if i == hi {
        return true;
      }
      if hi - lo < ShortestShifting {
        return false;
      }
      InsertStep(a, lo, hi, i);
    }
    return false;
  }

  const MaxSteps := 5
  const ShortestShifting := 50

  /** One step of `partialInsertionSort` at the first out-of-order offset
      i: a[i] is shifted left into the sorted prefix, and the element that
      lands on i is shifted right while it is above its right neighbour.
      The prefix before i stays sorted. */
  method InsertStep(a: array<int>, lo: int, hi: int, i: int)
    requires 0 <= lo < i < hi <= a.Length && SortedRange(a[..], lo, i) && a[i] < a[i - 1]
    modifies a
    ensures SortedRange(a[..], lo, i)
    ensures Untouched(a[..], old(a[..]), lo, hi)
    ensures multiset(a[..]) == multiset(old(a[..]))
  {
    ghost var s := a[..];
    ghost var k := ShiftForward(a, lo, i);
    ShiftedIntoSorted(s, a[..], lo, i, k);
    if i + 1 < hi && a[i + 1] < a[i] {
      ghost var t := a[..];
      ghost var m := ShiftBack(a, lo, hi, i);
      assert forall q :: 0 <= q < i ==> a[q] == t[q];
    }
  }

  // ---------------------------------------------------------------------
  // breakPatterns

  /** `bits.Len`: the number of binary digits of n, 0 for 0. */
  function BitLen(n: nat): (b: nat)
    ensures n < PseudoRandom.Pow2(b)
    ensures n > 0 ==> b > 0 && PseudoRandom.Pow2(b - 1) <= n
  {
    if n == 0 then 0 else 1 + BitLen(n / 2)
  }

  /** The offset that one round of `breakPatterns` swaps with: the 64-bit
      word made of two successive xorshift outputs, masked to the bit
      length of n and reduced once below n. */
  function Other(rnd1: bv32, rnd2: bv32, n: nat): (o: int)
    requires n > 0
    ensures 0 <= o < n
  {
    var m := (rnd1 as int * 0x1_0000_0000 + rnd2 as int) % PseudoRandom.Pow2(BitLen(n));
    if m >= n then m - n else m
  }

  /** `breakPatterns` on [lo, hi): a slice of at least 8 elements gets
      three swaps between the positions around its middle and
      pseudo-random positions seeded by its length; a shorter one is left
      alone. Either way only the order changes. */
  method BreakPatterns(a: array<int>, lo: int, hi: int)
    requires 0 <= lo <= hi <= a.Length
    modifies a
    ensures hi - lo < 8 ==> a[..] == old(a[..])
    ensures Untouched(a[..], old(a[..]), lo, hi)
    ensures multiset(a[..]) == multiset(old(a[..]))
  {
    var n := hi - lo;
    if n >= 8 {
      var seed := (n % 0x1_0000_0000) as bv32;
      var pos := n / 4 * 2;
      for i := -1 to 2
        invariant Untouched(a[..], old(a[..]), lo, hi)
        invariant multiset(a[..]) == multiset(old(a[..]))
      {
        seed := Xorshift(seed);
        var rnd1 := seed;
        seed := Xorshift(seed);
        var rnd2 := seed;
        var other := Other(rnd1, rnd2, n);
        Swap(a, lo + pos + i, lo + other);
      }
    }
  }

  // ---------------------------------------------------------------------
  // choosePivot

  /** `sort2`: the two offsets ordered by the elements they hold, with
      the swap count raised when they had to be exchanged. */
  function Sort2(s: seq<int>, lo: int, i: int, j: int, n: int): (r: (int, int, int))
    requires 0 <= lo && 0 <= i && 0 <= j && lo + i < |s| && lo + j < |s|
    ensures (r.0, r.1) == (i, j) || (r.0, r.1) == (j, i)
    ensures s[lo + r.0] <= s[lo + r.1]
    ensures r.2 == (if (r.0, r.1) == (i, j) then n else n + 1)
  {
    if s[lo + j] < s[lo + i] then (j, i, n + 1) else (i, j, n)
  }

  /** (x, y, z) is (i, j, k) in some order. */
  predicate Arrangement(x: int, y: int, z: int, i: int, j: int, k: int)
  {
    (x, y, z) == (i, j, k) || (x, y, z) == (i, k, j) || (x, y, z) == (j, i, k)
    || (x, y, z) == (j, k, i) || (x, y, z) == (k, i, j) || (x, y, z) == (k, j, i)
  }

  /** The three offsets of `sort3` after its three `sort2` steps, ordered
      by their elements, and the swap count. */
  function Sort3Steps(s: seq<int>, lo: int, i: int, j: int, k: int, n: int): (r: (int, int, int, int))
    requires 0 <= lo && 0 <= i && 0 <= j && 0 <= k && lo + i < |s| && lo + j < |s| && lo + k < |s|
    ensures Arrangement(r.0, r.1, r.2, i, j, k)
    ensures s[lo + r.0] <= s[lo + r.1] <= s[lo + r.2]
    ensures n <= r.3 <= n + 3
  {
    var x := Sort2(s, lo, i, j, n);
    var y := Sort2(s, lo, x.1, k, x.2);
    var z := Sort2(s, lo, x.0, y.0, y.2);
    (z.0, z.1, y.1, z.2)
  }

  /** `sort3`: the offset of the median of the three elements, and the
      swap count. */
  function Sort3(s: seq<int>, lo: int, i: int, j: int, k: int, n: int): (r: (int, int))
    requires 0 <= lo && 0 <= i && 0 <= j && 0 <= k && lo + i < |s| && lo + j < |s| && lo + k < |s|
    ensures r.0 == i || r.0 == j || r.0 == k
    ensures n <= r.1 <= n + 3
  {
    var t := Sort3Steps(s, lo, i, j, k, n);
    (t.1, t.3)
  }

  /** The element at Sort3's offset is a median: the other two offsets
      hold one element at most it and one at least it. */
  lemma Sort3Median(s: seq<int>, lo: int, i: int, j: int, k: int, n: int)
    requires 0 <= lo && 0 <= i && 0 <= j && 0 <= k && lo + i < |s| && lo + j < |s| && lo + k < |s|
    ensures var m := Sort3(s, lo, i, j, k, n).0;
            exists x, z :: Arrangement(x, m, z, i, j, k) &&
              0 <= lo + x < |s| && 0 <= lo + z < |s| && s[lo + x] <= s[lo + m] <= s[lo + z]
  {
    var t := Sort3Steps(s, lo, i, j, k, n);
    assert Arrangement(t.0, t.1, t.2, i, j, k);
  }

  /** `sortAdjacent`: `sort3` on the neighbours of m. */
  function SortAdjacent(s: seq<int>, lo: int, m: int, n: int): (r: (int, int))
    requires 0 <= lo && 1 <= m && lo + m + 1 < |s|
    ensures m - 1 <= r.0 <= m + 1
    ensures n <= r.1 <= n + 3
  {
    Sort3(s, lo, m - 1, m, m + 1, n)
  }

  const ShortestMedianOfMedians := 50
  const MaxSwaps := 4 * 3

  /** The offset `choosePivot` settles on before its final test, and the
      number of swaps its `sort2` steps counted. A slice shorter than 8
      takes the middle offset with no swaps. */
  function PivotCandidate(s: seq<int>, lo: int, hi: int): (r: (int, int))
    requires 0 <= lo <= hi <= |s|
    ensures 0 <= r.0 && (r.0 < hi - lo || hi == lo) && 0 <= r.1 <= 12
  {
    var n := hi - lo;
    var q := n / 4;
    var i, j, k := q * 1, q * 2, q * 3;
    if n < 8 then (j, 0)
    else if n < ShortestMedianOfMedians then Sort3(s, lo, i, j, k, 0)
    else
      var x := SortAdjacent(s, lo, i, 0);
      var y := SortAdjacent(s, lo, j, x.1);
      var z := SortAdjacent(s, lo, k, y.1);
      Sort3(s, lo, x.0, y.0, z.0, z.1)
  }

  /** `choosePivot` on [lo, hi): with fewer than 12 swaps the candidate is
      the pivot, likely sorted when no swap was needed; otherwise the
      slice is reversed (it looked descending) and the mirrored offset is
      the pivot. The pivot offset lies inside a non-empty slice. */
  method ChoosePivot(a: array<int>, lo: int, hi: int) returns (pivot: int, likelySorted: bool)
    requires 0 <= lo <= hi <= a.Length
    modifies a
    ensures 0 <= pivot && (pivot < hi - lo || hi == lo)
    ensures var (j, swaps) := PivotCandidate(old(a[..]), lo, hi);
            if swaps < MaxSwaps then
              a[..] == old(a[..]) && pivot == j && likelySorted == (swaps == 0)
            else
              a[lo..hi] == Reversed(old(a[lo..hi])) && pivot == hi - lo - 1 - j && likelySorted
    ensures Untouched(a[..], old(a[..]), lo, hi)
    ensures multiset(a[..]) == multiset(old(a[..]))
  {
    var (j, swaps) := PivotCandidate(a[..], lo, hi);
    if swaps < MaxSwaps {
      return j, swaps == 0;
    } else {
      Rev(a, lo, hi);
      return hi - lo - 1 - j, true;
    }
  }

  // ---------------------------------------------------------------------
  // partitionEqual

  /** The loop state of `partitionEqual` on the window after the pivot at
      lo: the elements before l are at most the pivot, those from r on
      above it, and nothing outside (lo, hi) has moved. */
  ghost predicate EqualScan(s: seq<int>, s0: seq<int>, lo: int, hi: int, pv: int, l: int, r: int)
  {
    0 <= lo < l <= r <= hi <= |s| && s[lo] == pv && Untouched(s, s0, lo + 1, hi)
    && (forall p :: lo < p < l ==> s[p] <= pv)
    && (forall p :: r <= p < hi ==> pv < s[p])
  }

  /** The exchange in the loop of `partitionEqual`: the element above the
      pivot at l and the one not above it at r - 1 trade places. */
  method EqualSwap(a: array<int>, lo: int, hi: int, pv: int, l: int, r: int, r': int, ghost s0: seq<int>)
    requires EqualScan(a[..], s0, lo, hi, pv, l, r) && l < r && r' == r - 1
    requires pv < a[l] && a[r'] <= pv
    modifies a
    ensures EqualScan(a[..], s0, lo, hi, pv, l + 1, r') && l + 1 <= r'
    ensures multiset(a[..]) == multiset(old(a[..]))
  {
    Swap(a, l, r');
  }

  /** `partitionEqual` once the pivot is at a[lo]: the elements not above
      it are gathered at the front, the pivot first, and their number is
      returned. */
  method EqualFront(a: array<int>, lo: int, hi: int) returns (mid: int)
    requires 0 <= lo < hi <= a.Length
    modifies a
    ensures 1 <= mid <= hi - lo && a[lo] == old(a[lo])
    ensures forall p :: lo <= p < lo + mid ==> a[p] <= a[lo]
    ensures forall p :: lo + mid <= p < hi ==> a[lo] < a[p]
    ensures Untouched(a[..], old(a[..]), lo, hi) && multiset(a[..]) == multiset(old(a[..]))
  {
    var pv := a[lo];
    var l, r := lo + 1, hi;
    while true
      invariant EqualScan(a[..], old(a[..]), lo, hi, pv, l, r)
      invariant multiset(a[..]) == multiset(old(a[..]))
      decreases r - l
    {
      ghost var d := r - l;
      while l < r && pv >= a[l]
        invariant EqualScan(a[..], old(a[..]), lo, hi, pv, l, r) && r - l <= d
      {
        l := l + 1;
      }
      while l < r && pv < a[r - 1]
        invariant EqualScan(a[..], old(a[..]), lo, hi, pv, l, r) && r - l <= d
      {
        r := r - 1;
      }
      if l >= r {
        break;
      }
      var r' := r - 1;
      EqualSwap(a, lo, hi, pv, l, r, r', old(a[..]));
      l, r := l + 1, r';
    }
    mid := l - lo;
  }

  /** `partitionEqual` of [lo, hi) around its element at offset pivot,
      with the loop exit corrected to `l >= r` (see PartitionEqualAsWritten):
      the pivot goes to the front and stays there, the elements not above
      it follow it, and mid counts them with the pivot; everything from
      mid on is above the pivot. */
  method PartitionEqual(a: array<int>, lo: int, hi: int, pivot: int) returns (mid: int)
    requires 0 <= lo && 0 <= pivot && lo + pivot < hi <= a.Length
    modifies a
    ensures 1 <= mid <= hi - lo && a[lo] == old(a[lo + pivot])
    ensures forall p :: lo <= p < lo + mid ==> a[p] <= a[lo]
    ensures forall p :: lo + mid <= p < hi ==> a[lo] < a[p]
    ensures Untouched(a[..], old(a[..]), lo, hi) && multiset(a[..]) == multiset(old(a[..]))
  {
    Swap(a, lo, lo + pivot);
    mid := EqualFront(a, lo, hi);
  }

  /** The left scan of `partitionEqual` as written: l passes the elements
      not above pv. */
  function ScanNotAbove(w: seq<int>, pv: int, l: int, r: int): (l': int)
    requires 0 <= l && r <= |w|
    ensures l <= l' && (l < r ==> l' <= r) && (l >= r ==> l' == l)
    ensures forall p :: l <= p < l' ==> w[p] <= pv
    decreases r - l
  {
    if l < r && pv >= w[l] then ScanNotAbove(w, pv, l + 1, r) else l
  }

  /** The right scan of `partitionEqual` as written: r passes the elements
      above pv. */
  function ScanAbove(w: seq<int>, pv: int, l: int, r: int): (r': int)
    requires 0 <= l && r <= |w|
    ensures r' <= r && (l < r ==> l <= r') && (l >= r ==> r' == r)
    ensures forall p :: r' <= p < r ==> pv < w[p]
    decreases r - l
  {
    if l < r && pv < w[r - 1] then ScanAbove(w, pv, l, r - 1) else r
  }

  /** The loop of `partitionEqual` exactly as written, on the window w
      after the pivot: it leaves when the scans did NOT meet, and when they
      did meet it decrements r and swaps w[l] with w[r], which is out of
      range when they met at either end (None stands for the panic).
      Otherwise the result is the window and the final l. */
  function EqualLoopAsWritten(w: seq<int>, pv: int, l: int, r: int): (res: Option<(seq<int>, int)>)
    requires 0 <= l && r <= |w| && -2 <= r - l
    ensures res.Some? ==> |res.value.0| == |w|
    decreases r - l + 2
  {
    var l1 := ScanNotAbove(w, pv, l, r);
    var r1 := ScanAbove(w, pv, l1, r);
    if l1 != r1 then Some((w, l1))
    else if r1 - 1 < 0 || l1 >= |w| then None
    else EqualLoopAsWritten(w[l1 := w[r1 - 1]][r1 - 1 := w[l1]], pv, l1 + 1, r1 - 1)
  }

  /** `partitionEqual` on the slice s exactly as written: the pivot is
      swapped to the front, the loop runs on the rest, and l + 1 is
      returned. None stands for an index-out-of-range panic. */
  function PartitionEqualAsWritten(s: seq<int>, pivot: int): (res: Option<(seq<int>, int)>)
    requires 0 <= pivot < |s|
    ensures res.Some? ==> |res.value.0| == |s| && res.value.0[0] == s[pivot]
  {
    var t := s[0 := s[pivot]][pivot := s[0]];
    match EqualLoopAsWritten(t[1..], t[0], 0, |t| - 1)
    case None => None
    case Some((w, l)) => Some(([t[0]] + w, l + 1))
  }

  /** When the scans stop apart, the loop as written leaves at once: on
      [5, 7, 3] with pivot 5 it returns 1 although 3, below the pivot,
      stays after that point. */
  lemma AsWrittenLeavesSmallerBehind()
    ensures var res := PartitionEqualAsWritten([5, 7, 3], 0);
            res == Some(([5, 7, 3], 1)) && res.value.0[2] < res.value.0[0]
  {
    var s := [5, 7, 3];
    assert s[0 := s[0]][0 := s[0]] == s && s[1..] == [7, 3];
    assert ScanNotAbove([7, 3], 5, 0, 2) == 0;
    assert ScanAbove([7, 3], 5, 0, 2) == 2;
    assert EqualLoopAsWritten([7, 3], 5, 0, 2) == Some(([7, 3], 0));
    assert [5] + [7, 3] == s;
  }

  /** When the scans meet inside the window, the swap as written pulls an
      element above the pivot into the returned prefix: [5, 5, 7] becomes
      [5, 7, 5] with 3 returned. */
  lemma AsWrittenPullsLargerIn()
    ensures var res := PartitionEqualAsWritten([5, 5, 7], 0);
            res == Some(([5, 7, 5], 3)) && res.value.0[1] > res.value.0[0]
  {
    var s := [5, 5, 7];
    assert s[0 := s[0]][0 := s[0]] == s && s[1..] == [5, 7];
    assert ScanNotAbove([5, 7], 5, 0, 2) == 1;
    assert ScanAbove([5, 7], 5, 1, 2) == 1;
    assert [5, 7][1 := 5][0 := 7] == [7, 5];
    assert ScanNotAbove([7, 5], 5, 2, 0) == 2;
    assert ScanAbove([7, 5], 5, 2, 0) == 0;
    assert EqualLoopAsWritten([7, 5], 5, 2, 0) == Some(([7, 5], 2));
    assert EqualLoopAsWritten([5, 7], 5, 0, 2) == Some(([7, 5], 2));
    assert [5] + [7, 5] == [5, 7, 5];
  }

  /** When the scans meet at either end, the swap as written indexes out
      of range: [5, 7] (met at 0) and [5, 5] (met at the end) panic. */
  lemma AsWrittenPanics()
    ensures PartitionEqualAsWritten([5, 7], 0).None?
    ensures PartitionEqualAsWritten([5, 5], 0).None?
  {
    var s, t := [5, 7], [5, 5];
    assert s[0 := s[0]][0 := s[0]] == s && s[1..] == [7];
    assert t[0 := t[0]][0 := t[0]] == t && t[1..] == [5];
    assert ScanNotAbove([7], 5, 0, 1) == 0;
    assert ScanAbove([7], 5, 0, 1) == 0;
    assert EqualLoopAsWritten([7], 5, 0, 1) == None;
    assert ScanNotAbove([5], 5, 0, 1) == 1;
    assert ScanAbove([5], 5, 1, 1) == 1;
    assert EqualLoopAsWritten([5], 5, 0, 1) == None;
  }

  // ---------------------------------------------------------------------
  // recurse and Pdqsort

  const MaxInsertion := 20

  /** The state of the loop of `recurse` on [lo, hi): the current slice is
      [l, h); the parts before and after it are sorted, the part before is
      at most everything from l on, the part after at least everything
      before h, and the predecessor pivot, when there is one, lies before
      the slice and is at most every element of it. Nothing outside
      [lo, hi) moved. */
  ghost predicate Framed(s: seq<int>, s0: seq<int>, lo: int, hi: int, l: int, h: int, p: Option<int>)
  {
    0 <= lo <= l <= h <= hi <= |s| && Untouched(s, s0, lo, hi)
    && AdjacentSorted(s, lo, l) && AdjacentSorted(s, h, hi)
    && BelowSlice(s, lo, l, h, hi) && AboveSlice(s, l, h, hi) && PredBelow(s, l, h, p)
  }

  /** The last element before the slice is at most the slice and the
      first element after it. */
  ghost predicate BelowSlice(s: seq<int>, lo: int, l: int, h: int, hi: int)
    requires 0 <= lo <= l <= h <= hi <= |s|
  {
    lo < l ==> (forall q :: l <= q < h ==> s[l - 1] <= s[q]) && (h < hi ==> s[l - 1] <= s[h])
  }

  /** The first element after the slice is at least the slice. */
  ghost predicate AboveSlice(s: seq<int>, l: int, h: int, hi: int)
    requires 0 <= l <= h <= hi <= |s|
  {
    h < hi ==> forall q :: l <= q < h ==> s[q] <= s[h]
  }

  /** The predecessor pivot lies before the slice and is at most all of it. */
  ghost predicate PredBelow(s: seq<int>, l: int, h: int, p: Option<int>)
    requires 0 <= l <= h <= |s|
  {
    p.Some? ==> 0 <= p.value < l && forall q :: l <= q < h ==> s[p.value] <= s[q]
  }

  /** Rearranging the current slice keeps the loop state. */
  lemma FramedPermuted(s: seq<int>, t: seq<int>, s0: seq<int>, lo: int, hi: int, l: int, h: int, p: Option<int>)
    requires Framed(s, s0, lo, hi, l, h, p)
    requires Untouched(t, s, l, h) && multiset(t) == multiset(s)
    ensures Framed(t, s0, lo, hi, l, h, p)
  {
    UntouchedSameOutside(t, s, l, h);
    RangeMultiset(t, s, l, h);
    AdjacentAgree(t, s, lo, l);
    AdjacentAgree(t, s, h, hi);
    if lo < l {
      LowerBoundKept(t, s, l, h, s[l - 1]);
    }
    if h < hi {
      UpperBoundKept(t, s, l, h, s[h]);
    }
    if p.Some? {
      LowerBoundKept(t, s, l, h, s[p.value]);
    }
  }

  /** Once the current slice is sorted, so is all of [lo, hi). */
  lemma FramedDone(s: seq<int>, s0: seq<int>, lo: int, hi: int, l: int, h: int, p: Option<int>)
    requires Framed(s, s0, lo, hi, l, h, p) && SortedRange(s, l, h)
    ensures SortedRange(s, lo, hi)
  {
    assert AdjacentSorted(s, lo, hi) by {
      forall i | lo <= i && i + 1 < hi ensures InOrderAt(s, i) {
        if i + 1 < l || h <= i {
          assert AdjacentSorted(s, lo, l) || AdjacentSorted(s, h, hi);
        } else if i + 1 == h && l < h {
          assert s[h - 1] <= s[h];
        }
      }
    }
    AdjacentIsSorted(s, lo, hi);
  }

  /** After `partitionEqual` on a slice whose predecessor pivot is at
      least the pivot, the elements gathered at the front all equal the
      pivot, so they join the sorted part. */
  lemma FramedEqual(t: seq<int>, s0: seq<int>, lo: int, hi: int, l: int, h: int, p: Option<int>, mid: int)
    requires Framed(t, s0, lo, hi, l, h, p) && p.Some?
    requires 1 <= mid <= h - l && t[l] <= t[p.value]
    requires forall q :: l <= q < l + mid ==> t[q] <= t[l]
    requires forall q :: l + mid <= q < h ==> t[l] < t[q]
    ensures Framed(t, s0, lo, hi, l + mid, h, p)
  {
    assert forall q :: l <= q < l + mid ==> t[q] == t[l];
    assert AdjacentSorted(t, lo, l + mid) by {
      forall i | lo <= i && i + 1 < l + mid ensures InOrderAt(t, i) {
        if i + 1 < l {
          assert AdjacentSorted(t, lo, l);
        }
      }
    }
    assert BelowSlice(t, lo, l + mid, h, hi);
  }

  /** The elements of s and t at [lo, hi) are the same. */
  ghost predicate Agree(s: seq<int>, t: seq<int>, lo: int, hi: int)
    requires 0 <= lo <= hi <= |s| && hi <= |t|
  {
    forall q :: lo <= q < hi ==> s[q] == t[q]
  }

  /** Sorting [a, b) of t into u leaves the rest as it was and keeps the
      elements of [a, b). */
  lemma SortedSide(t: seq<int>, u: seq<int>, s0: seq<int>, lo: int, hi: int, a: int, b: int)
    requires 0 <= lo <= a <= b <= hi <= |t| && Untouched(t, s0, lo, hi)
    requires Untouched(u, t, a, b) && multiset(u) == multiset(t)
    ensures Untouched(u, s0, lo, hi) && Agree(u, t, 0, a) && Agree(u, t, b, |t|)
    ensures multiset(u[a..b]) == multiset(t[a..b])
  {
    UntouchedSameOutside(u, t, a, b);
    RangeMultiset(u, t, a, b);
  }

  lemma AdjacentAgree(s: seq<int>, t: seq<int>, lo: int, hi: int)
    requires 0 <= lo <= hi <= |s| && hi <= |t| && Agree(s, t, lo, hi) && AdjacentSorted(t, lo, hi)
    ensures AdjacentSorted(s, lo, hi)
  {
    forall i | lo <= i && i + 1 < hi ensures InOrderAt(s, i) {
      assert InOrderAt(t, i);
    }
  }

  /** A sorted prefix, a sorted run whose elements lie between its last
      element and a pivot, and the pivot, form a sorted prefix. */
  lemma JoinLeft(u: seq<int>, lo: int, l: int, m: int)
    requires 0 <= lo <= l <= m < |u| && AdjacentSorted(u, lo, l) && SortedRange(u, l, m)
    requires forall q :: l <= q < m ==> u[q] <= u[m]
    requires lo < l ==> u[l - 1] <= u[m] && forall q :: l <= q < m ==> u[l - 1] <= u[q]
    ensures AdjacentSorted(u, lo, m + 1)
  {
    forall i | lo <= i && i + 1 < m + 1 ensures InOrderAt(u, i) {
      if i + 1 < l {
        assert InOrderAt(u, i);
      } else if i + 1 == l {
        if l < m { assert u[l - 1] <= u[l]; }
      } else if i + 1 < m {
        assert SortedRange(u, l, m);
      }
    }
  }

  /** A pivot, a sorted run whose elements lie between it and the next
      element, and a sorted suffix, form a sorted suffix. */
  lemma JoinRight(u: seq<int>, m: int, h: int, hi: int)
    requires 0 <= m < h <= hi <= |u| && SortedRange(u, m + 1, h) && AdjacentSorted(u, h, hi)
    requires forall q :: m < q < h ==> u[m] <= u[q]
    requires h < hi ==> u[m] <= u[h] && forall q :: m < q < h ==> u[q] <= u[h]
    ensures AdjacentSorted(u, m, hi)
  {
    forall i | m <= i && i + 1 < hi ensures InOrderAt(u, i) {
      if i < h - 1 && m < i {
        assert SortedRange(u, m + 1, h);
      } else if h <= i {
        assert InOrderAt(u, i);
      }
    }
  }

  /** After `partition` and the recursive sort of the left side, the left
      side and the pivot join the sorted part, and the pivot becomes the
      predecessor of the right side. */
  lemma FramedLeft(t: seq<int>, u: seq<int>, s0: seq<int>, lo: int, hi: int, l: int, h: int, p: Option<int>, mid: int)
    requires Framed(t, s0, lo, hi, l, h, p)
    requires 0 <= mid < h - l
    requires forall q :: l <= q < l + mid ==> t[q] < t[l + mid]
    requires forall q :: l + mid < q < h ==> t[l + mid] <= t[q]
    requires Untouched(u, t, l, l + mid) && multiset(u) == multiset(t) && SortedRange(u, l, l + mid)
    ensures Framed(u, s0, lo, hi, l + mid + 1, h, Some(l + mid))
  {
    var m := l + mid;
    SortedSide(t, u, s0, lo, hi, l, m);
    UpperBoundKept(u, t, l, m, t[m]);
    if lo < l {
      LowerBoundKept(u, t, l, m, t[l - 1]);
    }
    AdjacentAgree(u, t, lo, l);
    AdjacentAgree(u, t, h, hi);
    JoinLeft(u, lo, l, m);
    assert Agree(u, t, m, |t|);
  }

  /** After `partition` and the recursive sort of the right side, the
      pivot and the right side join the sorted part after the slice, which
      shrinks to the left side. */
  lemma FramedRight(t: seq<int>, u: seq<int>, s0: seq<int>, lo: int, hi: int, l: int, h: int, p: Option<int>, mid: int)
    requires Framed(t, s0, lo, hi, l, h, p)
    requires 0 <= mid < h - l
    requires forall q :: l <= q < l + mid ==> t[q] < t[l + mid]
    requires forall q :: l + mid < q < h ==> t[l + mid] <= t[q]
    requires Untouched(u, t, l + mid + 1, h) && multiset(u) == multiset(t) && SortedRange(u, l + mid + 1, h)
    ensures Framed(u, s0, lo, hi, l, l + mid, p)
  {
    RightJoined(t, u, s0, lo, hi, l, h, p, mid);
  }

  /** After the recursive sort of the right side, the part before the
      slice is kept, and the pivot, the sorted right side and the sorted
      part after the slice run on in order. */
  lemma RightJoined(t: seq<int>, u: seq<int>, s0: seq<int>, lo: int, hi: int, l: int, h: int, p: Option<int>, mid: int)
    requires Framed(t, s0, lo, hi, l, h, p)
    requires 0 <= mid < h - l
    requires forall q :: l + mid < q < h ==> t[l + mid] <= t[q]
    requires Untouched(u, t, l + mid + 1, h) && multiset(u) == multiset(t) && SortedRange(u, l + mid + 1, h)
    ensures Untouched(u, s0, lo, hi) && Agree(u, t, 0, l + mid + 1)
    ensures AdjacentSorted(u, lo, l) && AdjacentSorted(u, l + mid, hi)
  {
    var m := l + mid;
    SortedSide(t, u, s0, lo, hi, m + 1, h);
    LowerBoundKept(u, t, m + 1, h, t[m]);
    if h < hi {
      UpperBoundKept(u, t, m + 1, h, t[h]);
    }
    AdjacentAgree(u, t, lo, l);
    AdjacentAgree(u, t, h, hi);
    JoinRight(u, m, h, hi);
  }

  /** The first part of one round of `recurse`'s loop: a short slice is
      sorted by insertion sort, one with no bad pivots left by heapsort,
      and one that looks sorted may be finished by `partialInsertionSort`;
      otherwise the patterns are broken after an unbalanced round and a
      pivot is chosen. */
  method Prepare(a: array<int>, ghost s0: seq<int>, lo: int, hi: int, l: int, h: int, p: Option<int>,
                 limit: int, wasBalanced: bool, wasPartitioned: bool)
    returns (done: bool, pivot: int, lim: int)
    requires Framed(a[..], s0, lo, hi, l, h, p) && 0 <= limit
    modifies a
    ensures Framed(a[..], s0, lo, hi, l, h, p) && multiset(a[..]) == multiset(old(a[..]))
    ensures done ==> SortedRange(a[..], lo, hi)
    ensures !done ==> MaxInsertion <= h - l && 0 <= pivot < h - l && 0 <= lim <= limit
    ensures !done ==> lim == if wasBalanced then limit else limit - 1
  {
    ghost var s := a[..];
    done, pivot, lim := true, 0, limit;
    if h - l < MaxInsertion {
      InsertionSort(a, l, h);
      FramedPermuted(s, a[..], s0, lo, hi, l, h, p);
      FramedDone(a[..], s0, lo, hi, l, h, p);
      return;
    }
    if lim == 0 {
      HeapSort(a, l, h);
      FramedPermuted(s, a[..], s0, lo, hi, l, h, p);
      FramedDone(a[..], s0, lo, hi, l, h, p);
      return;
    }
    if !wasBalanced {
      s := a[..];
      BreakPatterns(a, l, h);
      FramedPermuted(s, a[..], s0, lo, hi, l, h, p);
      lim := lim - 1;
    }
    var likelySorted;
    s := a[..];
    pivot, likelySorted := ChoosePivot(a, l, h);
    FramedPermuted(s, a[..], s0, lo, hi, l, h, p);
    if wasBalanced && wasPartitioned && likelySorted {
      s := a[..];
      var sorted := PartialInsertionSort(a, l, h);
      FramedPermuted(s, a[..], s0, lo, hi, l, h, p);
      if sorted {
        FramedDone(a[..], s0, lo, hi, l, h, p);
        return;
      }
    }
    done := false;
  }

  /** The branch of `recurse` taken when the predecessor is at least the
      pivot: `partitionEqual` gathers the elements equal to the pivot at
      the front, and the slice continues after them. */
  method EqualRound(a: array<int>, ghost s0: seq<int>, lo: int, hi: int, l: int, h: int, p: Option<int>, pivot: int)
    returns (mid: int)
    requires Framed(a[..], s0, lo, hi, l, h, p) && p.Some? && 0 <= pivot < h - l
    requires a[l + pivot] <= a[p.value]
    modifies a
    ensures 1 <= mid <= h - l
    ensures Framed(a[..], s0, lo, hi, l + mid, h, p) && multiset(a[..]) == multiset(old(a[..]))
  {
    ghost var s := a[..];
    mid := PartitionEqual(a, l, h, pivot);
    FramedPermuted(s, a[..], s0, lo, hi, l, h, p);
    FramedEqual(a[..], s0, lo, hi, l, h, p, mid);
  }

  /** `partition` on the current slice keeps the loop state. */
  method PartitionRound(a: array<int>, ghost s0: seq<int>, lo: int, hi: int, l: int, h: int, p: Option<int>, pivot: int)
    returns (mid: int, partitioned: bool)
    requires Framed(a[..], s0, lo, hi, l, h, p) && 0 <= pivot < h - l
    modifies a
    ensures 0 <= mid < h - l
    ensures Framed(a[..], s0, lo, hi, l, h, p) && multiset(a[..]) == multiset(old(a[..]))
    ensures forall q :: l <= q < l + mid ==> a[q] < a[l + mid]
    ensures forall q :: l + mid < q < h ==> a[l + mid] <= a[q]
  {
    ghost var s := a[..];
    mid, partitioned := Partition(a, l, h, pivot);
    FramedPermuted(s, a[..], s0, lo, hi, l, h, p);
  }

  /** `recurse` on [lo, hi) with limit bad pivots allowed and an optional
      predecessor pred, an element before the slice that is at most all of
      it: the slice ends up sorted, as a permutation of what it held, and
      nothing else in the array moves. */
  method Recurse(a: array<int>, lo: int, hi: int, pred: Option<int>, limit: int)
    requires 0 <= lo <= hi <= a.Length && 0 <= limit
    requires pred.Some? ==> 0 <= pred.value < lo && forall q :: lo <= q < hi ==> a[pred.value] <= a[q]
    modifies a
    ensures SortedRange(a[..], lo, hi)
    ensures Untouched(a[..], old(a[..]), lo, hi) && multiset(a[..]) == multiset(old(a[..]))
    decreases hi - lo, 2
  {
    var l, h, p, lim := lo, hi, pred, limit;
    var wasBalanced, wasPartitioned := true, true;
    while true
      invariant Framed(a[..], old(a[..]), lo, hi, l, h, p) && 0 <= lim <= limit
      invariant multiset(a[..]) == multiset(old(a[..]))
      decreases h - l
    {
      var done, pivot;
      done, pivot, lim := Prepare(a, old(a[..]), lo, hi, l, h, p, lim, wasBalanced, wasPartitioned);
      if done {
        return;
      }
      if p.Some? && a[p.value] >= a[l + pivot] {
        var mid := EqualRound(a, old(a[..]), lo, hi, l, h, p, pivot);
        l := l + mid;
        continue;
      }
      l, h, p, wasBalanced, wasPartitioned := SplitRound(a, old(a[..]), lo, hi, l, h, p, pivot, lim);
    }
  }

  /** The branch of `recurse` that partitions the slice around the pivot,
      recurses on the smaller side and continues with the larger one: the
      loop state holds for the new, shorter slice. */
  method SplitRound(a: array<int>, ghost s0: seq<int>, lo: int, hi: int, l: int, h: int, p: Option<int>, pivot: int, lim: int)
    returns (l': int, h': int, p': Option<int>, wasBalanced: bool, wasPartitioned: bool)
    requires Framed(a[..], s0, lo, hi, l, h, p) && 0 <= pivot < h - l && 0 <= lim
    modifies a
    ensures Framed(a[..], s0, lo, hi, l', h', p') && multiset(a[..]) == multiset(old(a[..]))
    ensures l <= l' <= h' <= h && h' - l' < h - l
    decreases h - l, 1
  {
    var mid;
    mid, wasPartitioned := PartitionRound(a, s0, lo, hi, l, h, p, pivot);
    wasBalanced := Min(mid, h - l - mid) >= (h - l) / 8;
    if mid < h - l - mid - 1 {
      SortLeft(a, s0, lo, hi, l, h, p, mid, lim);
      l', h', p' := l + mid + 1, h, Some(l + mid);
    } else {
      SortRight(a, s0, lo, hi, l, h, p, mid, lim);
      l', h', p' := l, l + mid, p;
    }
  }

  /** The recursive call of `recurse` on the left side of a partitioned
      slice: the left side and the pivot join the sorted part. */
  method SortLeft(a: array<int>, ghost s0: seq<int>, lo: int, hi: int, l: int, h: int, p: Option<int>, mid: int, lim: int)
    requires Framed(a[..], s0, lo, hi, l, h, p) && 0 <= mid < h - l && 0 <= lim
    requires forall q :: l <= q < l + mid ==> a[q] < a[l + mid]
    requires forall q :: l + mid < q < h ==> a[l + mid] <= a[q]
    modifies a
    ensures Framed(a[..], s0, lo, hi, l + mid + 1, h, Some(l + mid)) && multiset(a[..]) == multiset(old(a[..]))
    decreases h - l, 0
  {
    ghost var t := a[..];
    Recurse(a, l, l + mid, p, lim);
    FramedLeft(t, a[..], s0, lo, hi, l, h, p, mid);
  }

  /** The recursive call of `recurse` on the right side of a partitioned
      slice, with the pivot as predecessor: the pivot and the right side
      join the sorted part. */
  method SortRight(a: array<int>, ghost s0: seq<int>, lo: int, hi: int, l: int, h: int, p: Option<int>, mid: int, lim: int)
    requires Framed(a[..], s0, lo, hi, l, h, p) && 0 <= mid < h - l && 0 <= lim
    requires forall q :: l <= q < l + mid ==> a[q] < a[l + mid]
    requires forall q :: l + mid < q < h ==> a[l + mid] <= a[q]
    modifies a
    ensures Framed(a[..], s0, lo, hi, l, l + mid, p) && multiset(a[..]) == multiset(old(a[..]))
    decreases h - l, 0
  {
    ghost var t := a[..];
    Recurse(a, l + mid + 1, h, Some(l + mid), lim);
    FramedRight(t, a[..], s0, lo, hi, l, h, p, mid);
  }

  /** `Pdqsort`: a non-empty slice is sorted by `recurse` with no
      predecessor and a limit of bits.Len(len) bad pivots. The whole array
      ends up sorted, as a permutation of what it held. */
  method Pdqsort(a: array<int>)
    modifies a
    ensures SortedRange(a[..], 0, a.Length)
    ensures multiset(a[..]) == multiset(old(a[..]))
  {
    if a.Length != 0 {
      Recurse(a, 0, a.Length, None, BitLen(a.Length));
    }
  }
}
