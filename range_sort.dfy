/** regular/src/sort.rs: quicksort and insertion sort of the inclusive range
    a[l..=r] of an i32 slice. The element values are only compared, so they
    are modelled as unbounded integers. */
module RangeSort {
  import opened Sorting

  /** `partition`: the pivot a[l] is held aside, leaving a hole at i; the
      scans from the right and from the left move the hole between them
      until they meet, where the pivot goes. */
  method Partition(a: array<int>, l: nat, r: nat) returns (k: nat)
    requires l <= r < a.Length
    modifies a
    ensures l <= k <= r && a[k] == old(a[l])
    ensures forall i :: l <= i < k ==> a[i] <= a[k]
    ensures forall i :: k < i <= r ==> a[k] <= a[i]
    ensures multiset(a[..]) == multiset(old(a[..]))
    ensures SameOutside(a[..], old(a[..]), l, r + 1)
  {
    var i, j := l, r;
    var pivot := a[l];
    assert a[..][i := pivot] == a[..];
    while i < j
      invariant l <= i <= j <= r
      invariant forall q :: l <= q < i ==> a[q] <= pivot
      invariant forall q :: j < q <= r ==> pivot <= a[q]
      invariant multiset(a[..][i := pivot]) == multiset(old(a[..]))
      invariant SameOutside(a[..], old(a[..]), l, r + 1)
      decreases j - i
    {
      i, j := Round(a, l, r, i, j, pivot, old(a[..]));
    }
    ghost var s := a[..];
    a[i] := pivot;
    assert a[..] == s[i := pivot];
    k := i;
  }

  /** One round of the loop of `partition`: the hole moves from i to the
      right scan's stop and back to the left scan's stop. */
  method Round(a: array<int>, l: nat, r: nat, i: nat, j: nat, pivot: int, ghost s0: seq<int>) returns (i': nat, j': nat)
    requires l <= i < j <= r < a.Length
    requires forall q :: l <= q < i ==> a[q] <= pivot
    requires forall q :: j < q <= r ==> pivot <= a[q]
    requires multiset(a[..][i := pivot]) == multiset(s0)
    requires SameOutside(a[..], s0, l, r + 1)
    modifies a
    ensures l <= i' <= j' <= r && j' - i' < j - i
    ensures forall q :: l <= q < i' ==> a[q] <= pivot
    ensures forall q :: j' < q <= r ==> pivot <= a[q]
    ensures multiset(a[..][i' := pivot]) == multiset(s0)
    ensures SameOutside(a[..], s0, l, r + 1)
  {
    ghost var s := a[..];
    j' := FillFromRight(a, l, r, i, j, pivot);
    ghost var u := a[..];
    i' := FillFromLeft(a, l, r, i, j', pivot);
    assert u[..l] == s[..l] && u[r + 1..] == s[r + 1..];
    assert a[..][..l] == u[..l] && a[..][r + 1..] == u[r + 1..];
  }

  /** The first half of a round of `partition`: the right scan stops at j'
      and a[j'] fills the hole at i, so the hole moves to j'. */
  method FillFromRight(a: array<int>, l: nat, r: nat, i: nat, j: nat, pivot: int) returns (j': nat)
    requires l <= i < j <= r < a.Length
    requires forall q :: j < q <= r ==> pivot <= a[q]
    modifies a
    ensures i <= j' <= j
    ensures a[..] == old(a[..])[i := a[i]]
    ensures forall q :: j' < q <= r ==> pivot <= a[q]
    ensures i < j' ==> a[i] < pivot
    ensures multiset(a[..][j' := pivot]) == multiset(old(a[..])[i := pivot])
  {
    j' := ScanDown(a, i, j, pivot);
    ghost var s := a[..];
    a[i] := a[j'];
    assert a[..] == s[i := s[j']];
    MoveHole(s, a[..], i, j', pivot);
  }

  /** The second half: the left scan stops at i' and a[i'] fills the hole
      at j, so the hole moves back to i'. */
  method FillFromLeft(a: array<int>, l: nat, r: nat, i: nat, j: nat, pivot: int) returns (i': nat)
    requires l <= i <= j <= r < a.Length
    requires i < j ==> a[i] <= pivot
    requires forall q :: l <= q < i ==> a[q] <= pivot
    modifies a
    ensures i <= i' <= j && (i < j ==> i < i')
    ensures a[..] == old(a[..])[j := a[j]]
    ensures forall q :: l <= q < i' ==> a[q] <= pivot
    ensures i' < j ==> pivot < a[j]
    ensures multiset(a[..][i' := pivot]) == multiset(old(a[..])[j := pivot])
  {
    i' := ScanUp(a, i, j, pivot);
    ghost var t := a[..];
    a[j] := a[i'];
    assert a[..] == t[j := t[i']];
    MoveHole(t, a[..], j, i', pivot);
  }

  /** The right scan: j moves left over elements not below the pivot, never
      past i. */
  method ScanDown(a: array<int>, i: nat, j: nat, pivot: int) returns (j': nat)
    requires i <= j < a.Length
    ensures i <= j' <= j
    ensures forall q :: j' < q <= j ==> pivot <= a[q]
    ensures i < j' ==> a[j'] < pivot
  {
    j' := j;
    while a[j'] >= pivot && i < j'
      decreases j'
      invariant i <= j' <= j
      invariant forall q :: j' < q <= j ==> pivot <= a[q]
    {
      j' := j' - 1;
    }
  }

  /** The left scan: i moves right over elements not above the pivot, never
      past j. */
  method ScanUp(a: array<int>, i: nat, j: nat, pivot: int) returns (i': nat)
    requires i <= j < a.Length
    ensures i <= i' <= j
    ensures forall q :: i <= q < i' ==> a[q] <= pivot
    ensures i' < j ==> pivot < a[i']
  {
    i' := i;
    while a[i'] <= pivot && i' < j
      decreases j - i'
      invariant i <= i' <= j
      invariant forall q :: i <= q < i' ==> a[q] <= pivot
    {
      i' := i' + 1;
    }
  }

  /** `quick_sort`: partition, then sort both sides of the pivot; the left
      side is skipped when the pivot landed at index 0. */
  method QuickSort(a: array<int>, l: nat, r: nat)
    requires l < r ==> r < a.Length
    modifies a
    ensures l < r ==> SortedRange(a[..], l, r + 1)
    ensures multiset(a[..]) == multiset(old(a[..]))
    ensures l < r ==> SameOutside(a[..], old(a[..]), l, r + 1)
    ensures l >= r ==> a[..] == old(a[..])
    decreases r - l
  {
    if l < r {
      var k := Partition(a, l, r);
      if k > 0 {
        SortLeft(a, l, k, r);
      }
      ghost var s := a[..];
      SortRight(a, l, k, r);
      JoinAroundPivot(s, a[..], l, k, r);
    }
  }

  /** The sorted left side, the pivot and the sorted right side make one
      sorted range. */
  lemma JoinAroundPivot(s: seq<int>, t: seq<int>, l: nat, k: nat, r: nat)
    requires l <= k <= r < |s| && SameOutside(t, s, k + 1, r + 1)
    requires forall i :: l <= i < k ==> s[i] <= s[k]
    requires l + 1 < k ==> SortedRange(s, l, k)
    requires forall i :: k < i <= r ==> t[k] <= t[i]
    requires k + 1 < r ==> SortedRange(t, k + 1, r + 1)
    ensures SortedRange(t, l, r + 1)
  {
    forall i | l <= i <= k ensures t[i] == s[i] {
      assert t[..k + 1][i] == s[..k + 1][i];
    }
  }

  /** The recursive call on a[l..k-1], which keeps the right side and the
      pivot where partition left them. */
  method SortLeft(a: array<int>, l: nat, k: nat, r: nat)
    requires l <= k <= r < a.Length && k > 0
    requires forall i :: l <= i < k ==> a[i] <= a[k]
    modifies a
    ensures a[k] == old(a[k])
    ensures forall i :: l <= i < k ==> a[i] <= a[k]
    ensures l + 1 < k ==> SortedRange(a[..], l, k)
    ensures multiset(a[..]) == multiset(old(a[..]))
    ensures SameOutside(a[..], old(a[..]), l, k)
    decreases r - l, 0
  {
    ghost var s0 := a[..];
    QuickSort(a, l, k - 1);
    if l < k - 1 {
      RangeMultiset(a[..], s0, l, k);
      UpperBoundKept(a[..], s0, l, k, s0[k]);
    }
  }

  /** The recursive call on a[k+1..=r], which keeps the left side and the
      pivot. */
  method SortRight(a: array<int>, l: nat, k: nat, r: nat)
    requires l <= k <= r < a.Length
    requires forall i :: k < i <= r ==> a[k] <= a[i]
    modifies a
    ensures a[k] == old(a[k])
    ensures forall i :: k < i <= r ==> a[k] <= a[i]
    ensures k + 1 < r ==> SortedRange(a[..], k + 1, r + 1)
    ensures multiset(a[..]) == multiset(old(a[..]))
    ensures SameOutside(a[..], old(a[..]), k + 1, r + 1)
    decreases r - l, 0
  {
    ghost var s0 := a[..];
    QuickSort(a, k + 1, r);
    if k + 1 < r {
      RangeMultiset(a[..], s0, k + 1, r + 1);
      LowerBoundKept(a[..], s0, k + 1, r + 1, s0[k]);
    }
  }

  /** `insert_sort`: each a[i] out of order with its left neighbour is taken
      out and the greater elements before it are shifted one place right
      until its slot is found. */
  method InsertSort(a: array<int>, l: nat, r: nat)
    requires l < r ==> r < a.Length
    modifies a
    ensures l < r ==> SortedRange(a[..], l, r + 1)
    ensures multiset(a[..]) == multiset(old(a[..]))
    ensures l < r ==> SameOutside(a[..], old(a[..]), l, r + 1)
    ensures l >= r || SortedRange(old(a[..]), l, r + 1) ==> a[..] == old(a[..])
  {
    if l >= r {
      return;
    }
    var i := l + 1;
    while i <= r
      invariant l + 1 <= i <= r + 1
      invariant SortedRange(a[..], l, i)
      invariant multiset(a[..]) == multiset(old(a[..]))
      invariant SameOutside(a[..], old(a[..]), l, r + 1)
      invariant SortedRange(old(a[..]), l, r + 1) ==> a[..] == old(a[..])
    {
      if a[i - 1] > a[i] {
        Insert(a, l, i);
      }
      i := i + 1;
    }
  }

  /** The inner loop of `insert_sort` for one i: a[l..i) is sorted and a[i]
      is smaller than a[i - 1]. */
  method Insert(a: array<int>, l: nat, i: nat)
    requires l < i < a.Length && SortedRange(a[..], l, i) && a[i - 1] > a[i]
    modifies a
    ensures SortedRange(a[..], l, i + 1)
    ensures multiset(a[..]) == multiset(old(a[..]))
    ensures SameOutside(a[..], old(a[..]), l, i + 1)
  {
    var t := a[i];
    var j := i;
    assert a[..][j := t] == a[..];
    while j > l && a[j - 1] > t
      invariant l <= j <= i
      invariant multiset(a[..][j := t]) == multiset(old(a[..]))
      invariant SortedRange(a[..], l, j) && SortedRange(a[..], j + 1, i + 1)
      invariant l < j < i ==> a[j - 1] <= a[j + 1]
      invariant forall q :: j < q <= i ==> t < a[q]
      invariant SameOutside(a[..], old(a[..]), l, i + 1)
    {
      j := ShiftOne(a, l, i, j, t, old(a[..]));
    }
    Place(a, l, i, j, t, old(a[..]));
  }

  /** The end of the inner loop: t goes into the hole at j. */
  method Place(a: array<int>, l: nat, i: nat, j: nat, t: int, ghost s0: seq<int>)
    requires l <= j <= i < a.Length
    requires multiset(a[..][j := t]) == multiset(s0)
    requires SortedRange(a[..], l, j) && SortedRange(a[..], j + 1, i + 1)
    requires l < j ==> a[j - 1] <= t
    requires forall q :: j < q <= i ==> t < a[q]
    requires SameOutside(a[..], s0, l, i + 1)
    modifies a
    ensures SortedRange(a[..], l, i + 1)
    ensures multiset(a[..]) == multiset(s0)
    ensures SameOutside(a[..], s0, l, i + 1)
  {
    ghost var s := a[..];
    a[j] := t;
    assert a[..] == s[j := t];
    JoinAround(a[..], l, j, i + 1);
  }

  /** One step of the inner loop of `insert_sort`: a[j - 1] is copied into
      the hole at j, which moves to j - 1. */
  method ShiftOne(a: array<int>, l: nat, i: nat, j: nat, t: int, ghost s0: seq<int>) returns (j': nat)
    requires l < j <= i < a.Length && a[j - 1] > t
    requires multiset(a[..][j := t]) == multiset(s0)
    requires SortedRange(a[..], l, j) && SortedRange(a[..], j + 1, i + 1)
    requires j < i ==> a[j - 1] <= a[j + 1]
    requires forall q :: j < q <= i ==> t < a[q]
    requires SameOutside(a[..], s0, l, i + 1)
    modifies a
    ensures j' == j - 1
    ensures multiset(a[..][j' := t]) == multiset(s0)
    ensures SortedRange(a[..], l, j') && SortedRange(a[..], j' + 1, i + 1)
    ensures l < j' < i ==> a[j' - 1] <= a[j' + 1]
    ensures forall q :: j' < q <= i ==> t < a[q]
    ensures SameOutside(a[..], s0, l, i + 1)
  {
    ghost var s := a[..];
    a[j] := a[j - 1];
    assert a[..] == s[j := s[j - 1]];
    ShiftFacts(s, a[..], l, i, j, t, s0);
    j' := j - 1;
  }

  /** The facts ShiftOne keeps, stated on the sequences before and after the
      copy of s[j - 1] into the hole at j. */
  lemma {:induction false} ShiftFacts(s: seq<int>, s': seq<int>, l: int, i: int, j: int, t: int, s0: seq<int>)
    requires 0 <= l < j <= i < |s| && s' == s[j := s[j - 1]] && s[j - 1] > t
    requires multiset(s[j := t]) == multiset(s0)
    requires SortedRange(s, l, j) && SortedRange(s, j + 1, i + 1)
    requires j < i ==> s[j - 1] <= s[j + 1]
    requires forall q :: j < q <= i ==> t < s[q]
    requires SameOutside(s, s0, l, i + 1)
    ensures multiset(s'[j - 1 := t]) == multiset(s0)
    ensures SortedRange(s', l, j - 1) && SortedRange(s', j, i + 1)
    ensures l < j - 1 < i ==> s'[j - 2] <= s'[j]
    ensures forall q :: j - 1 < q <= i ==> t < s'[q]
    ensures SameOutside(s', s0, l, i + 1)
  {
    MoveHole(s, s', j, j - 1, t);
    ShiftKeepsOrder(s, s', l, j, i);
    assert s'[..l] == s[..l] && s'[i + 1..] == s[i + 1..];
  }

  /** After a[j - 1] is copied into the hole at j, the hole is at j - 1 and
      both sorted runs around it stay sorted. */
  lemma {:induction false} ShiftKeepsOrder(s: seq<int>, s': seq<int>, l: int, j: int, i: int)
    requires 0 <= l < j <= i < |s| && s' == s[j := s[j - 1]]
    requires SortedRange(s, l, j) && SortedRange(s, j + 1, i + 1)
    requires j < i ==> s[j - 1] <= s[j + 1]
    ensures SortedRange(s', l, j - 1) && SortedRange(s', j, i + 1)
    ensures l < j - 1 ==> s'[j - 2] <= s'[j]
  {
  }

  /** Two sorted runs with a middle element between them form one run. */
  lemma {:induction false} JoinAround(s: seq<int>, l: int, j: int, hi: int)
    requires 0 <= l <= j < hi <= |s|
    requires SortedRange(s, l, j) && SortedRange(s, j + 1, hi)
    requires l < j ==> s[j - 1] <= s[j]
    requires forall q :: j < q < hi ==> s[j] < s[q]
    ensures SortedRange(s, l, hi)
  {
  }
}
