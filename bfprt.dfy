/** regular/src/bfprt.rs: selection of the k-th smallest element of the
    inclusive range a[l..=r] by the median-of-medians rule (BFPRT). The i32
    elements are only compared, so they are unbounded integers here. */
module Bfprt {
  import opened Sorting
  import RangeSort

  /** Agreement outside a range carries over to any wider range, and
      composes. */
  lemma Widen(s: seq<int>, t: seq<int>, u: seq<int>, lo: int, hi: int, lo': int, hi': int)
    requires 0 <= lo' <= lo <= hi <= hi' <= |s|
    requires SameOutside(s, t, lo, hi) && SameOutside(t, u, lo', hi')
    ensures SameOutside(s, u, lo', hi')
  {
    assert s[..lo'] == s[..lo][..lo'] && t[..lo'] == t[..lo][..lo'];
    assert s[hi'..] == s[hi..][hi' - hi..] && t[hi'..] == t[hi..][hi' - hi..];
  }

  /** `a.swap(x, y)` inside the range [l, r]. */
  method SwapIn(a: array<int>, l: nat, r: nat, x: nat, y: nat)
    requires l <= x <= r < a.Length && l <= y <= r
    modifies a
    ensures a[..] == old(a[..])[x := old(a[y])][y := old(a[x])]
    ensures multiset(a[..]) == multiset(old(a[..]))
    ensures SameOutside(a[..], old(a[..]), l, r + 1)
  {
    ghost var s0 := a[..];
    a[x], a[y] := a[y], a[x];
    SwapKeepsMultiset(s0, x, y);
    assert a[..] == s0[x := s0[y]][y := s0[x]];
  }

  /** One group of five (or the shorter last group) at i is sorted and its
      median, at i + mid, is swapped to position l + g, the g-th slot of
      the medians gathered at the front. */
  method GroupMedian(a: array<int>, l: nat, r: nat, i: nat, last: nat, mid: nat, g: nat)
    requires l <= i <= last <= r < a.Length && i + mid <= last && l + g <= i
    modifies a
    ensures multiset(a[..]) == multiset(old(a[..]))
    ensures SameOutside(a[..], old(a[..]), l, r + 1)
  {
    ghost var s0 := a[..];
    RangeSort.InsertSort(a, i, last);
    ghost var s1 := a[..];
    if i < last {
      Widen(s1, s0, s0, i, last + 1, l, r + 1);
    }
    SwapIn(a, l, r, l + g, i + mid);
    Widen(a[..], s1, s0, l, r + 1, l, r + 1);
  }

  /** `find_mid`: the range is cut into groups of five, each group is
      sorted and its median moved to the front, and the search repeats on
      the medians. The result is an index of the range, and the range is
      only rearranged. As written, the recursion stops when the number of
      medians n equals the index l; this only changes which index of the
      range is returned. */
  method FindMid(a: array<int>, l: nat, r: nat) returns (m: nat)
    requires l <= r < a.Length
    modifies a
    ensures l <= m <= r
    ensures multiset(a[..]) == multiset(old(a[..]))
    ensures SameOutside(a[..], old(a[..]), l, r + 1)
    decreases r - l
  {
    if l == r {
      return l;
    }
    var n := 0;
    var i := l;
    while i + 5 < r
      invariant l <= i < r
      invariant multiset(a[..]) == multiset(old(a[..]))
      invariant SameOutside(a[..], old(a[..]), l, r + 1)
    {
      n := i - l;
      GroupMedian(a, l, r, i, i + 4, 2, n / 5);
      i := i + 5;
    }
    var num := r - i + 1;
    if num > 0 {
      n := i - l;
      GroupMedian(a, l, r, i, i + num - 1, num / 2, n / 5);
    }
    n := n / 5;
    if n == l {
      m := l;
    } else {
      ghost var s := a[..];
      m := FindMid(a, l, l + n);
      Widen(a[..], s, old(a[..]), l, l + n + 1, l, r + 1);
    }
  }

  /** `partition`: the element at p is swapped to the front and the range
      partitioned around it. The loop that follows the swap is the same
      code as `partition` in sort.rs, so it is RangeSort.Partition. The
      pivot ends at k, with no greater element before it and no smaller
      one after it. */
  method Partition(a: array<int>, l: nat, r: nat, p: nat) returns (k: nat)
    requires l <= p <= r < a.Length
    modifies a
    ensures l <= k <= r && a[k] == old(a[p])
    ensures forall q :: l <= q < k ==> a[q] <= a[k]
    ensures forall q :: k < q <= r ==> a[k] <= a[q]
    ensures multiset(a[..]) == multiset(old(a[..]))
    ensures SameOutside(a[..], old(a[..]), l, r + 1)
  {
    ghost var s0 := a[..];
    SwapIn(a, l, r, p, l);
    ghost var s1 := a[..];
    k := RangeSort.Partition(a, l, r);
    Widen(a[..], s1, s0, l, r + 1, l, r + 1);
  }

  /** `bfprt`: with 1 <= k <= r - l + 1, returns the k-th smallest element
      of a[l..=r]. It ends at position l + k - 1, with no greater element
      before it and no smaller one after it, so a[l..l+k) holds the k
      smallest elements; the range is only rearranged. */
  method Select(a: array<int>, l: nat, r: nat, k: nat) returns (v: int)
    requires l <= r < a.Length && 1 <= k <= r - l + 1
    modifies a
    ensures v == a[l + k - 1]
    ensures forall q :: l <= q < l + k - 1 ==> a[q] <= v
    ensures forall q :: l + k - 1 < q <= r ==> v <= a[q]
    ensures multiset(a[..]) == multiset(old(a[..]))
    ensures SameOutside(a[..], old(a[..]), l, r + 1)
    decreases r - l, 1
  {
    var p := FindMid(a, l, r);
    var i := Partition(a, l, r, p);
    var m := i - l + 1;
    if m == k {
      v := a[i];
    } else if m > k {
      v := SelectBelow(a, l, i, r, k);
    } else {
      v := SelectAbove(a, l, i, r, k);
    }
  }

  /** The k-th smallest lies before the pivot at i: select among a[l..i). */
  method SelectBelow(a: array<int>, l: nat, i: nat, r: nat, k: nat) returns (v: int)
    requires l <= r < a.Length && 1 <= k && l + k - 1 < i <= r
    requires forall q :: l <= q < i ==> a[q] <= a[i]
    requires forall q :: i < q <= r ==> a[i] <= a[q]
    modifies a
    ensures v == a[l + k - 1]
    ensures forall q :: l <= q < l + k - 1 ==> a[q] <= v
    ensures forall q :: l + k - 1 < q <= r ==> v <= a[q]
    ensures multiset(a[..]) == multiset(old(a[..]))
    ensures SameOutside(a[..], old(a[..]), l, r + 1)
    decreases r - l, 0
  {
    ghost var s := a[..];
    v := Select(a, l, i - 1, k);
    KeptLeft(a[..], s, l, i, r);
    Widen(a[..], s, s, l, i, l, r + 1);
  }

  /** The k-th smallest lies after the pivot at i: select among a(i..=r]. */
  method SelectAbove(a: array<int>, l: nat, i: nat, r: nat, k: nat) returns (v: int)
    requires l <= i < r < a.Length && i - l + 1 < k <= r - l + 1
    requires forall q :: l <= q < i ==> a[q] <= a[i]
    requires forall q :: i < q <= r ==> a[i] <= a[q]
    modifies a
    ensures v == a[l + k - 1]
    ensures forall q :: l <= q < l + k - 1 ==> a[q] <= v
    ensures forall q :: l + k - 1 < q <= r ==> v <= a[q]
    ensures multiset(a[..]) == multiset(old(a[..]))
    ensures SameOutside(a[..], old(a[..]), l, r + 1)
    decreases r - l, 0
  {
    ghost var s := a[..];
    v := Select(a, i + 1, r, k - (i - l + 1));
    KeptRight(a[..], s, l, i, r);
    Widen(a[..], s, s, i + 1, r + 1, l, r + 1);
  }

  /** Rearranging the part before the pivot keeps it at most the pivot and
      leaves the pivot and the part after it in place. */
  lemma KeptLeft(t: seq<int>, s: seq<int>, l: int, i: int, r: int)
    requires 0 <= l < i <= r < |s| && SameOutside(t, s, l, i) && multiset(t) == multiset(s)
    requires forall q :: l <= q < i ==> s[q] <= s[i]
    ensures forall q :: i <= q < |s| ==> t[q] == s[q]
    ensures forall q :: l <= q < i ==> t[q] <= s[i]
  {
    forall q | i <= q < |s| ensures t[q] == s[q] {
      assert t[i..][q - i] == s[i..][q - i];
    }
    RangeMultiset(t, s, l, i);
    UpperBoundKept(t, s, l, i, s[i]);
  }

  /** Rearranging the part after the pivot keeps it at least the pivot and
      leaves the pivot and the part before it in place. */
  lemma KeptRight(t: seq<int>, s: seq<int>, l: int, i: int, r: int)
    requires 0 <= l <= i < r < |s| && SameOutside(t, s, i + 1, r + 1) && multiset(t) == multiset(s)
    requires forall q :: i < q <= r ==> s[i] <= s[q]
    ensures forall q :: 0 <= q <= i ==> t[q] == s[q]
    ensures forall q :: i < q <= r ==> s[i] <= t[q]
  {
    forall q | 0 <= q <= i ensures t[q] == s[q] {
      assert t[..i + 1][q] == s[..i + 1][q];
    }
    RangeMultiset(t, s, i + 1, r + 1);
    LowerBoundKept(t, s, i + 1, r + 1, s[i]);
  }

  /** What `bfprt` leaves behind: every element of a[l..l+k) is at most
      every element of a[l+k..=r], so its first k elements are the k
      smallest. */
  lemma SmallestFirst(s: seq<int>, l: int, r: int, k: int)
    requires 0 <= l <= r < |s| && 1 <= k <= r - l + 1
    requires forall q :: l <= q < l + k - 1 ==> s[q] <= s[l + k - 1]
    requires forall q :: l + k - 1 < q <= r ==> s[l + k - 1] <= s[q]
    ensures forall q, q' :: l <= q < l + k <= q' <= r ==> s[q] <= s[q']
  {
    forall q, q' | l <= q < l + k <= q' <= r ensures s[q] <= s[q'] {
      assert s[q] <= s[l + k - 1] <= s[q'];
    }
  }
}
