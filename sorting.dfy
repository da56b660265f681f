/** Ascending order and permutations of integer sequences, shared by the
    sorting and selection modules. */
module Sorting {
  /** s[lo..hi] is in ascending order. */
  ghost predicate SortedRange(s: seq<int>, lo: int, hi: int)
  {
    forall i, j :: 0 <= lo <= i < j < hi <= |s| ==> s[i] <= s[j]
  }

  /** Every neighbour pair of s[lo..hi] is in order. */
  ghost predicate AdjacentSorted(s: seq<int>, lo: int, hi: int)
  {
    forall i :: 0 <= lo <= i && i + 1 < hi <= |s| ==> InOrderAt(s, i)
  }

  /** s[i] and its successor are in order. */
  ghost predicate InOrderAt(s: seq<int>, i: int)
    requires 0 <= i && i + 1 < |s|
  {
    s[i] <= s[i + 1]
  }

  /** s and t differ at most inside [lo, hi). */
  ghost predicate SameOutside(s: seq<int>, t: seq<int>, lo: int, hi: int)
  {
    0 <= lo <= hi <= |s| == |t| && s[..lo] == t[..lo] && s[hi..] == t[hi..]
  }

  /** Ordered neighbours make an ordered range. */
  lemma {:induction false} AdjacentIsSorted(s: seq<int>, lo: int, hi: int)
    requires 0 <= lo <= hi <= |s| && AdjacentSorted(s, lo, hi)
    ensures SortedRange(s, lo, hi)
    decreases hi - lo
  {
    if hi - lo > 1 {
      AdjacentIsSorted(s, lo, hi - 1);
      forall i | lo <= i < hi - 1 ensures s[i] <= s[hi - 1] {
        assert s[i] <= s[hi - 2] && InOrderAt(s, hi - 2);
      }
    }
  }

  /** Exchanging two positions keeps the multiset of elements. */
  lemma {:induction false} SwapKeepsMultiset(s: seq<int>, i: int, j: int)
    requires 0 <= i < |s| && 0 <= j < |s|
    ensures multiset(s[i := s[j]][j := s[i]]) == multiset(s)
  {
    var t := s[i := s[j]];
    assert multiset(t) == multiset(s) - multiset{s[i]} + multiset{s[j]};
    assert multiset(t[j := s[i]]) == multiset(t) - multiset{t[j]} + multiset{s[i]};
  }

  /** Two sequences that agree outside [lo, hi) and hold the same elements
      hold the same elements inside [lo, hi). */
  lemma {:induction false} RangeMultiset(s: seq<int>, t: seq<int>, lo: int, hi: int)
    requires 0 <= lo <= hi <= |s| && SameOutside(s, t, lo, hi)
    requires multiset(s) == multiset(t)
    ensures multiset(s[lo..hi]) == multiset(t[lo..hi])
  {
    var a, c := s[..lo], s[hi..];
    assert a == t[..lo] && c == t[hi..];
    assert s == a + s[lo..hi] + c;
    assert t == a + t[lo..hi] + c;
    assert multiset(s) == multiset(a) + multiset(s[lo..hi]) + multiset(c);
    assert multiset(t) == multiset(a) + multiset(t[lo..hi]) + multiset(c);
    forall x ensures multiset(s[lo..hi])[x] == multiset(t[lo..hi])[x] {
      assert multiset(s)[x] == multiset(t)[x];
    }
  }

  /** Agreement outside [lo, hi) and the same elements inside give the same
      elements overall. */
  lemma {:induction false} WholeMultiset(s: seq<int>, t: seq<int>, lo: int, hi: int)
    requires 0 <= lo <= hi <= |s| && SameOutside(s, t, lo, hi)
    requires multiset(s[lo..hi]) == multiset(t[lo..hi])
    ensures multiset(s) == multiset(t)
  {
    var a, c := s[..lo], s[hi..];
    assert a == t[..lo] && c == t[hi..];
    assert s == a + s[lo..hi] + c;
    assert t == a + t[lo..hi] + c;
  }

  /** A bound on every element of a range holds for any rearrangement of it. */
  lemma {:induction false} UpperBoundKept(s: seq<int>, t: seq<int>, lo: int, hi: int, p: int)
    requires 0 <= lo <= hi <= |s| && hi <= |t|
    requires multiset(s[lo..hi]) == multiset(t[lo..hi])
    requires forall k :: lo <= k < hi ==> t[k] <= p
    ensures forall k :: lo <= k < hi ==> s[k] <= p
  {
    forall k | lo <= k < hi ensures s[k] <= p {
      assert s[lo..hi][k - lo] == s[k];
      assert s[k] in multiset(t[lo..hi]);
      var m :| 0 <= m < hi - lo && t[lo..hi][m] == s[k];
      assert t[lo + m] == s[k];
    }
  }

  lemma {:induction false} LowerBoundKept(s: seq<int>, t: seq<int>, lo: int, hi: int, p: int)
    requires 0 <= lo <= hi <= |s| && hi <= |t|
    requires multiset(s[lo..hi]) == multiset(t[lo..hi])
    requires forall k :: lo <= k < hi ==> p <= t[k]
    ensures forall k :: lo <= k < hi ==> p <= s[k]
  {
    forall k | lo <= k < hi ensures p <= s[k] {
      assert s[lo..hi][k - lo] == s[k];
      assert s[k] in multiset(t[lo..hi]);
      var m :| 0 <= m < hi - lo && t[lo..hi][m] == s[k];
      assert t[lo + m] == s[k];
    }
  }

  /** A sorted sequence is determined by its multiset of elements. */
  lemma {:induction false} SortedUnique(s: seq<int>, t: seq<int>)
    requires SortedRange(s, 0, |s|) && SortedRange(t, 0, |t|)
    requires multiset(s) == multiset(t)
    ensures s == t
    decreases |s|
  {
    if |s| > 0 {
      assert |t| == |multiset(t)| == |multiset(s)| == |s|;
      MinOfSorted(s);
      MinOfSorted(t);
      assert s[0] in multiset(s) && t[0] in multiset(t);
      assert s[0] == t[0];
      assert s == [s[0]] + s[1..] && t == [t[0]] + t[1..];
      assert multiset(s) == multiset{s[0]} + multiset(s[1..]);
      assert multiset(t) == multiset{t[0]} + multiset(t[1..]);
      forall x ensures multiset(s[1..])[x] == multiset(t[1..])[x] {
        assert multiset(s)[x] == multiset(t)[x];
      }
      SortedTail(s);
      SortedTail(t);
      SortedUnique(s[1..], t[1..]);
    }
  }

  /** Two rearrangements of the same sequence that differ only inside
      [lo, hi) and are both sorted there are equal. */
  lemma {:induction false} SortedRangeUnique(s: seq<int>, t: seq<int>, lo: int, hi: int)
    requires SameOutside(s, t, lo, hi) && multiset(s) == multiset(t)
    requires SortedRange(s, lo, hi) && SortedRange(t, lo, hi)
    ensures s == t
  {
    RangeMultiset(s, t, lo, hi);
    var u, v := s[lo..hi], t[lo..hi];
    forall i, j | 0 <= i < j < |u| ensures u[i] <= u[j] {
      assert u[i] == s[lo + i] && u[j] == s[lo + j];
    }
    forall i, j | 0 <= i < j < |v| ensures v[i] <= v[j] {
      assert v[i] == t[lo + i] && v[j] == t[lo + j];
    }
    SortedUnique(u, v);
    assert s == s[..lo] + u + s[hi..];
    assert t == t[..lo] + v + t[hi..];
  }

  lemma {:induction false} SortedTail(s: seq<int>)
    requires |s| > 0 && SortedRange(s, 0, |s|)
    ensures SortedRange(s[1..], 0, |s| - 1)
  {
    forall i, j | 0 <= i < j < |s| - 1 ensures s[1..][i] <= s[1..][j] {
      assert s[1..][i] == s[i + 1] && s[1..][j] == s[j + 1];
    }
  }

  /** The head of a sorted sequence is below every element. */
  lemma {:induction false} MinOfSorted(s: seq<int>)
    requires |s| > 0 && SortedRange(s, 0, |s|)
    ensures forall x :: x in multiset(s) ==> s[0] <= x
  {
    forall x | x in multiset(s) ensures s[0] <= x {
      var k :| 0 <= k < |s| && s[k] == x;
    }
  }

  /** Filling the hole at h from position g moves the hole to g: the pivot
      that stands in for the hole keeps the multiset. */
  lemma {:induction false} MoveHole(s: seq<int>, s': seq<int>, h: int, g: int, pivot: int)
    requires 0 <= h < |s| && 0 <= g < |s| && s' == s[h := s[g]]
    ensures multiset(s'[g := pivot]) == multiset(s[h := pivot])
  {
    if h != g {
      var m := multiset(s);
      assert multiset(s[h := pivot]) == m - multiset{s[h]} + multiset{pivot};
      assert multiset(s') == m - multiset{s[h]} + multiset{s[g]};
      assert multiset(s'[g := pivot]) == multiset(s') - multiset{s[g]} + multiset{pivot};
    }
  }
}
