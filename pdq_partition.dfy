/** goofy/sort/pdqsort.go, the partitioning routines of pattern-defeating
    quicksort: `partitionInBlocks` and `partition`. As in
    GoSort, a Go slice is a window [lo, hi) of an array and indices are
    absolute; the values the routines return are offsets from lo, as in Go. */
module PdqPartition {
  import opened Base
  import opened Sorting
  import opened GoSort

  /** The size of a block of `partitionInBlocks`, and of its offset buffers. */
  const BlockSize: int := 128

  /** Position p is the element of the left block from l that offs[from..to)
      lists. */
  ghost predicate LeftListed(offs: seq<byte>, from: int, to: int, l: int, p: int)
  {
    exists x :: 0 <= from <= x < to <= |offs| && l + offs[x] == p
  }

  /** Position p is the element of the right block ending at r that
      offs[from..to) lists; offset o names position r - o - 1. */
  ghost predicate RightListed(offs: seq<byte>, from: int, to: int, r: int, p: int)
  {
    exists x :: 0 <= from <= x < to <= |offs| && r - offs[x] - 1 == p
  }

  /** The offsets recorded in offs[..to) are strictly increasing. */
  ghost predicate Increasing(offs: seq<byte>, to: int)
    decreases to
  {
    0 <= to <= |offs| && (to <= 1 || (Increasing(offs, to - 1) && offs[to - 2] < offs[to - 1]))
  }

  lemma {:induction false} IncreasingPair(offs: seq<byte>, to: int, x: int, y: int)
    requires Increasing(offs, to) && 0 <= x < y < to
    ensures offs[x] < offs[y]
  {
    if y < to - 1 {
      IncreasingPair(offs, to - 1, x, y);
    } else if x < to - 2 {
      IncreasingPair(offs, to - 1, x, to - 2);
    }
  }

  /** Increasing depends only on the recorded prefix. */
  lemma {:induction false} IncreasingAgree(o: seq<byte>, o': seq<byte>, to: int)
    requires Increasing(o, to) && to <= |o'|
    requires forall x :: 0 <= x < to ==> o'[x] == o[x]
    ensures Increasing(o', to)
  {
    if to > 1 {
      IncreasingAgree(o, o', to - 1);
    }
  }

  /** The left block s[l..l+n) waits to be exchanged: offs[from..to) holds
      offsets into the block, and an element of the block is listed there
      exactly when it is not below pv. */
  ghost predicate LeftPending(s: seq<int>, offs: seq<byte>, pv: int, l: int, n: int, from: int, to: int)
  {
    0 <= from <= to <= |offs| && 0 <= l && 0 <= n && l + n <= |s|
    && (forall x :: from <= x < to ==> offs[x] < n)
    && (forall p {:trigger LeftListed(offs, from, to, l, p)} ::
          l <= p < l + n ==> (LeftListed(offs, from, to, l, p) <==> pv <= s[p]))
  }

  /** The right block s[r-n..r) waits to be exchanged: offs[from..to) holds
      offsets back from r - 1, and an element of the block is listed there
      exactly when it is below pv. */
  ghost predicate RightPending(s: seq<int>, offs: seq<byte>, pv: int, r: int, n: int, from: int, to: int)
  {
    0 <= from <= to <= |offs| && 0 <= n <= r <= |s|
    && (forall x :: from <= x < to ==> offs[x] < n)
    && (forall p {:trigger RightListed(offs, from, to, r, p)} ::
          r - n <= p < r ==> (RightListed(offs, from, to, r, p) <==> s[p] < pv))
  }

  /** Storing a value below pv at the first listed position of the left
      block settles that position. */
  lemma LeftTake(s: seq<int>, t: seq<int>, offs: seq<byte>, pv: int, l: int, n: int, from: int, to: int, v: int)
    requires LeftPending(s, offs, pv, l, n, from, to) && Increasing(offs, to) && from < to && v < pv
    requires t == s[l + offs[from] := v]
    ensures LeftPending(t, offs, pv, l, n, from + 1, to)
  {
    forall p | l <= p < l + n
      ensures LeftListed(offs, from + 1, to, l, p) <==> pv <= t[p]
    {
      assert LeftListed(offs, from, to, l, p) <==> pv <= s[p];
      if LeftListed(offs, from + 1, to, l, p) {
        var x :| 0 <= from + 1 <= x < to <= |offs| && l + offs[x] == p;
        IncreasingPair(offs, to, from, x);
        assert LeftListed(offs, from, to, l, p);
      }
      if pv <= t[p] {
        assert p != l + offs[from] && t[p] == s[p];
        var x :| 0 <= from <= x < to <= |offs| && l + offs[x] == p;
        assert LeftListed(offs, from + 1, to, l, p);
      }
    }
  }

  /** Storing a value at least pv at the first listed position of the right
      block settles that position. */
  lemma RightTake(s: seq<int>, t: seq<int>, offs: seq<byte>, pv: int, r: int, n: int, from: int, to: int, v: int)
    requires RightPending(s, offs, pv, r, n, from, to) && Increasing(offs, to) && from < to && pv <= v
    requires t == s[r - offs[from] - 1 := v]
    ensures RightPending(t, offs, pv, r, n, from + 1, to)
  {
    forall p | r - n <= p < r
      ensures RightListed(offs, from + 1, to, r, p) <==> t[p] < pv
    {
      assert RightListed(offs, from, to, r, p) <==> s[p] < pv;
      if RightListed(offs, from + 1, to, r, p) {
        var x :| 0 <= from + 1 <= x < to <= |offs| && r - offs[x] - 1 == p;
        IncreasingPair(offs, to, from, x);
        assert RightListed(offs, from, to, r, p);
      }
      if t[p] < pv {
        assert p != r - offs[from] - 1 && t[p] == s[p];
        var x :| 0 <= from <= x < to <= |offs| && r - offs[x] - 1 == p;
        assert RightListed(offs, from + 1, to, r, p);
      }
    }
  }

  /** A store outside the left block leaves it as it was. */
  lemma LeftOutside(s: seq<int>, t: seq<int>, offs: seq<byte>, pv: int, l: int, n: int, from: int, to: int, q: int, v: int)
    requires LeftPending(s, offs, pv, l, n, from, to)
    requires 0 <= q < |s| && (q < l || l + n <= q) && t == s[q := v]
    ensures LeftPending(t, offs, pv, l, n, from, to)
  {
    assert forall p :: l <= p < l + n ==> t[p] == s[p];
  }

  /** A store outside the right block leaves it as it was. */
  lemma RightOutside(s: seq<int>, t: seq<int>, offs: seq<byte>, pv: int, r: int, n: int, from: int, to: int, q: int, v: int)
    requires RightPending(s, offs, pv, r, n, from, to)
    requires 0 <= q < |s| && (q < r - n || r <= q) && t == s[q := v]
    ensures RightPending(t, offs, pv, r, n, from, to)
  {
    assert forall p :: r - n <= p < r ==> t[p] == s[p];
  }

  /** Recording offset i of the left block: the block grows by one element,
      which is listed when it is not below pv. */
  lemma LeftAppend(s: seq<int>, o: seq<byte>, o': seq<byte>, pv: int, l: int, i: int, lend: int, lend': int)
    requires LeftPending(s, o, pv, l, i, 0, lend) && Increasing(o, lend) && lend <= i < 256 && lend < |o| && l + i < |s|
    requires o' == o[lend := i] && lend' == if pv <= s[l + i] then lend + 1 else lend
    ensures LeftPending(s, o', pv, l, i + 1, 0, lend') && Increasing(o', lend')
  {
    assert forall x :: 0 <= x < lend ==> o'[x] == o[x];
    IncreasingAgree(o, o', lend);
    if 0 < lend {
      assert o'[lend - 1] == o[lend - 1] < i;
    }
    forall p | l <= p < l + i + 1
      ensures LeftListed(o', 0, lend', l, p) <==> pv <= s[p]
    {
      if p < l + i {
        assert LeftListed(o, 0, lend, l, p) <==> pv <= s[p];
      }
      if LeftListed(o', 0, lend', l, p) {
        var x :| 0 <= x < lend' <= |o'| && l + o'[x] == p;
        if x < lend {
          assert o'[x] == o[x] && LeftListed(o, 0, lend, l, p);
        }
      }
      if pv <= s[p] {
        if p < l + i {
          var x :| 0 <= x < lend <= |o| && l + o[x] == p;
          assert o'[x] == o[x];
        } else {
          assert o'[lend] == i;
        }
      }
    }
  }

  /** Recording offset i of the right block: the block grows by one element,
      which is listed when it is below pv. */
  lemma RightAppend(s: seq<int>, o: seq<byte>, o': seq<byte>, pv: int, r: int, i: int, rend: int, rend': int)
    requires RightPending(s, o, pv, r, i, 0, rend) && Increasing(o, rend) && rend <= i < 256 && rend < |o| && i < r
    requires o' == o[rend := i] && rend' == if s[r - 1 - i] < pv then rend + 1 else rend
    ensures RightPending(s, o', pv, r, i + 1, 0, rend') && Increasing(o', rend')
  {
    assert forall x :: 0 <= x < rend ==> o'[x] == o[x];
    IncreasingAgree(o, o', rend);
    if 0 < rend {
      assert o'[rend - 1] == o[rend - 1] < i;
    }
    forall p | r - i - 1 <= p < r
      ensures RightListed(o', 0, rend', r, p) <==> s[p] < pv
    {
      if r - 1 - i < p {
        assert RightListed(o, 0, rend, r, p) <==> s[p] < pv;
      }
      if RightListed(o', 0, rend', r, p) {
        var x :| 0 <= x < rend' <= |o'| && r - o'[x] - 1 == p;
        if x < rend {
          assert o'[x] == o[x] && RightListed(o, 0, rend, r, p);
        }
      }
      if s[p] < pv {
        if r - 1 - i < p {
          var x :| 0 <= x < rend <= |o| && r - o[x] - 1 == p;
          assert o'[x] == o[x];
        } else {
          assert o'[rend] == i;
        }
      }
    }
  }

  /** The first inner loop of `partitionInBlocks`: the offsets of the
      elements of a[l..l+n) that are not below pv are collected in order. */
  method FillLeft(a: array<int>, offs: array<byte>, l: int, n: int, pv: int) returns (lend: int)
    requires offs.Length == BlockSize && 0 <= n <= BlockSize && 0 <= l && l + n <= a.Length
    modifies offs
    ensures LeftPending(a[..], offs[..], pv, l, n, 0, lend) && Increasing(offs[..], lend)
  {
    lend := 0;
    var elem := l;
    for i := 0 to n
      invariant elem == l + i && 0 <= lend <= i
      invariant LeftPending(a[..], offs[..], pv, l, i, 0, lend) && Increasing(offs[..], lend)
    {
      ghost var o, le0 := offs[..], lend;
      offs[lend] := i;
      if a[elem] >= pv {
        lend := lend + 1;
      }
      LeftAppend(a[..], o, offs[..], pv, l, i, le0, lend);
      elem := elem + 1;
    }
  }

  /** The second inner loop of `partitionInBlocks`: the offsets from r of
      the elements of a[r-n..r) that are below pv are collected in order. */
  method FillRight(a: array<int>, offs: array<byte>, r: int, n: int, pv: int) returns (rend: int)
    requires offs.Length == BlockSize && 0 <= n <= BlockSize && n <= r <= a.Length
    modifies offs
    ensures RightPending(a[..], offs[..], pv, r, n, 0, rend) && Increasing(offs[..], rend)
  {
    rend := 0;
    var elem := r;
    for i := 0 to n
      invariant elem == r - i && 0 <= rend <= i
      invariant RightPending(a[..], offs[..], pv, r, i, 0, rend) && Increasing(offs[..], rend)
    {
      elem := elem - 1;
      ghost var o, re0 := offs[..], rend;
      offs[rend] := i;
      if a[elem] < pv {
        rend := rend + 1;
      }
      RightAppend(a[..], o, offs[..], pv, r, i, re0, rend);
    }
  }

  /** The state inside the exchange of `partitionInBlocks`: the blocks are
      pending from lf and rf, the element tmp (not below pv) has been lifted
      out and the hole h it left behind lies in the array. */
  ghost predicate Cycling(s: seq<int>, s0: seq<int>, lo: seq<byte>, ro: seq<byte>, pv: int,
                          l: int, lb: int, lf: int, le: int, r: int, rb: int, rf: int, re: int,
                          h: int, tmp: int)
  {
    LeftPending(s, lo, pv, l, lb, lf, le) && RightPending(s, ro, pv, r, rb, rf, re)
    && Increasing(lo, le) && Increasing(ro, re)
    && l + lb <= r - rb && 0 <= h < |s| && |s0| == |s| && pv <= tmp
    && Untouched(s, s0, l, r)
  }

  /** Putting the lifted element tmp back at the hole h restores the
      multiset of s0. */
  ghost predicate Holed(s: seq<int>, s0: seq<int>, h: int, tmp: int)
  {
    0 <= h < |s| && multiset(s[h := tmp]) == multiset(s0)
  }

  /** The hole at the next listed left position takes the next listed right
      element, which is below pv; the hole moves there. */
  lemma FillLeftHole(s: seq<int>, t: seq<int>, s0: seq<int>, lo: seq<byte>, ro: seq<byte>, pv: int,
                     l: int, lb: int, lf: int, lf': int, le: int, r: int, rb: int, rf: int, re: int, tmp: int)
    requires 0 <= lf < le <= |lo| && 0 <= rf < re <= |ro| && lf' == lf + 1
    requires Cycling(s, s0, lo, ro, pv, l, lb, lf, le, r, rb, rf, re, l + lo[lf], tmp)
    requires t == s[l + lo[lf] := s[r - ro[rf] - 1]]
    ensures Cycling(t, s0, lo, ro, pv, l, lb, lf', le, r, rb, rf, re, r - ro[rf] - 1, tmp)
  {
    assert RightListed(ro, rf, re, r, r - ro[rf] - 1);
    LeftTake(s, t, lo, pv, l, lb, lf, le, s[r - ro[rf] - 1]);
    RightOutside(s, t, ro, pv, r, rb, rf, re, l + lo[lf], s[r - ro[rf] - 1]);
  }

  /** The hole at the next listed right position takes the next listed left
      element, which is not below pv; the hole moves there. */
  lemma FillRightHole(s: seq<int>, t: seq<int>, s0: seq<int>, lo: seq<byte>, ro: seq<byte>, pv: int,
                      l: int, lb: int, lf: int, le: int, r: int, rb: int, rf: int, rf': int, re: int, tmp: int)
    requires 0 <= lf < le <= |lo| && 0 <= rf < re <= |ro| && rf' == rf + 1
    requires Cycling(s, s0, lo, ro, pv, l, lb, lf, le, r, rb, rf, re, r - ro[rf] - 1, tmp)
    requires t == s[r - ro[rf] - 1 := s[l + lo[lf]]]
    ensures Cycling(t, s0, lo, ro, pv, l, lb, lf, le, r, rb, rf', re, l + lo[lf], tmp)
  {
    assert LeftListed(lo, lf, le, l, l + lo[lf]);
    RightTake(s, t, ro, pv, r, rb, rf, re, s[l + lo[lf]]);
    LeftOutside(s, t, lo, pv, l, lb, lf, le, r - ro[rf] - 1, s[l + lo[lf]]);
  }

  /** The lifted element goes into the last hole, a listed right position. */
  lemma CloseHole(s: seq<int>, t: seq<int>, s0: seq<int>, lo: seq<byte>, ro: seq<byte>, pv: int,
                  l: int, lb: int, lf: int, le: int, r: int, rb: int, rf: int, rf': int, re: int, tmp: int)
    requires 0 <= rf < re <= |ro| && rf' == rf + 1
    requires Cycling(s, s0, lo, ro, pv, l, lb, lf, le, r, rb, rf, re, r - ro[rf] - 1, tmp)
    requires t == s[r - ro[rf] - 1 := tmp]
    ensures LeftPending(t, lo, pv, l, lb, lf, le) && RightPending(t, ro, pv, r, rb, rf', re)
    ensures Untouched(t, s0, l, r)
  {
    RightTake(s, t, ro, pv, r, rb, rf, re, tmp);
    LeftOutside(s, t, lo, pv, l, lb, lf, le, r - ro[rf] - 1, tmp);
  }

  /** One turn of the exchange on values: the current right position takes
      the next listed left element, and that left position then takes the
      next listed right element. Positions out of range leave s as it is. */
  ghost function Turn(s: seq<int>, lo: seq<byte>, ro: seq<byte>, l: int, r: int, lf: int, rf: int): seq<int>
  {
    if 0 <= lf < |lo| && 0 <= rf && rf + 1 < |ro| && 0 <= l + lo[lf] < |s|
       && 0 <= r - ro[rf] - 1 < |s| && 0 <= r - ro[rf + 1] - 1 < |s|
    then
      var s1 := s[r - ro[rf] - 1 := s[l + lo[lf]]];
      s1[l + lo[lf] := s1[r - ro[rf + 1] - 1]]
    else s
  }

  /** One turn moves the hole from right entry rf to right entry rf + 1. */
  lemma TurnHoled(s: seq<int>, s0: seq<int>, lo: seq<byte>, ro: seq<byte>, l: int, r: int,
                  lf: int, rf: int, tmp: int)
    requires 0 <= lf < |lo| && 0 <= rf && rf + 1 < |ro|
    requires 0 <= l + lo[lf] < |s| && 0 <= r - ro[rf + 1] - 1 < |s|
    requires Holed(s, s0, r - ro[rf] - 1, tmp)
    ensures Holed(Turn(s, lo, ro, l, r, lf, rf), s0, r - ro[rf + 1] - 1, tmp)
  {
    var t1 := s[r - ro[rf] - 1 := s[l + lo[lf]]];
    MoveHole(s, t1, r - ro[rf] - 1, l + lo[lf], tmp);
    MoveHole(t1, Turn(s, lo, ro, l, r, lf, rf), l + lo[lf], r - ro[rf + 1] - 1, tmp);
  }

  /** One turn keeps the exchange state: the left and the right cursor
      advance together (to lf' and rf') and the hole moves to the next right
      entry. */
  lemma TurnKeeps(s: seq<int>, s0: seq<int>, lo: seq<byte>, ro: seq<byte>, pv: int,
                  l: int, lb: int, lf: int, lf': int, le: int, r: int, rb: int, rf: int, rf': int, re: int, tmp: int)
    requires lf' == lf + 1 && rf' == rf + 1
    requires 0 <= lf < le <= |lo| && 0 <= rf && rf' < re <= |ro|
    requires Cycling(s, s0, lo, ro, pv, l, lb, lf, le, r, rb, rf, re, r - ro[rf] - 1, tmp)
    requires Holed(s, s0, r - ro[rf] - 1, tmp)
    ensures Cycling(Turn(s, lo, ro, l, r, lf, rf), s0, lo, ro, pv, l, lb, lf', le, r, rb, rf', re,
                    r - ro[rf'] - 1, tmp)
    ensures Holed(Turn(s, lo, ro, l, r, lf, rf), s0, r - ro[rf'] - 1, tmp)
  {
    var t1 := s[r - ro[rf] - 1 := s[l + lo[lf]]];
    FillRightHole(s, t1, s0, lo, ro, pv, l, lb, lf, le, r, rb, rf, rf', re, tmp);
    FillLeftHole(t1, Turn(s, lo, ro, l, r, lf, rf), s0, lo, ro, pv, l, lb, lf, lf', le, r, rb, rf', re, tmp);
    TurnHoled(s, s0, lo, ro, l, r, lf, rf, tmp);
  }

  /** One turn of the exchange in place. */
  method CycleStep(a: array<int>, loffs: array<byte>, roffs: array<byte>, l: int, r: int, lf: int, rf: int,
                   ghost lo: seq<byte>, ghost ro: seq<byte>)
    requires loffs[..] == lo && roffs[..] == ro
    requires 0 <= lf < |lo| && 0 <= rf && rf + 1 < |ro|
    requires 0 <= l + lo[lf] < a.Length && 0 <= r - ro[rf] - 1 < a.Length && 0 <= r - ro[rf + 1] - 1 < a.Length
    modifies a
    ensures a[..] == Turn(old(a[..]), lo, ro, l, r, lf, rf)
  {
    a[r - roffs[rf] - 1] := a[l + loffs[lf]];
    a[l + loffs[lf]] := a[r - roffs[rf + 1] - 1];
  }

  /** The turns of the exchange from left entry lf to lend, in place; the
      right cursor ends lend - lf entries further on, and so does the hole
      that the lifted element tmp fills. */
  method TurnAll(a: array<int>, loffs: array<byte>, roffs: array<byte>, pv: int,
                 l: int, lb: int, lf: int, lend: int, le: int, r: int, rb: int, rf: int, re: int,
                 ghost s0: seq<int>, ghost lo: seq<byte>, ghost ro: seq<byte>, ghost tmp: int)
    returns (rend: int)
    requires loffs[..] == lo && roffs[..] == ro
    requires 0 <= lf <= lend <= le <= |lo| && 0 <= rf && rf + (lend - lf) < re <= |ro|
    requires Cycling(a[..], s0, lo, ro, pv, l, lb, lf, le, r, rb, rf, re, r - ro[rf] - 1, tmp)
    requires Holed(a[..], s0, r - ro[rf] - 1, tmp)
    modifies a
    ensures rend == rf + (lend - lf)
    ensures Cycling(a[..], s0, lo, ro, pv, l, lb, lend, le, r, rb, rend, re, r - ro[rend] - 1, tmp)
    ensures Holed(a[..], s0, r - ro[rend] - 1, tmp)
  {
    var lstart := lf;
    rend := rf;
    while lstart < lend
      invariant lf <= lstart <= lend && rend - rf == lstart - lf
      invariant Cycling(a[..], s0, lo, ro, pv, l, lb, lstart, le, r, rb, rend, re, r - ro[rend] - 1, tmp)
      invariant Holed(a[..], s0, r - ro[rend] - 1, tmp)
    {
      var lnext, rnext := lstart + 1, rend + 1;
      TurnKeeps(a[..], s0, lo, ro, pv, l, lb, lstart, lnext, le, r, rb, rend, rnext, re, tmp);
      CycleStep(a, loffs, roffs, l, r, lstart, rend, lo, ro);
      lstart, rend := lnext, rnext;
    }
  }

  /** The start of the exchange: the first listed left element is lifted
      into tmp and its place takes the first listed right element. */
  method OpenHole(a: array<int>, loffs: array<byte>, roffs: array<byte>, pv: int,
                  l: int, lb: int, ls: int, ls': int, le: int, r: int, rb: int, rs: int, re: int,
                  ghost lo: seq<byte>, ghost ro: seq<byte>)
    returns (tmp: int)
    requires loffs[..] == lo && roffs[..] == ro
    requires ls' == ls + 1 && 0 <= ls < le <= |lo| && 0 <= rs < re <= |ro|
    requires LeftPending(a[..], lo, pv, l, lb, ls, le) && RightPending(a[..], ro, pv, r, rb, rs, re)
    requires Increasing(lo, le) && Increasing(ro, re) && l + lb <= r - rb
    modifies a
    ensures Cycling(a[..], old(a[..]), lo, ro, pv, l, lb, ls', le, r, rb, rs, re, r - ro[rs] - 1, tmp)
    ensures Holed(a[..], old(a[..]), r - ro[rs] - 1, tmp)
  {
    ghost var s0 := a[..];
    tmp := a[l + loffs[ls]];
    assert s0[l + lo[ls] := tmp] == s0 && LeftListed(lo, ls, le, l, l + lo[ls]);
    a[l + loffs[ls]] := a[r - roffs[rs] - 1];
    FillLeftHole(s0, a[..], s0, lo, ro, pv, l, lb, ls, ls', le, r, rb, rs, re, tmp);
    MoveHole(s0, a[..], l + lo[ls], r - ro[rs] - 1, tmp);
  }

  /** The end of the exchange: the lifted element fills the last hole, a
      listed right position; the right cursor moves on to rf'. */
  method PlaceLifted(a: array<int>, roffs: array<byte>, pv: int,
                     l: int, lb: int, lf: int, le: int, r: int, rb: int, rf: int, rf': int, re: int,
                     ghost s0: seq<int>, ghost lo: seq<byte>, ghost ro: seq<byte>, tmp: int)
    requires roffs[..] == ro && 0 <= rf < re <= |ro| && rf' == rf + 1
    requires Cycling(a[..], s0, lo, ro, pv, l, lb, lf, le, r, rb, rf, re, r - ro[rf] - 1, tmp)
    requires Holed(a[..], s0, r - ro[rf] - 1, tmp)
    modifies a
    ensures LeftPending(a[..], lo, pv, l, lb, lf, le) && RightPending(a[..], ro, pv, r, rb, rf', re)
    ensures Untouched(a[..], s0, l, r) && multiset(a[..]) == multiset(s0)
  {
    ghost var s := a[..];
    a[r - roffs[rf] - 1] := tmp;
    CloseHole(s, a[..], s0, lo, ro, pv, l, lb, lf, le, r, rb, rf, rf', re, tmp);
  }

  /** The exchange of `partitionInBlocks`: the first count listed elements
      of the left block (not below pv) and of the right block (below pv)
      trade places along one cycle through a temporary. Those positions are
      then settled, and nothing outside the two blocks has changed. The
      block cursors lstart and rstart advance by count. */
  method CycleSwap(a: array<int>, loffs: array<byte>, roffs: array<byte>, pv: int,
                   l: int, lb: int, ls: int, le: int, r: int, rb: int, rs: int, re: int, count: int)
    returns (lstart: int, rstart: int)
    requires LeftPending(a[..], loffs[..], pv, l, lb, ls, le)
    requires RightPending(a[..], roffs[..], pv, r, rb, rs, re)
    requires Increasing(loffs[..], le) && Increasing(roffs[..], re)
    requires l + lb <= r - rb && 0 < count && ls + count <= le && rs + count <= re
    modifies a
    ensures lstart == ls + count && rstart == rs + count
    ensures LeftPending(a[..], loffs[..], pv, l, lb, lstart, le)
    ensures RightPending(a[..], roffs[..], pv, r, rb, rstart, re)
    ensures Untouched(a[..], old(a[..]), l, r)
    ensures multiset(a[..]) == multiset(old(a[..]))
  {
    ghost var s0, lo, ro := a[..], loffs[..], roffs[..];
    var lnext := ls + 1;
    var tmp := OpenHole(a, loffs, roffs, pv, l, lb, ls, lnext, le, r, rb, rs, re, lo, ro);
    lstart := ls + count;
    rstart := TurnAll(a, loffs, roffs, pv, l, lb, lnext, lstart, le, r, rb, rs, re, s0, lo, ro, tmp);
    var rnext := rstart + 1;
    PlaceLifted(a, roffs, pv, l, lb, lstart, le, r, rb, rstart, rnext, re, s0, lo, ro, tmp);
    rstart := rnext;
  }

  /** Outside the blocks the window [lo, hi) is settled: the elements below
      l are below pv and those from r on are not. */
  ghost predicate Settled(s: seq<int>, pv: int, lo: int, l: int, r: int, hi: int)
  {
    0 <= lo <= l <= r <= hi <= |s|
    && (forall p :: lo <= p < l ==> s[p] < pv)
    && (forall p :: r <= p < hi ==> pv <= s[p])
  }

  /** The state of `partitionInBlocks` between its phases: the left block
      s[l..l+lb) and the right block s[r-rb..r) are disjoint and pending
      from the cursors ls and rs, and the rest of the window is settled. A
      block of size 0 stands for no block. */
  ghost predicate Blocks(s: seq<int>, lofs: seq<byte>, rofs: seq<byte>, pv: int, lo: int,
                         l: int, lb: int, ls: int, le: int, r: int, rb: int, rs: int, re: int, hi: int)
  {
    Settled(s, pv, lo, l, r, hi) && 0 <= lb && 0 <= rb && l + lb <= r - rb
    && LeftPending(s, lofs, pv, l, lb, ls, le) && Increasing(lofs, le)
    && RightPending(s, rofs, pv, r, rb, rs, re) && Increasing(rofs, re)
  }

  /** The two inner loops of `partitionInBlocks`: an exhausted block is
      refilled with lblock (rblock) elements; a block still pending keeps
      its offsets and cursors. */
  method FillBlocks(a: array<int>, loffs: array<byte>, roffs: array<byte>, pv: int, lo: int, hi: int,
                    l: int, ghost lb0: int, lblock: int, ls: int, le: int,
                    r: int, ghost rb0: int, rblock: int, rs: int, re: int)
    returns (lstart: int, lend: int, rstart: int, rend: int)
    requires loffs != roffs && loffs.Length == BlockSize && roffs.Length == BlockSize
    requires Blocks(a[..], loffs[..], roffs[..], pv, lo, l, lb0, ls, le, r, rb0, rs, re, hi)
    requires 0 <= lblock <= BlockSize && 0 <= rblock <= BlockSize && l + lblock <= r - rblock
    requires (ls < le ==> lb0 == lblock) && (ls == le ==> lb0 == 0)
    requires (rs < re ==> rb0 == rblock) && (rs == re ==> rb0 == 0)
    modifies loffs, roffs
    ensures Blocks(a[..], loffs[..], roffs[..], pv, lo, l, lblock, lstart, lend, r, rblock, rstart, rend, hi)
    ensures ls < le ==> lstart == ls && lend == le
    ensures rs < re ==> rstart == rs && rend == re
  {
    lstart, lend, rstart, rend := ls, le, rs, re;
    if ls == le {
      lstart := 0;
      lend := FillLeft(a, loffs, l, lblock, pv);
    }
    if rs == re {
      rstart := 0;
      rend := FillRight(a, roffs, r, rblock, pv);
    }
  }

  /** The exchange step of `partitionInBlocks`: as many listed elements as
      both blocks hold trade places, after which one block (at least) is
      exhausted. */
  method Exchange(a: array<int>, loffs: array<byte>, roffs: array<byte>, pv: int, lo: int, hi: int,
                  l: int, lb: int, ls: int, le: int, r: int, rb: int, rs: int, re: int)
    returns (lstart: int, rstart: int)
    requires Blocks(a[..], loffs[..], roffs[..], pv, lo, l, lb, ls, le, r, rb, rs, re, hi)
    modifies a
    ensures Blocks(a[..], loffs[..], roffs[..], pv, lo, l, lb, lstart, le, r, rb, rstart, re, hi)
    ensures lstart == le || rstart == re
    ensures Untouched(a[..], old(a[..]), lo, hi) && multiset(a[..]) == multiset(old(a[..]))
  {
    var count := Min(le - ls, re - rs);
    lstart, rstart := ls, rs;
    if count > 0 {
      lstart, rstart := CycleSwap(a, loffs, roffs, pv, l, lb, ls, le, r, rb, rs, re, count);
    }
  }

  /** An exhausted left block is settled: l moves past it. */
  lemma LeftSettled(s: seq<int>, lofs: seq<byte>, rofs: seq<byte>, pv: int, lo: int,
                    l: int, l': int, lb: int, ls: int, r: int, rb: int, rs: int, re: int, hi: int)
    requires Blocks(s, lofs, rofs, pv, lo, l, lb, ls, ls, r, rb, rs, re, hi) && l' == l + lb
    ensures Blocks(s, lofs, rofs, pv, lo, l', 0, ls, ls, r, rb, rs, re, hi)
  {
    forall p | l <= p < l'
      ensures s[p] < pv
    {
      assert LeftListed(lofs, ls, ls, l, p) <==> pv <= s[p];
    }
  }

  /** An exhausted right block is settled: r moves before it. */
  lemma RightSettled(s: seq<int>, lofs: seq<byte>, rofs: seq<byte>, pv: int, lo: int,
                     l: int, lb: int, ls: int, le: int, r: int, r': int, rb: int, rs: int, hi: int)
    requires Blocks(s, lofs, rofs, pv, lo, l, lb, ls, le, r, rb, rs, rs, hi) && r' == r - rb
    ensures Blocks(s, lofs, rofs, pv, lo, l, lb, ls, le, r', 0, rs, rs, hi)
  {
    forall p | r' <= p < r
      ensures pv <= s[p]
    {
      assert RightListed(rofs, rs, rs, r, p) <==> s[p] < pv;
    }
  }

  /** One step of the last loop of `partitionInBlocks` for a pending left
      block that fills the rest [l, r) of the window: its last listed
      element (not below pv) trades places with a[r-1], and r steps back. */
  lemma LeftShrink(s: seq<int>, t: seq<int>, offs: seq<byte>, pv: int, lo: int, l: int, r: int, r': int, hi: int,
                   ls: int, le: int, le': int, q: int)
    requires Settled(s, pv, lo, l, r, hi) && LeftPending(s, offs, pv, l, r - l, ls, le) && Increasing(offs, le)
    requires ls < le && le' == le - 1 && r' == r - 1 && q == l + offs[le']
    requires t == s[q := s[r']][r' := s[q]]
    ensures Settled(t, pv, lo, l, r', hi) && LeftPending(t, offs, pv, l, r' - l, ls, le') && Increasing(offs, le')
  {
    assert LeftListed(offs, ls, le, l, q);
    if le' > 0 {
      assert Increasing(offs, le - 1);
    }
    forall x | ls <= x < le'
      ensures offs[x] < r' - l
    {
      IncreasingPair(offs, le, x, le');
    }
    if q < r' {
      assert LeftListed(offs, ls, le, l, r') <==> pv <= s[r'];
      if LeftListed(offs, ls, le, l, r') {
        var x :| ls <= x < le && l + offs[x] == r';
        if x < le' {
          IncreasingPair(offs, le, x, le');
        }
      }
    }
    forall p | l <= p < r'
      ensures LeftListed(offs, ls, le', l, p) <==> pv <= t[p]
    {
      assert LeftListed(offs, ls, le, l, p) <==> pv <= s[p];
      if LeftListed(offs, ls, le', l, p) {
        var x :| ls <= x < le' && l + offs[x] == p;
        IncreasingPair(offs, le, x, le');
        assert LeftListed(offs, ls, le, l, p);
      }
      if pv <= t[p] && p != q {
        var x :| ls <= x < le && l + offs[x] == p;
        assert LeftListed(offs, ls, le', l, p);
      }
    }
  }

  /** One step of the last loop of `partitionInBlocks` for a pending right
      block that fills the rest [l, r) of the window: its last listed
      element (below pv) trades places with a[l], and l steps on. */
  lemma RightShrink(s: seq<int>, t: seq<int>, offs: seq<byte>, pv: int, lo: int, l: int, l': int, r: int, hi: int,
                    rs: int, re: int, re': int, q: int)
    requires Settled(s, pv, lo, l, r, hi) && RightPending(s, offs, pv, r, r - l, rs, re) && Increasing(offs, re)
    requires rs < re && re' == re - 1 && l' == l + 1 && q == r - offs[re'] - 1
    requires t == s[l := s[q]][q := s[l]]
    ensures Settled(t, pv, lo, l', r, hi) && RightPending(t, offs, pv, r, r - l', rs, re') && Increasing(offs, re')
  {
    assert RightListed(offs, rs, re, r, q);
    if re' > 0 {
      assert Increasing(offs, re - 1);
    }
    forall x | rs <= x < re'
      ensures offs[x] < r - l'
    {
      IncreasingPair(offs, re, x, re');
    }
    if l < q {
      assert RightListed(offs, rs, re, r, l) <==> s[l] < pv;
      if RightListed(offs, rs, re, r, l) {
        var x :| rs <= x < re && r - offs[x] - 1 == l;
        if x < re' {
          IncreasingPair(offs, re, x, re');
        }
      }
    }
    forall p | l' <= p < r
      ensures RightListed(offs, rs, re', r, p) <==> t[p] < pv
    {
      assert RightListed(offs, rs, re, r, p) <==> s[p] < pv;
      if RightListed(offs, rs, re', r, p) {
        var x :| rs <= x < re' && r - offs[x] - 1 == p;
        IncreasingPair(offs, re, x, re');
        assert RightListed(offs, rs, re, r, p);
      }
      if t[p] < pv && p != q {
        var x :| rs <= x < re && r - offs[x] - 1 == p;
        assert RightListed(offs, rs, re', r, p);
      }
    }
  }

  /** The last loop of `partitionInBlocks` when the left block [l, r) is
      still pending: its listed elements, last first, trade places with the
      element before r, and r steps back. The window is then split at r. */
  method DrainLeft(a: array<int>, loffs: array<byte>, pv: int, lo: int, l: int, r: int, hi: int,
                   ls: int, le: int) returns (m: int)
    requires Settled(a[..], pv, lo, l, r, hi) && LeftPending(a[..], loffs[..], pv, l, r - l, ls, le)
    requires Increasing(loffs[..], le)
    modifies a
    ensures Settled(a[..], pv, lo, m, m, hi)
    ensures Untouched(a[..], old(a[..]), lo, hi) && multiset(a[..]) == multiset(old(a[..]))
  {
    var lend := le;
    m := r;
    while ls < lend
      invariant Settled(a[..], pv, lo, l, m, hi) && LeftPending(a[..], loffs[..], pv, l, m - l, ls, lend)
      invariant Increasing(loffs[..], lend)
      invariant Untouched(a[..], old(a[..]), lo, hi) && multiset(a[..]) == multiset(old(a[..]))
      decreases lend
    {
      var lnext, mnext := lend - 1, m - 1;
      ghost var s := a[..];
      var q := l + loffs[lnext];
      Swap(a, q, mnext);
      LeftShrink(s, a[..], loffs[..], pv, lo, l, m, mnext, hi, ls, lend, lnext, q);
      lend, m := lnext, mnext;
    }
    forall p | l <= p < m
      ensures a[p] < pv
    {
      assert LeftListed(loffs[..], ls, ls, l, p) <==> pv <= a[p];
    }
  }

  /** The last loop of `partitionInBlocks` when the right block [l, r) is
      still pending: its listed elements, last first, trade places with
      a[l], and l steps on. The window is then split at l. */
  method DrainRight(a: array<int>, roffs: array<byte>, pv: int, lo: int, l: int, r: int, hi: int,
                    rs: int, re: int) returns (m: int)
    requires Settled(a[..], pv, lo, l, r, hi) && RightPending(a[..], roffs[..], pv, r, r - l, rs, re)
    requires Increasing(roffs[..], re)
    modifies a
    ensures Settled(a[..], pv, lo, m, m, hi)
    ensures Untouched(a[..], old(a[..]), lo, hi) && multiset(a[..]) == multiset(old(a[..]))
  {
    var rend := re;
    m := l;
    while rs < rend
      invariant Settled(a[..], pv, lo, m, r, hi) && RightPending(a[..], roffs[..], pv, r, r - m, rs, rend)
      invariant Increasing(roffs[..], rend)
      invariant Untouched(a[..], old(a[..]), lo, hi) && multiset(a[..]) == multiset(old(a[..]))
      decreases rend
    {
      var rnext, mnext := rend - 1, m + 1;
      ghost var s := a[..];
      var q := r - roffs[rnext] - 1;
      Swap(a, m, q);
      RightShrink(s, a[..], roffs[..], pv, lo, m, mnext, r, hi, rs, rend, rnext, q);
      rend, m := rnext, mnext;
    }
    forall p | m <= p < r
      ensures pv <= a[p]
    {
      assert RightListed(roffs[..], rs, rs, r, p) <==> a[p] < pv;
    }
  }

  /** One round of the main loop of `partitionInBlocks`. Go keeps lblock
      and rblock across rounds, but they differ from BlockSize only in the
      last round (isDone), when the rest of the window, at most two blocks,
      is shared out: a pending block keeps its size and the other block
      takes the remainder, or two fresh blocks split it in halves. Each
      round settles at least one block, so unless isDone, r - l shrinks. */
  method Round(a: array<int>, loffs: array<byte>, roffs: array<byte>, pv: int, lo: int, hi: int,
               l: int, ghost lb: int, ls: int, le: int, r: int, ghost rb: int, rs: int, re: int)
    returns (l': int, ghost lb': int, ls': int, le': int, r': int, ghost rb': int, rs': int, re': int,
             isDone: bool)
    requires loffs != roffs && loffs.Length == BlockSize && roffs.Length == BlockSize
    requires Blocks(a[..], loffs[..], roffs[..], pv, lo, l, lb, ls, le, r, rb, rs, re, hi)
    requires !(ls < le && rs < re)
    requires (ls < le ==> lb == BlockSize) && (ls == le ==> lb == 0)
    requires (rs < re ==> rb == BlockSize) && (rs == re ==> rb == 0)
    modifies a, loffs, roffs
    ensures Blocks(a[..], loffs[..], roffs[..], pv, lo, l', lb', ls', le', r', rb', rs', re', hi)
    ensures !(ls' < le' && rs' < re')
    ensures ls' == le' ==> lb' == 0
    ensures rs' == re' ==> rb' == 0
    ensures isDone ==> l' + lb' == r' - rb'
    ensures !isDone ==> r' - l' < r - l && (ls' < le' ==> lb' == BlockSize) && (rs' < re' ==> rb' == BlockSize)
    ensures Untouched(a[..], old(a[..]), lo, hi) && multiset(a[..]) == multiset(old(a[..]))
  {
    var lblock, rblock := BlockSize, BlockSize;
    isDone := r - l <= 2 * BlockSize;
    if isDone {
      var rem := r - l;
      if ls < le || rs < re {
        rem := rem - BlockSize;
      }
      if ls < le {
        rblock := rem;
      } else if rs < re {
        lblock := rem;
      } else {
        lblock := rem / 2;
        rblock := rem - lblock;
      }
    }
    ls', le', rs', re' := FillBlocks(a, loffs, roffs, pv, lo, hi, l, lb, lblock, ls, le, r, rb, rblock, rs, re);
    ls', rs' := Exchange(a, loffs, roffs, pv, lo, hi, l, lblock, ls', le', r, rblock, rs', re');
    l', lb', r', rb' := l, lblock, r, rblock;
    if ls' == le' {
      var lnext := l + lblock;
      LeftSettled(a[..], loffs[..], roffs[..], pv, lo, l, lnext, lblock, ls', r, rblock, rs', re', hi);
      l', lb' := lnext, 0;
    }
    if rs' == re' {
      var rnext := r - rblock;
      RightSettled(a[..], loffs[..], roffs[..], pv, lo, l', lb', ls', le', r, rnext, rblock, rs', hi);
      r', rb' := rnext, 0;
    }
  }

  /** The end of `partitionInBlocks`: what is left of the window is one
      pending block, drained by the last loops, or nothing. The result is
      the split point. */
  method Finish(a: array<int>, loffs: array<byte>, roffs: array<byte>, pv: int, lo: int, hi: int,
                l: int, ghost lb: int, ls: int, le: int, r: int, ghost rb: int, rs: int, re: int)
    returns (m: int)
    requires Blocks(a[..], loffs[..], roffs[..], pv, lo, l, lb, ls, le, r, rb, rs, re, hi)
    requires !(ls < le && rs < re) && (ls == le ==> lb == 0) && (rs == re ==> rb == 0)
    requires l + lb == r - rb
    modifies a
    ensures Settled(a[..], pv, lo, m, m, hi)
    ensures Untouched(a[..], old(a[..]), lo, hi) && multiset(a[..]) == multiset(old(a[..]))
  {
    if ls < le {
      m := DrainLeft(a, loffs, pv, lo, l, r, hi, ls, le);
    } else if rs < re {
      m := DrainRight(a, roffs, pv, lo, l, r, hi, rs, re);
    } else {
      m := l;
    }
  }

  /** `partitionInBlocks` on the window [lo, hi) with pivot value pv: the
      window is split into the elements below pv, which come first, and the
      others; the result is the split point, counted from lo. Blocks of
      BlockSize elements are taken from both ends; the offsets of the
      misplaced elements of each are recorded and the two sets exchanged. */
  method PartitionInBlocks(a: array<int>, lo: int, hi: int, pv: int) returns (k: int)
    requires 0 <= lo <= hi <= a.Length
    modifies a
    ensures 0 <= k <= hi - lo
    ensures forall p :: lo <= p < lo + k ==> a[p] < pv
    ensures forall p :: lo + k <= p < hi ==> pv <= a[p]
    ensures Untouched(a[..], old(a[..]), lo, hi) && multiset(a[..]) == multiset(old(a[..]))
  {
    var loffs := new byte[BlockSize];
    var roffs := new byte[BlockSize];
    var lstart, lend, rstart, rend := 0, 0, 0, 0;
    var l, r := lo, hi;
    ghost var lb, rb := 0, 0;
    var isDone := false;
    while !isDone
      invariant Blocks(a[..], loffs[..], roffs[..], pv, lo, l, lb, lstart, lend, r, rb, rstart, rend, hi)
      invariant !(lstart < lend && rstart < rend) && (lstart == lend ==> lb == 0) && (rstart == rend ==> rb == 0)
      invariant !isDone ==> (lstart < lend ==> lb == BlockSize) && (rstart < rend ==> rb == BlockSize)
      invariant isDone ==> l + lb == r - rb
      invariant Untouched(a[..], old(a[..]), lo, hi) && multiset(a[..]) == multiset(old(a[..]))
      decreases !isDone, r - l
    {
      l, lb, lstart, lend, r, rb, rstart, rend, isDone :=
        Round(a, loffs, roffs, pv, lo, hi, l, lb, lstart, lend, r, rb, rstart, rend);
    }
    var m := Finish(a, loffs, roffs, pv, lo, hi, l, lb, lstart, lend, r, rb, rstart, rend);
    k := m - lo;
  }

  /** s[lo..hi) is already split around pv: no element that is not below
      pv comes before one that is. */
  ghost predicate SplitAround(s: seq<int>, lo: int, hi: int, pv: int)
  {
    0 <= lo <= hi <= |s| && forall i, j :: lo <= i < j < hi ==> !Inverted(s, i, j, pv)
  }

  /** s[i] is not below pv but the later s[j] is. */
  ghost predicate Inverted(s: seq<int>, i: int, j: int, pv: int)
    requires 0 <= i < |s| && 0 <= j < |s|
  {
    pv <= s[i] && s[j] < pv
  }

  /** The two scans of `partition` over a[b..hi): l passes the elements
      below pv at the front, r the others at the back. They meet exactly
      when the window is already split around pv. */
  method SkipPlaced(a: array<int>, b: int, hi: int, pv: int) returns (l: int, r: int)
    requires 0 <= b <= hi <= a.Length
    ensures 0 <= l <= r <= hi - b
    ensures forall p :: b <= p < b + l ==> a[p] < pv
    ensures forall p :: b + r <= p < hi ==> pv <= a[p]
    ensures l < r ==> pv <= a[b + l] && a[b + r - 1] < pv
    ensures l < r <==> !SplitAround(a[..], b, hi, pv)
  {
    l, r := 0, hi - b;
    while l < r && a[b + l] < pv
      invariant 0 <= l <= r == hi - b
      invariant forall p :: b <= p < b + l ==> a[p] < pv
    {
      l := l + 1;
    }
    while l < r && a[b + r - 1] >= pv
      invariant 0 <= l <= r <= hi - b
      invariant forall p :: b + r <= p < hi ==> pv <= a[p]
      invariant l < r ==> pv <= a[b + l]
    {
      r := r - 1;
    }
    if l < r {
      assert !SplitAround(a[..], b, hi, pv) by {
        assert Inverted(a[..], b + l, b + r - 1, pv);
      }
    }
  }

  /** The middle of `partition` on the window a[b..hi) after the pivot: the
      scans skip what is already in place, and `partitionInBlocks` splits
      what lies between them. m is the size of the part below pv, and
      wasPartitioned that the scans met, in which case nothing moved. */
  method SplitWindow(a: array<int>, b: int, hi: int, pv: int) returns (m: int, wasPartitioned: bool)
    requires 0 <= b <= hi <= a.Length
    modifies a
    ensures 0 <= m <= hi - b
    ensures forall p :: b <= p < b + m ==> a[p] < pv
    ensures forall p :: b + m <= p < hi ==> pv <= a[p]
    ensures Untouched(a[..], old(a[..]), b, hi) && multiset(a[..]) == multiset(old(a[..]))
    ensures wasPartitioned <==> SplitAround(old(a[..]), b, hi, pv)
    ensures wasPartitioned ==> a[..] == old(a[..])
  {
    ghost var s1 := a[..];
    var l, r := SkipPlaced(a, b, hi, pv);
    var lb, rb := b + l, b + r;
    var k := PartitionInBlocks(a, lb, rb, pv);
    m := l + k;
    assert forall p :: b + m <= p < hi ==> pv <= a[p] by {
      forall p | b + m <= p < hi ensures pv <= a[p] {
        if p >= rb { assert a[p] == a[..][p] == s1[p]; }
      }
    }
    wasPartitioned := l >= r;
    if wasPartitioned {
      assert a[..] == s1;
    }
  }

  /** The last step of `partition`: the pivot at a[lo] is swapped with the
      last element below it, so that it ends up between the two sides. */
  method PlacePivot(a: array<int>, lo: int, hi: int, mid: int)
    requires 0 <= lo && 0 <= mid && lo + mid < hi <= a.Length
    requires forall p :: lo + 1 <= p < lo + 1 + mid ==> a[p] < a[lo]
    requires forall p :: lo + 1 + mid <= p < hi ==> a[lo] <= a[p]
    modifies a
    ensures a[..] == old(a[..])[lo := old(a[lo + mid])][lo + mid := old(a[lo])]
    ensures forall p :: lo <= p < lo + mid ==> a[p] < a[lo + mid]
    ensures forall p :: lo + mid < p < hi ==> a[lo + mid] <= a[p]
    ensures Untouched(a[..], old(a[..]), lo, hi) && multiset(a[..]) == multiset(old(a[..]))
  {
    Swap(a, lo, lo + mid);
  }

  /** `partition` once the pivot is at a[lo]: the rest of the window is
      split around it and it is swapped to the split point lo + mid. */
  method PartitionFront(a: array<int>, lo: int, hi: int) returns (mid: int, wasPartitioned: bool)
    requires 0 <= lo < hi <= a.Length
    modifies a
    ensures 0 <= mid < hi - lo && a[lo + mid] == old(a[lo])
    ensures forall p :: lo <= p < lo + mid ==> a[p] < a[lo + mid]
    ensures forall p :: lo + mid < p < hi ==> a[lo + mid] <= a[p]
    ensures Untouched(a[..], old(a[..]), lo, hi) && multiset(a[..]) == multiset(old(a[..]))
    ensures wasPartitioned <==> SplitAround(old(a[..]), lo + 1, hi, old(a[lo]))
    ensures wasPartitioned ==> forall p :: lo < p < hi && p != lo + mid ==> a[p] == old(a[p])
  {
    ghost var s1 := a[..];
    var pv := a[lo];
    mid, wasPartitioned := SplitWindow(a, lo + 1, hi, pv);
    ghost var s2 := a[..];
    PlacePivot(a, lo, hi, mid);
    PartitionFrame(s1, s2, a[..], lo, hi, mid, wasPartitioned);
  }

  /** What the two steps of `PartitionFront` leave outside the window, and
      what an already split window keeps. */
  lemma PartitionFrame(s1: seq<int>, s2: seq<int>, s3: seq<int>, lo: int, hi: int, mid: int, w: bool)
    requires 0 <= lo && 0 <= mid && lo + mid < hi <= |s1|
    requires Untouched(s2, s1, lo + 1, hi) && multiset(s2) == multiset(s1)
    requires w ==> s2 == s1
    requires s3 == s2[lo := s2[lo + mid]][lo + mid := s2[lo]] && multiset(s3) == multiset(s2)
    ensures Untouched(s3, s1, lo, hi) && multiset(s3) == multiset(s1)
    ensures w ==> forall p :: lo < p < hi && p != lo + mid ==> s3[p] == s1[p]
  {
  }

  /** `partition` of the window [lo, hi) around its element at offset
      pivot: the pivot goes to the front, the rest of the window is split
      around it, and the pivot is swapped to the split point mid.
      wasPartitioned says that the window after the pivot was already
      split; then only the pivot has moved. */
  method Partition(a: array<int>, lo: int, hi: int, pivot: int) returns (mid: int, wasPartitioned: bool)
    requires 0 <= lo && 0 <= pivot && lo + pivot < hi <= a.Length
    modifies a
    ensures 0 <= mid < hi - lo && a[lo + mid] == old(a[lo + pivot])
    ensures forall p :: lo <= p < lo + mid ==> a[p] < a[lo + mid]
    ensures forall p :: lo + mid < p < hi ==> a[lo + mid] <= a[p]
    ensures Untouched(a[..], old(a[..]), lo, hi) && multiset(a[..]) == multiset(old(a[..]))
    ensures wasPartitioned <==>
              SplitAround(old(a[..])[lo := old(a[lo + pivot])][lo + pivot := old(a[lo])], lo + 1, hi, old(a[lo + pivot]))
    ensures wasPartitioned ==>
              forall p :: lo < p < hi && p != lo + mid ==>
                a[p] == old(a[..])[lo := old(a[lo + pivot])][lo + pivot := old(a[lo])][p]
  {
    Swap(a, lo, lo + pivot);
    mid, wasPartitioned := PartitionFront(a, lo, hi);
  }
}
