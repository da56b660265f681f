/** The B-tree of regular/src/btree.rs: minimum degree T = 3, i32 keys,
    duplicates allowed.  Insertion splits every full child on the way
    down; removal tops up a thin child before descending into it.

    Nodes are values and every node operation returns the node it leaves
    behind.  `Flat(n)` lists the keys under n in order (each child's keys,
    then the key to its right); splitting, merging and borrowing leave it
    unchanged, and the B-tree order is the statement that it is sorted. */
module BTree {
  import opened Base

  /** The minimum degree. */
  const T: nat := 3

  /** A node: its keys and, unless it is a leaf, one child more than keys. */
  datatype Node = Node(keys: seq<int>, children: seq<Node>)

  /** `is_leaf`. */
  predicate Leaf(n: Node)
  {
    n.children == []
  }

  /** `is_full`. */
  predicate Full(n: Node)
  {
    |n.keys| == 2 * T - 1
  }

  // ---------------------------------------------------------------------------
  // Keys in order.

  /** The keys under n in order. */
  function Flat(n: Node): seq<int>
    decreases n, 2, 0
  {
    if n.children == [] then n.keys else Range(n, 0, |n.children|)
  }

  /** The key to the right of child i, if there is one. */
  function KeyAt(n: Node, i: nat): seq<int>
  {
    if i < |n.keys| then [n.keys[i]] else []
  }

  /** Child i's keys followed by the key to its right. */
  function Seg(n: Node, i: nat): seq<int>
    requires i < |n.children|
    decreases n, 0, 0
  {
    Flat(n.children[i]) + KeyAt(n, i)
  }

  /** The segments of children lo up to hi. */
  function Range(n: Node, lo: nat, hi: nat): seq<int>
    requires lo <= hi <= |n.children|
    decreases n, 1, hi - lo
  {
    if lo == hi then [] else Range(n, lo, hi - 1) + Seg(n, hi - 1)
  }

  /** What follows child p: the key to its right and the later segments. */
  function Tail(n: Node, p: nat): seq<int>
    requires p < |n.children|
  {
    KeyAt(n, p) + Range(n, p + 1, |n.children|)
  }

  ghost predicate Sorted(s: seq<int>)
  {
    forall i, j :: 0 <= i < j < |s| ==> s[i] <= s[j]
  }

  /** Every element of a is at most every element of b. */
  ghost predicate Le(a: seq<int>, b: seq<int>)
  {
    forall x, y :: x in a && y in b ==> x <= y
  }

  // ---------------------------------------------------------------------------
  // Shape.

  /** A node of height h: a leaf when h is 0, otherwise one child more than
      keys, each a well-formed node of height h - 1 (so all leaves are at
      the same depth). */
  ghost predicate Shaped(n: Node, h: nat)
    decreases h, 0
  {
    if h == 0 then n.children == []
    else |n.children| == |n.keys| + 1 && forall i :: 0 <= i < |n.children| ==> Wf(n.children[i], h - 1)
  }

  /** A non-root node: between T - 1 and 2T - 1 keys. */
  ghost predicate Wf(n: Node, h: nat)
    decreases h, 1
  {
    T - 1 <= |n.keys| <= 2 * T - 1 && Shaped(n, h)
  }

  /** Two nodes of the same kind: both leaves, or both inner nodes with one
      child more than keys. */
  ghost predicate Kin(a: Node, b: Node)
  {
    (a.children == [] && b.children == []) || (|a.children| == |a.keys| + 1 && |b.children| == |b.keys| + 1)
  }

  /** Two nodes joined around a key. */
  function Join(a: Node, k: int, b: Node): Node
  {
    Node(a.keys + [k] + b.keys, a.children + b.children)
  }

  // ---------------------------------------------------------------------------
  // Facts about sorted sequences.

  lemma SortedJoin(a: seq<int>, b: seq<int>)
    ensures Sorted(a + b) <==> Sorted(a) && Sorted(b) && Le(a, b)
  {
    var s := a + b;
    if Sorted(s) {
      forall i, j | 0 <= i < j < |a| ensures a[i] <= a[j] {
        assert s[i] == a[i] && s[j] == a[j];
      }
      forall i, j | 0 <= i < j < |b| ensures b[i] <= b[j] {
        assert s[|a| + i] == b[i] && s[|a| + j] == b[j];
      }
      forall x, y | x in a && y in b ensures x <= y {
        var i :| 0 <= i < |a| && a[i] == x;
        var j :| 0 <= j < |b| && b[j] == y;
        assert s[i] == x && s[|a| + j] == y;
      }
    }
    if Sorted(a) && Sorted(b) && Le(a, b) {
      forall i, j | 0 <= i < j < |s| ensures s[i] <= s[j] {
        if j < |a| {
          assert s[i] == a[i] && s[j] == a[j];
        } else if i >= |a| {
          assert s[i] == b[i - |a|] && s[j] == b[j - |a|];
        } else {
          assert s[i] == a[i] && s[j] == b[j - |a|];
          assert a[i] in a && b[j - |a|] in b;
        }
      }
    }
  }

  /** Sortedness of three parts around a middle. */
  lemma SortedJoin3(a: seq<int>, c: seq<int>, b: seq<int>)
    ensures Sorted(a + c + b) <==> Sorted(a) && Sorted(c) && Sorted(b) && Le(a, c) && Le(c, b) && Le(a, b)
  {
    SortedJoin(a, c);
    SortedJoin(a + c, b);
    if Le(a, c) && Le(c, b) && Le(a, b) {
      forall x, y | x in a + c && y in b ensures x <= y {
        if x in a {
        }
      }
    }
    if Le(a + c, b) {
      forall x, y | x in a && y in b ensures x <= y {
        assert x in a + c;
      }
      forall x, y | x in c && y in b ensures x <= y {
        assert x in a + c;
      }
    }
  }

  /** In a sorted sequence every element is between the first and the last. */
  lemma SortedEnds(s: seq<int>)
    requires Sorted(s) && |s| > 0
    ensures forall x :: x in s ==> s[0] <= x <= s[|s| - 1]
  {
    forall x | x in s ensures s[0] <= x <= s[|s| - 1] {
      var i :| 0 <= i < |s| && s[i] == x;
    }
  }

  /** Putting, around a middle, elements that all came from the old middle
      and are themselves in order keeps the whole in order. */
  lemma SortedSubst(a: seq<int>, c: seq<int>, c': seq<int>, b: seq<int>)
    requires Sorted(a + c + b) && Sorted(c') && forall x :: x in c' ==> x in c
    ensures Sorted(a + c' + b)
  {
    SortedJoin3(a, c, b);
    SortedJoin3(a, c', b);
  }

  // ---------------------------------------------------------------------------
  // Facts about Flat.

  lemma {:induction false} RangeSplit(n: Node, lo: nat, mid: nat, hi: nat)
    requires lo <= mid <= hi <= |n.children|
    ensures Range(n, lo, hi) == Range(n, lo, mid) + Range(n, mid, hi)
    decreases hi
  {
    if mid < hi {
      RangeSplit(n, lo, mid, hi - 1);
      assert Range(n, lo, hi) == Range(n, lo, hi - 1) + Seg(n, hi - 1);
      assert Range(n, mid, hi) == Range(n, mid, hi - 1) + Seg(n, hi - 1);
    }
  }

  /** Segments that agree one for one make equal ranges. */
  lemma {:induction false} RangeShift(n: Node, lo: nat, m: Node, lo': nat, w: nat)
    requires lo + w <= |n.children| && lo' + w <= |m.children|
    requires forall i :: lo' <= i < lo' + w ==> Seg(m, i) == Seg(n, i - lo' + lo)
    ensures Range(m, lo', lo' + w) == Range(n, lo, lo + w)
    decreases w
  {
    if w > 0 {
      RangeShift(n, lo, m, lo', w - 1);
      assert Seg(m, lo' + w - 1) == Seg(n, lo + w - 1);
    }
  }

  lemma Range1(n: Node, i: nat)
    requires i < |n.children|
    ensures Range(n, i, i + 1) == Seg(n, i)
  {
    assert Range(n, i, i) == [];
  }

  lemma Range2(n: Node, i: nat)
    requires i + 1 < |n.children|
    ensures Range(n, i, i + 2) == Seg(n, i) + Seg(n, i + 1)
  {
    Range1(n, i);
  }

  /** An inner node's keys around child p. */
  lemma Around(n: Node, p: nat)
    requires n.children != [] && p < |n.children|
    ensures Flat(n) == Range(n, 0, p) + Flat(n.children[p]) + Tail(n, p)
  {
    RangeSplit(n, 0, p, |n.children|);
    RangeSplit(n, p, p + 1, |n.children|);
    Range1(n, p);
    AssocAround(Range(n, 0, p), Flat(n.children[p]), KeyAt(n, p), Range(n, p + 1, |n.children|));
  }

  lemma AssocAround(a: seq<int>, f: seq<int>, k: seq<int>, r: seq<int>)
    ensures a + ((f + k) + r) == a + f + (k + r)
  {
  }

  /** Two inner nodes that agree outside a window of children (w children
      of n, w' of m, starting at `at`) list the same keys outside it. */
  lemma Edit(n: Node, m: Node, at: nat, w: nat, w': nat)
    requires |n.children| == |n.keys| + 1 && |m.children| == |m.keys| + 1
    requires 0 < w && 0 < w' && at + w <= |n.children| && at + w' <= |m.children|
    requires |m.children| - w' == |n.children| - w
    requires m.children[..at] == n.children[..at] && m.keys[..at] == n.keys[..at]
    requires m.children[at + w'..] == n.children[at + w..]
    requires at + w' <= |m.keys| ==> m.keys[at + w'..] == n.keys[at + w..]
    ensures Flat(n) == Range(n, 0, at) + Range(n, at, at + w) + Range(n, at + w, |n.children|)
    ensures Flat(m) == Range(n, 0, at) + Range(m, at, at + w') + Range(n, at + w, |n.children|)
  {
    RangeSplit(n, 0, at, |n.children|);
    RangeSplit(n, at, at + w, |n.children|);
    RangeSplit(m, 0, at, |m.children|);
    RangeSplit(m, at, at + w', |m.children|);
    EditPrefix(n, m, at);
    EditSuffix(n, m, at, w, w');
    Assoc3(Range(n, 0, at), Range(n, at, at + w), Range(n, at + w, |n.children|));
    Assoc3(Range(n, 0, at), Range(m, at, at + w'), Range(n, at + w, |n.children|));
  }

  lemma Assoc3(a: seq<int>, b: seq<int>, c: seq<int>)
    ensures a + (b + c) == a + b + c
  {
  }

  lemma EditPrefix(n: Node, m: Node, at: nat)
    requires at <= |n.children| && at <= |m.children| && at <= |n.keys| && at <= |m.keys|
    requires m.children[..at] == n.children[..at] && m.keys[..at] == n.keys[..at]
    ensures Range(m, 0, at) == Range(n, 0, at)
  {
    forall i | 0 <= i < at ensures Seg(m, i) == Seg(n, i - 0 + 0) {
      assert m.children[i] == m.children[..at][i];
      assert n.children[i] == n.children[..at][i];
      assert m.keys[i] == m.keys[..at][i];
      assert n.keys[i] == n.keys[..at][i];
    }
    RangeShift(n, 0, m, 0, at);
  }

  lemma EditSuffix(n: Node, m: Node, at: nat, w: nat, w': nat)
    requires |n.children| == |n.keys| + 1 && |m.children| == |m.keys| + 1
    requires at + w <= |n.children| && at + w' <= |m.children|
    requires |m.children| - w' == |n.children| - w
    requires m.children[at + w'..] == n.children[at + w..]
    requires at + w' <= |m.keys| ==> m.keys[at + w'..] == n.keys[at + w..]
    ensures Range(m, at + w', |m.children|) == Range(n, at + w, |n.children|)
  {
    var rest := |n.children| - (at + w);
    forall i | at + w' <= i < at + w' + rest ensures Seg(m, i) == Seg(n, i - (at + w') + (at + w)) {
      var d := i - (at + w');
      assert m.children[i] == m.children[at + w'..][d];
      assert n.children[at + w + d] == n.children[at + w..][d];
      if i < |m.keys| {
        assert m.keys[i] == m.keys[at + w'..][d];
        assert n.keys[at + w + d] == n.keys[at + w..][d];
      }
    }
    RangeShift(n, at + w, m, at + w', rest);
  }

  /** Joining two nodes of the same kind around k lists their keys around k. */
  lemma FlatJoin(a: Node, k: int, b: Node)
    requires Kin(a, b)
    ensures Flat(Join(a, k, b)) == Flat(a) + [k] + Flat(b)
  {
    var j := Join(a, k, b);
    if a.children != [] {
      var m := |a.children|;
      RangeSplit(j, 0, m - 1, |j.children|);
      RangeSplit(j, m - 1, m, |j.children|);
      Range1(j, m - 1);
      assert j.children[..m - 1] == a.children[..m - 1];
      assert j.keys[..m - 1] == a.keys[..m - 1];
      EditPrefix(a, j, m - 1);
      assert j.children[m..] == b.children[0..];
      assert j.keys[m..] == b.keys[0..];
      EditSuffix(b, j, 0, 0, m);
      RangeSplit(a, 0, m - 1, m);
      Range1(a, m - 1);
      assert Seg(j, m - 1) == Flat(a.children[m - 1]) + [k];
      assert Seg(a, m - 1) == Flat(a.children[m - 1]);
      Assoc4(Range(a, 0, m - 1), Flat(a.children[m - 1]), [k], Flat(b));
    }
  }

  lemma Assoc4(p: seq<int>, f: seq<int>, k: seq<int>, q: seq<int>)
    ensures p + (f + k) + q == p + f + k + q
  {
  }

  /** Every key of a node is listed under it. */
  lemma KeysListed(n: Node)
    requires n.children == [] || |n.children| == |n.keys| + 1
    ensures forall i :: 0 <= i < |n.keys| ==> n.keys[i] in Flat(n)
  {
    if n.children != [] {
      forall i | 0 <= i < |n.keys| ensures n.keys[i] in Flat(n) {
        Around(n, i);
        assert n.keys[i] in Tail(n, i);
      }
    }
  }

  /** The keys under child p of an inner node whose keys are in order: in
      order themselves, at least the key left of child p and at most the
      key right of it. */
  lemma Fence(n: Node, p: nat)
    requires |n.children| == |n.keys| + 1 && p < |n.children| && Sorted(Flat(n))
    ensures Flat(n) == Range(n, 0, p) + Flat(n.children[p]) + Tail(n, p)
    ensures Sorted(Flat(n.children[p]))
    ensures p > 0 ==> forall x :: x in Range(n, 0, p) ==> x <= n.keys[p - 1]
    ensures p < |n.keys| ==> forall x :: x in Tail(n, p) ==> n.keys[p] <= x
    ensures p > 0 ==> forall x :: x in Flat(n.children[p]) ==> n.keys[p - 1] <= x
    ensures p < |n.keys| ==> forall x :: x in Flat(n.children[p]) ==> x <= n.keys[p]
  {
    Around(n, p);
    var a, c, b := Range(n, 0, p), Flat(n.children[p]), Tail(n, p);
    SortedJoin3(a, c, b);
    if p > 0 {
      assert a == Range(n, 0, p - 1) + Flat(n.children[p - 1]) + [n.keys[p - 1]];
      SortedEnds(a);
      assert n.keys[p - 1] in a;
    }
    if p < |n.keys| {
      assert b == [n.keys[p]] + Range(n, p + 1, |n.children|);
      SortedEnds(b);
      assert n.keys[p] in b;
    }
  }

  /** k lies strictly between the keys around child p. */
  ghost predicate Between(n: Node, p: nat, k: int)
    requires p <= |n.keys|
  {
    (p == 0 || n.keys[p - 1] < k) && (p == |n.keys| || k < n.keys[p])
  }

  /** The keys under a child of a node whose keys are in order are in
      order. */
  lemma ChildSorted(n: Node, p: nat)
    requires |n.children| == |n.keys| + 1 && p < |n.children| && Sorted(Flat(n))
    ensures Flat(n) == Range(n, 0, p) + Flat(n.children[p]) + Tail(n, p)
    ensures Sorted(Flat(n.children[p]))
  {
    Fence(n, p);
  }

  /** A key strictly between the keys around child p can only be under
      child p. */
  lemma Descend(n: Node, p: nat, k: int)
    requires |n.children| == |n.keys| + 1 && p < |n.children| && Sorted(Flat(n))
    requires Between(n, p, k)
    ensures Flat(n) == Range(n, 0, p) + Flat(n.children[p]) + Tail(n, p)
    ensures Sorted(Flat(n.children[p]))
    ensures k !in Range(n, 0, p) && k !in Tail(n, p)
    ensures k in Flat(n) <==> k in Flat(n.children[p])
  {
    Fence(n, p);
    if p == 0 {
      assert Range(n, 0, p) == [];
    }
    if p == |n.keys| {
      assert Tail(n, p) == [];
    }
  }

  // ---------------------------------------------------------------------------
  // search_in_node (regular/src/btree.rs:41-51).

  /** The number of leading keys below k: where the scan stops. */
  function Below(keys: seq<int>, k: int): (p: nat)
    ensures p <= |keys|
    ensures forall i :: 0 <= i < p ==> keys[i] < k
    ensures p < |keys| ==> keys[p] >= k
  {
    if keys == [] || keys[0] >= k then 0 else 1 + Below(keys[1..], k)
  }

  /** `search_in_node`: Ok(i) when the scan meets k at i; otherwise Err(p)
      with p the number of keys passed, all below k. */
  function Locate(keys: seq<int>, k: int): (r: Result<nat, nat>)
    ensures r.Ok? ==> r.value < |keys| && keys[r.value] == k && forall i :: 0 <= i < r.value ==> keys[i] < k
    ensures r.Err? ==> r.error <= |keys| && (forall i :: 0 <= i < r.error ==> keys[i] < k)
    ensures r.Err? && r.error < |keys| ==> k < keys[r.error]
  {
    var p := Below(keys, k);
    if p < |keys| && keys[p] == k then Ok(p) else Err(p)
  }

  /** The loop of `search_in_node`. */
  method SearchInNode(n: Node, k: int) returns (r: Result<nat, nat>)
    ensures r == Locate(n.keys, k)
  {
    var p: nat := 0;
    var i: nat := 0;
    while i < |n.keys|
      invariant p == i <= |n.keys|
      invariant forall j :: 0 <= j < i ==> n.keys[j] < k
    {
      if n.keys[i] == k {
        return Ok(i);
      }
      if n.keys[i] > k {
        break;
      }
      p := i + 1;
      i := i + 1;
    }
    r := Err(p);
  }

  // ---------------------------------------------------------------------------
  // split_child (regular/src/btree.rs:53-63).

  /** `split_child`: the child at `at` keeps its first T - 1 keys (and T
      children), a new node takes the keys from T on (and the children from
      T on), and key T - 1 moves up into this node at `at`. */
  function SplitChild(n: Node, at: nat): (r: Node)
    requires at < |n.children| && at <= |n.keys|
    requires |n.children[at].keys| >= T && (Leaf(n.children[at]) || |n.children[at].children| >= T)
    ensures |r.keys| == |n.keys| + 1 && |r.children| == |n.children| + 1
  {
    var y := n.children[at];
    var z := Node(y.keys[T..], if Leaf(y) then [] else y.children[T..]);
    var y' := Node(y.keys[..T - 1], if Leaf(y) then y.children else y.children[..T]);
    Node(n.keys[..at] + [y.keys[T - 1]] + n.keys[at..], n.children[..at] + [y', z] + n.children[at + 1..])
  }

  /** A full child that can be split: a leaf, or an inner node with 2T
      children. */
  ghost predicate Splittable(y: Node)
  {
    Full(y) && (Leaf(y) || |y.children| == 2 * T)
  }

  /** Splitting a child leaves the keys in order unchanged. */
  lemma SplitFlat(n: Node, at: nat)
    requires |n.children| == |n.keys| + 1 && at < |n.children| && Splittable(n.children[at])
    ensures Flat(SplitChild(n, at)) == Flat(n)
  {
    var r := SplitChild(n, at);
    assert r.children[..at] == n.children[..at];
    assert r.keys[..at] == n.keys[..at];
    assert r.children[at + 2..] == n.children[at + 1..];
    if at < |n.keys| {
      assert r.keys[at + 2..] == n.keys[at + 1..];
    }
    Edit(n, r, at, 1, 2);
    SplitMiddle(n, at);
  }

  /** The two halves and the key between them list what the split child
      listed. */
  lemma SplitMiddle(n: Node, at: nat)
    requires |n.children| == |n.keys| + 1 && at < |n.children| && Splittable(n.children[at])
    ensures Range(SplitChild(n, at), at, at + 2) == Range(n, at, at + 1)
  {
    var y := n.children[at];
    var r := SplitChild(n, at);
    var y', z := r.children[at], r.children[at + 1];
    var m := y.keys[T - 1];
    assert y'.keys + [m] + z.keys == y.keys;
    assert y'.children + z.children == y.children;
    assert Join(y', m, z) == y;
    FlatJoin(y', m, z);
    Range1(n, at);
    Range2(r, at);
    assert KeyAt(r, at + 1) == KeyAt(n, at);
    assert Seg(r, at) == Flat(y') + [m];
    Assoc5(Flat(y'), [m], Flat(z), KeyAt(n, at));
  }

  lemma Assoc5(a: seq<int>, b: seq<int>, c: seq<int>, d: seq<int>)
    ensures (a + b) + (c + d) == a + b + c + d
  {
  }

  /** Splitting a full child of a node of height h keeps its shape. */
  lemma SplitShape(n: Node, at: nat, h: nat)
    requires Shaped(n, h) && h > 0 && at < |n.children| && Full(n.children[at])
    ensures at <= |n.keys| && Splittable(n.children[at])
    ensures Shaped(SplitChild(n, at), h)
  {
    var y := n.children[at];
    assert Wf(y, h - 1);
    if h > 1 {
      assert Shaped(y, h - 1);
      assert |y.children| == 2 * T;
    }
    var r := SplitChild(n, at);
    SplitHalves(y, h - 1, r.children[at], r.children[at + 1]);
    forall i | 0 <= i < |r.children| ensures Wf(r.children[i], h - 1) {
      if i < at {
        assert r.children[i] == n.children[i];
      } else if i > at + 1 {
        assert r.children[i] == n.children[i - 1];
      }
    }
  }

  /** The two halves of a full node are well formed. */
  lemma SplitHalves(y: Node, h: nat, y': Node, z: Node)
    requires Wf(y, h) && Full(y) && (Leaf(y) || |y.children| == 2 * T)
    requires y' == Node(y.keys[..T - 1], if Leaf(y) then y.children else y.children[..T])
    requires z == Node(y.keys[T..], if Leaf(y) then [] else y.children[T..])
    ensures Wf(y', h) && Wf(z, h)
  {
    if h > 0 {
      forall i | 0 <= i < |z.children| ensures Wf(z.children[i], h - 1) {
        assert z.children[i] == y.children[T + i];
      }
    }
  }

  /** Splitting a full child keeps the keys in order and the shape, puts the
      child's median key at `at` and leaves T - 1 keys in each half. */
  lemma SplitKeeps(n: Node, at: nat, h: nat)
    requires Shaped(n, h) && h > 0 && at < |n.children| && Full(n.children[at])
    ensures at <= |n.keys| && Splittable(n.children[at])
    ensures var r := SplitChild(n, at);
      Flat(r) == Flat(n) && Shaped(r, h) && r.keys[at] == n.children[at].keys[T - 1] &&
      |r.children[at].keys| == T - 1 && |r.children[at + 1].keys| == T - 1 &&
      r.keys[..at] == n.keys[..at] && r.keys[at + 1..] == n.keys[at..]
  {
    SplitShape(n, at, h);
    SplitFlat(n, at);
    var r := SplitChild(n, at);
    assert r.keys[at + 1..] == n.keys[at..];
  }

  /** Replacing a child by a well-formed node of the same height keeps the
      shape. */
  lemma ReplaceShaped(n: Node, ks: seq<int>, p: nat, c: Node, h: nat)
    requires Shaped(n, h) && h > 0 && p < |n.children| && Wf(c, h - 1) && |ks| == |n.keys|
    ensures Shaped(Node(ks, n.children[p := c]), h)
  {
    var r := Node(ks, n.children[p := c]);
    forall i | 0 <= i < |r.children| ensures Wf(r.children[i], h - 1) {
      if i != p {
        assert r.children[i] == n.children[i];
      }
    }
  }

  // ---------------------------------------------------------------------------
  // insert_non_full (regular/src/btree.rs:65-79).

  /** `insert_non_full`: find the place of k; in a leaf put k there,
      otherwise split the child there first if it is full and descend. */
  function InsertNonFull(n: Node, k: int, ghost h: nat): (r: (Node, bool))
    requires Shaped(n, h) && |n.keys| < 2 * T - 1
    ensures Shaped(r.0, h) && |n.keys| <= |r.0.keys| <= |n.keys| + 1 && !r.1
    decreases h
  {
    var p := match Locate(n.keys, k) case Ok(i) => i case Err(e) => e;
    if Leaf(n) then
      (Node(n.keys[..p] + [k] + n.keys[p..], n.children), false)
    else if Full(n.children[p]) then
      SplitKeeps(n, p, h);
      var m := SplitChild(n, p);
      var q := if m.keys[p] < k then p + 1 else p;
      assert Wf(m.children[q], h - 1);
      var (c, b) := InsertNonFull(m.children[q], k, h - 1);
      ReplaceShaped(m, m.keys, q, c, h);
      (Node(m.keys, m.children[q := c]), b)
    else
      assert Wf(n.children[p], h - 1);
      var (c, b) := InsertNonFull(n.children[p], k, h - 1);
      ReplaceShaped(n, n.keys, p, c, h);
      (Node(n.keys, n.children[p := c]), b)
  }

  /** Putting, around a middle, elements that came from the old middle or
      are k, with k between the outer parts, keeps the whole in order. */
  lemma SortedInsert(a: seq<int>, c: seq<int>, c': seq<int>, b: seq<int>, k: int)
    requires Sorted(a + c + b) && Sorted(c')
    requires forall x :: x in c' ==> x in c || x == k
    requires (forall x :: x in a ==> x <= k) && (forall x :: x in b ==> k <= x)
    ensures Sorted(a + c' + b)
  {
    SortedJoin3(a, c, b);
    SortedJoin3(a, c', b);
  }

  /** Putting, around a middle, the middle less one k, in order, keeps the
      whole in order and takes one k out of it (k is in the middle, or
      nowhere). */
  lemma SortedRemove(a: seq<int>, c: seq<int>, c': seq<int>, b: seq<int>, k: int)
    requires Sorted(a + c + b) && Sorted(c') && multiset(c') == multiset(c) - multiset{k}
    requires k in c || (k !in a && k !in b)
    ensures Sorted(a + c' + b) && multiset(a + c' + b) == multiset(a + c + b) - multiset{k}
  {
    forall x | x in c' ensures x in c {
      assert x in multiset(c');
    }
    SortedSubst(a, c, c', b);
    if k in c {
      assert multiset(c) == multiset(c') + multiset{k};
    } else {
      assert multiset(c') == multiset(c);
      assert multiset(a + c + b)[k] == 0;
    }
  }

  /** The rest of a sorted sequence after taking out its last element,
      followed by that element. */
  lemma PutLast(c: seq<int>, r: seq<int>, x: int, found: bool)
    requires Sorted(c) && c != [] && x == c[|c| - 1] && Sorted(r) && multiset(r) == multiset(c) - multiset{x}
    requires found <==> x in c
    ensures found && Sorted(r + [x]) && multiset(r + [x]) == multiset(c)
  {
    SortedEnds(c);
    forall y | y in r ensures y <= x {
      assert y in multiset(r);
    }
    SortedJoin(r, [x]);
    assert x in c;
  }

  /** The first element of a sorted sequence followed by the rest after
      taking it out. */
  lemma PutFirst(c: seq<int>, r: seq<int>, x: int, found: bool)
    requires Sorted(c) && c != [] && x == c[0] && Sorted(r) && multiset(r) == multiset(c) - multiset{x}
    requires found <==> x in c
    ensures found && Sorted([x] + r) && multiset([x] + r) == multiset(c)
  {
    SortedEnds(c);
    forall y | y in r ensures x <= y {
      assert y in multiset(r);
    }
    SortedJoin([x], r);
    assert x in c;
  }

  /** A node that differs from n only in child p and the key right of it
      lists its keys around that child. */
  lemma ReplaceAt(n: Node, p: nat, r: Node)
    requires |n.children| == |n.keys| + 1 && |r.children| == |n.children| && |r.keys| == |n.keys| && p < |n.children|
    requires r.children[..p] == n.children[..p] && r.keys[..p] == n.keys[..p]
    requires r.children[p + 1..] == n.children[p + 1..]
    requires p < |n.keys| ==> r.keys[p + 1..] == n.keys[p + 1..]
    ensures Flat(n) == Range(n, 0, p) + Flat(n.children[p]) + (KeyAt(n, p) + Range(n, p + 1, |n.children|))
    ensures Flat(r) == Range(n, 0, p) + Flat(r.children[p]) + (KeyAt(r, p) + Range(n, p + 1, |n.children|))
    ensures Flat(n) == Range(n, 0, p) + (Flat(n.children[p]) + KeyAt(n, p)) + Range(n, p + 1, |n.children|)
    ensures Flat(r) == Range(n, 0, p) + (Flat(r.children[p]) + KeyAt(r, p)) + Range(n, p + 1, |n.children|)
  {
    Edit(n, r, p, 1, 1);
    Range1(n, p);
    Range1(r, p);
    Assoc6(Range(n, 0, p), Flat(n.children[p]), KeyAt(n, p), Range(n, p + 1, |n.children|));
    Assoc6(Range(n, 0, p), Flat(r.children[p]), KeyAt(r, p), Range(n, p + 1, |n.children|));
  }

  lemma Assoc6(a: seq<int>, f: seq<int>, k: seq<int>, b: seq<int>)
    ensures a + (f + k) + b == a + f + (k + b)
  {
  }

  /** Replacing child p by a node of the same height, shape and order.
      (`Node(n.keys, n.children[p := c])`). */
  lemma ReplaceChild(n: Node, p: nat, c: Node)
    requires |n.children| == |n.keys| + 1 && p < |n.children|
    ensures Flat(Node(n.keys, n.children[p := c])) == Range(n, 0, p) + Flat(c) + Tail(n, p)
  {
    var r := Node(n.keys, n.children[p := c]);
    assert r.children[..p] == n.children[..p];
    assert r.children[p + 1..] == n.children[p + 1..];
    ReplaceAt(n, p, r);
  }

  /** Inserting k into a non-full node whose keys are in order keeps them in
      order and adds exactly one k. */
  lemma {:induction false} InsertSpec(n: Node, k: int, h: nat)
    requires Shaped(n, h) && |n.keys| < 2 * T - 1 && Sorted(Flat(n))
    ensures var r := InsertNonFull(n, k, h).0;
      Sorted(Flat(r)) && multiset(Flat(r)) == multiset(Flat(n)) + multiset{k}
    decreases h, 2
  {
    var p := Below(n.keys, k);
    assert p == match Locate(n.keys, k) case Ok(i) => i case Err(e) => e;
    var r := InsertNonFull(n, k, h).0;
    if Leaf(n) {
      var ks := n.keys[..p] + [k] + n.keys[p..];
      assert r == Node(ks, []);
      InsertLeaf(n.keys, k, p);
    } else if Full(n.children[p]) {
      InsertSplit(n, k, h, p);
    } else {
      assert Wf(n.children[p], h - 1);
      var c := InsertNonFull(n.children[p], k, h - 1).0;
      assert r == Node(n.keys, n.children[p := c]);
      InsertDown(n, p, k, h);
    }
  }

  /** The case of InsertSpec that splits the full child p first. */
  lemma {:induction false} InsertSplit(n: Node, k: int, h: nat, p: nat)
    requires Shaped(n, h) && |n.keys| < 2 * T - 1 && Sorted(Flat(n)) && !Leaf(n)
    requires p == Below(n.keys, k) && Full(n.children[p])
    ensures var r := InsertNonFull(n, k, h).0;
      Sorted(Flat(r)) && multiset(Flat(r)) == multiset(Flat(n)) + multiset{k}
    decreases h, 1
  {
    var m, q := SplitStep(n, k, h, p);
    InsertDown(m, q, k, h);
  }

  /** Splitting the full child p keeps the keys, and k then goes down into
      the half q on its side, which has room. */
  lemma SplitStep(n: Node, k: int, h: nat, p: nat) returns (m: Node, q: nat)
    requires Shaped(n, h) && |n.keys| < 2 * T - 1 && Sorted(Flat(n)) && !Leaf(n)
    requires p == Below(n.keys, k) && Full(n.children[p])
    ensures Shaped(m, h) && h > 0 && q < |m.children| && Flat(m) == Flat(n)
    ensures Wf(m.children[q], h - 1) && !Full(m.children[q])
    ensures (q == 0 || m.keys[q - 1] < k) && (q == |m.keys| || k <= m.keys[q])
    ensures InsertNonFull(n, k, h).0 == Node(m.keys, m.children[q := InsertNonFull(m.children[q], k, h - 1).0])
  {
    assert p == match Locate(n.keys, k) case Ok(i) => i case Err(e) => e;
    SplitKeeps(n, p, h);
    m := SplitChild(n, p);
    q := if m.keys[p] < k then p + 1 else p;
    SplitBounds(n, m, p, q, k);
    assert Wf(m.children[q], h - 1);
  }

  /** Inserting k into sorted keys where Below puts it. */
  lemma InsertLeaf(ks: seq<int>, k: int, p: nat)
    requires Sorted(ks) && p == Below(ks, k)
    ensures Sorted(ks[..p] + [k] + ks[p..]) && multiset(ks[..p] + [k] + ks[p..]) == multiset(ks) + multiset{k}
  {
    BelowSplit(ks, k, p);
    assert ks == ks[..p] + ks[p..];
    PutBetween(ks[..p], ks[p..], k);
  }

  /** The keys before where Below puts k are at most k, the rest at least k. */
  lemma BelowSplit(ks: seq<int>, k: int, p: nat)
    requires Sorted(ks) && p == Below(ks, k)
    ensures (forall x :: x in ks[..p] ==> x <= k) && (forall x :: x in ks[p..] ==> k <= x)
  {
    forall x | x in ks[..p] ensures x <= k {
      var i :| 0 <= i < p && ks[..p][i] == x;
    }
    forall x | x in ks[p..] ensures k <= x {
      var i :| 0 <= i < |ks| - p && ks[p..][i] == x;
      assert ks[p] <= ks[p + i];
    }
  }

  /** k put between two runs, all of the first at most k and all of the
      second at least k. */
  lemma PutBetween(a: seq<int>, b: seq<int>, k: int)
    requires Sorted(a + b) && (forall x :: x in a ==> x <= k) && (forall x :: x in b ==> k <= x)
    ensures Sorted(a + [k] + b) && multiset(a + [k] + b) == multiset(a + b) + multiset{k}
  {
    assert a + b == a + [] + b;
    SortedInsert(a, [], [k], b, k);
  }

  /** After a split at p, the child insert_non_full descends into has k
      between the keys around it. */
  lemma SplitBounds(n: Node, m: Node, p: nat, q: nat, k: int)
    requires p <= |n.keys| && |m.keys| == |n.keys| + 1
    requires m.keys[..p] == n.keys[..p] && m.keys[p + 1..] == n.keys[p..]
    requires forall i :: 0 <= i < p ==> n.keys[i] < k
    requires p < |n.keys| ==> n.keys[p] >= k
    requires q == if m.keys[p] < k then p + 1 else p
    ensures (q == 0 || m.keys[q - 1] < k) && (q == |m.keys| || k <= m.keys[q])
  {
    if q < |m.keys| && q == p + 1 {
      assert m.keys[q] == m.keys[p + 1..][0] == n.keys[p..][0];
    }
    if 0 < q && q == p {
      assert m.keys[q - 1] == m.keys[..p][p - 1] == n.keys[..p][p - 1];
    }
  }

  /** The step of InsertSpec that descends into child q. */
  lemma {:induction false} InsertDown(m: Node, q: nat, k: int, h: nat)
    requires Shaped(m, h) && h > 0 && q < |m.children| && Sorted(Flat(m))
    requires Wf(m.children[q], h - 1) && !Full(m.children[q])
    requires (q == 0 || m.keys[q - 1] < k) && (q == |m.keys| || k <= m.keys[q])
    ensures var c := InsertNonFull(m.children[q], k, h - 1).0;
      Sorted(Flat(Node(m.keys, m.children[q := c]))) &&
      multiset(Flat(Node(m.keys, m.children[q := c]))) == multiset(Flat(m)) + multiset{k}
    decreases h, 0
  {
    var c := InsertNonFull(m.children[q], k, h - 1).0;
    Fence(m, q);
    InsertSpec(m.children[q], k, h - 1);
    ReplaceChild(m, q, c);
    var a, b := Range(m, 0, q), Tail(m, q);
    if q == 0 {
      assert a == [];
    }
    if q == |m.keys| {
      assert b == [];
    }
    forall x | x in Flat(c) ensures x in Flat(m.children[q]) || x == k {
      assert x in multiset(Flat(c));
    }
    SortedInsert(a, Flat(m.children[q]), Flat(c), b, k);
  }

  // ---------------------------------------------------------------------------
  // merge, borrow_prev, borrow_next, fill (regular/src/btree.rs:102-111,
  // 129-167).

  /** `merge`: child at + 1 and the key between are appended to child at
      (with child at + 1's children when child at is not a leaf). */
  function Merge(n: Node, at: nat): (r: Node)
    requires at < |n.keys| && at + 1 < |n.children|
    ensures |r.keys| == |n.keys| - 1 && |r.children| == |n.children| - 1
  {
    var c, s := n.children[at], n.children[at + 1];
    var c' := Node(c.keys + [n.keys[at]] + s.keys, if Leaf(c) then c.children else c.children + s.children);
    Node(n.keys[..at] + n.keys[at + 1..], n.children[..at] + [c'] + n.children[at + 2..])
  }

  /** `borrow_prev`: the last key of child at - 1 moves up, the key between
      moves down to the front of child at, and so does child at - 1's last
      child if it has one. */
  function BorrowPrev(n: Node, at: nat): (r: Node)
    requires 0 < at < |n.children| && at - 1 < |n.keys| && |n.children[at - 1].keys| > 0
    ensures |r.keys| == |n.keys| && |r.children| == |n.children|
  {
    var s, c := n.children[at - 1], n.children[at];
    var s' := Node(s.keys[..|s.keys| - 1], if s.children == [] then [] else s.children[..|s.children| - 1]);
    var c' := Node([n.keys[at - 1]] + c.keys, if s.children == [] then c.children else [s.children[|s.children| - 1]] + c.children);
    Node(n.keys[at - 1 := s.keys[|s.keys| - 1]], n.children[at - 1 := s'][at := c'])
  }

  /** `borrow_next`: the first key of child at + 1 moves up, the key between
      moves down to the end of child at, and so does child at + 1's first
      child if it has one. */
  function BorrowNext(n: Node, at: nat): (r: Node)
    requires at + 1 < |n.children| && at < |n.keys| && |n.children[at + 1].keys| > 0
    ensures |r.keys| == |n.keys| && |r.children| == |n.children|
  {
    var c, s := n.children[at], n.children[at + 1];
    var s' := Node(s.keys[1..], if s.children != [] then s.children[1..] else s.children);
    var c' := Node(c.keys + [n.keys[at]], if s.children != [] then c.children + [s.children[0]] else c.children);
    Node(n.keys[at := s.keys[0]], n.children[at := c'][at + 1 := s'])
  }

  /** `fill`: give child at a key more, from a sibling that can spare one,
      or by merging it with a sibling. */
  function Fill(n: Node, at: nat): (r: Node)
    requires |n.children| == |n.keys| + 1 && at < |n.children| && 1 <= |n.keys|
    ensures |r.children| == |r.keys| + 1 && |n.keys| - 1 <= |r.keys| <= |n.keys|
    ensures |r.keys| == |n.keys| <==> (at > 0 && |n.children[at - 1].keys| >= T) || (at < |n.keys| && |n.children[at + 1].keys| >= T)
  {
    if at > 0 && |n.children[at - 1].keys| >= T then BorrowPrev(n, at)
    else if at < |n.keys| && |n.children[at + 1].keys| >= T then BorrowNext(n, at)
    else if at < |n.keys| then Merge(n, at)
    else Merge(n, at - 1)
  }

  lemma AssocBorrow(a: seq<int>, l: seq<int>, e: seq<int>, k: seq<int>, c: seq<int>, t: seq<int>)
    ensures (a + l) + ((e + k + c) + t) == ((a + l + e) + k) + (c + t)
  {
  }

  /** The merged child lists what the two children and the key between
      listed. */
  lemma MergeMiddle(n: Node, at: nat)
    requires |n.children| == |n.keys| + 1 && at < |n.keys| && Kin(n.children[at], n.children[at + 1])
    ensures Range(Merge(n, at), at, at + 1) == Range(n, at, at + 2)
  {
    var r := Merge(n, at);
    var c, s := n.children[at], n.children[at + 1];
    assert r.children[at] == Join(c, n.keys[at], s);
    FlatJoin(c, n.keys[at], s);
    Range1(r, at);
    Range2(n, at);
    assert KeyAt(r, at) == KeyAt(n, at + 1);
    Assoc5(Flat(c), [n.keys[at]], Flat(s), KeyAt(n, at + 1));
  }

  /** Merging leaves the keys in order unchanged. */
  lemma MergeFlat(n: Node, at: nat)
    requires |n.children| == |n.keys| + 1 && at < |n.keys| && Kin(n.children[at], n.children[at + 1])
    ensures Flat(Merge(n, at)) == Flat(n)
  {
    var r := Merge(n, at);
    assert r.children[..at] == n.children[..at];
    assert r.keys[..at] == n.keys[..at];
    assert r.children[at + 1..] == n.children[at + 2..];
    assert r.keys[at..] == n.keys[at + 1..];
    if at + 1 <= |r.keys| {
      assert r.keys[at + 1..] == n.keys[at + 2..];
    }
    Edit(n, r, at, 2, 1);
    MergeMiddle(n, at);
  }

  /** Merging two children whose keys fit in one node keeps the shape. */
  lemma MergeShape(n: Node, at: nat, h: nat)
    requires Shaped(n, h) && h > 0 && at < |n.keys|
    requires |n.children[at].keys| + |n.children[at + 1].keys| + 1 <= 2 * T - 1
    ensures Kin(n.children[at], n.children[at + 1])
    ensures Shaped(Merge(n, at), h)
    ensures |Merge(n, at).children[at].keys| == |n.children[at].keys| + |n.children[at + 1].keys| + 1
  {
    var c, s := n.children[at], n.children[at + 1];
    assert Wf(c, h - 1) && Wf(s, h - 1);
    assert Shaped(c, h - 1) && Shaped(s, h - 1);
    var r := Merge(n, at);
    var c' := r.children[at];
    if h > 1 {
      forall i | 0 <= i < |c'.children| ensures Wf(c'.children[i], h - 2) {
        if i < |c.children| {
          assert c'.children[i] == c.children[i];
        } else {
          assert c'.children[i] == s.children[i - |c.children|];
        }
      }
    }
    assert Wf(c', h - 1);
    forall i | 0 <= i < |r.children| ensures Wf(r.children[i], h - 1) {
      if i < at {
        assert r.children[i] == n.children[i];
      } else if i > at {
        assert r.children[i] == n.children[i + 1];
      }
    }
  }

  /** Borrowing from the previous child leaves the keys in order unchanged. */
  lemma BorrowPrevFlat(n: Node, at: nat)
    requires |n.children| == |n.keys| + 1 && 0 < at < |n.children| && |n.children[at - 1].keys| > 0
    requires Kin(n.children[at - 1], n.children[at])
    ensures Flat(BorrowPrev(n, at)) == Flat(n)
  {
    var r := BorrowPrev(n, at);
    BorrowPrevMiddle(n, at);
    assert r.children[..at - 1] == n.children[..at - 1];
    assert r.keys[..at - 1] == n.keys[..at - 1];
    assert r.children[at + 1..] == n.children[at + 1..];
    if at + 1 <= |r.keys| {
      assert r.keys[at + 1..] == n.keys[at + 1..];
    }
    Edit(n, r, at - 1, 2, 2);
  }

  /** The two children around the rotated key list what they listed. */
  lemma BorrowPrevMiddle(n: Node, at: nat)
    requires |n.children| == |n.keys| + 1 && 0 < at < |n.children| && |n.children[at - 1].keys| > 0
    requires Kin(n.children[at - 1], n.children[at])
    ensures Range(BorrowPrev(n, at), at - 1, at + 1) == Range(n, at - 1, at + 1)
  {
    var r := BorrowPrev(n, at);
    var s, c := n.children[at - 1], n.children[at];
    var lk := s.keys[|s.keys| - 1];
    var e := BorrowPrevParts(n, at);
    Range2(n, at - 1);
    Range2(r, at - 1);
    assert KeyAt(r, at) == KeyAt(n, at);
    assert Seg(r, at - 1) == Flat(r.children[at - 1]) + [lk];
    AssocBorrow(Flat(r.children[at - 1]), [lk], Flat(e), [n.keys[at - 1]], Flat(c), KeyAt(n, at));
  }

  /** The previous child splits as its new self, the key moving up and the
      child moving over (e); the new child is e, the key moving down and the
      old child. */
  lemma BorrowPrevParts(n: Node, at: nat) returns (e: Node)
    requires |n.children| == |n.keys| + 1 && 0 < at < |n.children| && |n.children[at - 1].keys| > 0
    requires Kin(n.children[at - 1], n.children[at])
    ensures var r, s := BorrowPrev(n, at), n.children[at - 1];
      Flat(s) == Flat(r.children[at - 1]) + [s.keys[|s.keys| - 1]] + Flat(e) &&
      Flat(r.children[at]) == Flat(e) + [n.keys[at - 1]] + Flat(n.children[at])
  {
    var s := n.children[at - 1];
    e := if s.children == [] then Node([], []) else Node([], [s.children[|s.children| - 1]]);
    PrevLeft(n, at, e);
    PrevRight(n, at, e);
  }

  /** The previous child is its new self, the key moving up and e. */
  lemma PrevLeft(n: Node, at: nat, e: Node)
    requires |n.children| == |n.keys| + 1 && 0 < at < |n.children| && |n.children[at - 1].keys| > 0
    requires Kin(n.children[at - 1], n.children[at])
    requires var s := n.children[at - 1];
      e == if s.children == [] then Node([], []) else Node([], [s.children[|s.children| - 1]])
    ensures var r, s := BorrowPrev(n, at), n.children[at - 1];
      Flat(s) == Flat(r.children[at - 1]) + [s.keys[|s.keys| - 1]] + Flat(e)
  {
    var s, s' := n.children[at - 1], BorrowPrev(n, at).children[at - 1];
    var lk := s.keys[|s.keys| - 1];
    assert s'.keys + [lk] + e.keys == s.keys;
    assert s'.children + e.children == s.children;
    assert Join(s', lk, e) == s;
    FlatJoin(s', lk, e);
  }

  /** The new child is e, the key moving down and the old child. */
  lemma PrevRight(n: Node, at: nat, e: Node)
    requires |n.children| == |n.keys| + 1 && 0 < at < |n.children| && |n.children[at - 1].keys| > 0
    requires Kin(n.children[at - 1], n.children[at])
    requires var s := n.children[at - 1];
      e == if s.children == [] then Node([], []) else Node([], [s.children[|s.children| - 1]])
    ensures Flat(BorrowPrev(n, at).children[at]) == Flat(e) + [n.keys[at - 1]] + Flat(n.children[at])
  {
    var c, c' := n.children[at], BorrowPrev(n, at).children[at];
    assert Join(e, n.keys[at - 1], c) == c';
    FlatJoin(e, n.keys[at - 1], c);
  }

  /** Borrowing from the next child leaves the keys in order unchanged. */
  lemma BorrowNextFlat(n: Node, at: nat)
    requires |n.children| == |n.keys| + 1 && at < |n.keys| && |n.children[at + 1].keys| > 0
    requires Kin(n.children[at], n.children[at + 1])
    ensures Flat(BorrowNext(n, at)) == Flat(n)
  {
    var r := BorrowNext(n, at);
    BorrowNextMiddle(n, at);
    assert r.children[..at] == n.children[..at];
    assert r.keys[..at] == n.keys[..at];
    assert r.children[at + 2..] == n.children[at + 2..];
    if at + 2 <= |r.keys| {
      assert r.keys[at + 2..] == n.keys[at + 2..];
    }
    Edit(n, r, at, 2, 2);
  }

  /** The two children around the rotated key list what they listed. */
  lemma BorrowNextMiddle(n: Node, at: nat)
    requires |n.children| == |n.keys| + 1 && at < |n.keys| && |n.children[at + 1].keys| > 0
    requires Kin(n.children[at], n.children[at + 1])
    ensures Range(BorrowNext(n, at), at, at + 2) == Range(n, at, at + 2)
  {
    var r := BorrowNext(n, at);
    var c, s := n.children[at], n.children[at + 1];
    var nk := s.keys[0];
    var e := BorrowNextParts(n, at);
    Range2(n, at);
    Range2(r, at);
    assert KeyAt(r, at + 1) == KeyAt(n, at + 1);
    assert Seg(r, at) == Flat(r.children[at]) + [nk];
    AssocBorrow(Flat(c), [n.keys[at]], Flat(e), [nk], Flat(r.children[at + 1]), KeyAt(n, at + 1));
  }

  /** The next child splits as the child moving over (e), the key moving up
      and its new self; the new child is the old child, the key moving down
      and e. */
  lemma BorrowNextParts(n: Node, at: nat) returns (e: Node)
    requires |n.children| == |n.keys| + 1 && at < |n.keys| && |n.children[at + 1].keys| > 0
    requires Kin(n.children[at], n.children[at + 1])
    ensures var r, s := BorrowNext(n, at), n.children[at + 1];
      Flat(s) == Flat(e) + [s.keys[0]] + Flat(r.children[at + 1]) &&
      Flat(r.children[at]) == Flat(n.children[at]) + [n.keys[at]] + Flat(e)
  {
    var r := BorrowNext(n, at);
    var c, s := n.children[at], n.children[at + 1];
    var c', s' := r.children[at], r.children[at + 1];
    var nk := s.keys[0];
    e := if s.children == [] then Node([], []) else Node([], [s.children[0]]);
    assert e.keys + [nk] + s'.keys == s.keys;
    assert e.children + s'.children == s.children;
    assert Join(e, nk, s') == s;
    assert Join(c, n.keys[at], e) == c';
    FlatJoin(e, nk, s');
    FlatJoin(c, n.keys[at], e);
  }

  /** Borrowing from a previous child that can spare a key keeps the shape. */
  lemma BorrowPrevShape(n: Node, at: nat, h: nat)
    requires Shaped(n, h) && h > 0 && 0 < at < |n.children|
    requires |n.children[at - 1].keys| >= T && |n.children[at].keys| < 2 * T - 1
    ensures Kin(n.children[at - 1], n.children[at])
    ensures Shaped(BorrowPrev(n, at), h) && |BorrowPrev(n, at).children[at].keys| == |n.children[at].keys| + 1
  {
    var s, c := n.children[at - 1], n.children[at];
    assert Wf(s, h - 1) && Wf(c, h - 1);
    assert Shaped(s, h - 1) && Shaped(c, h - 1);
    var r := BorrowPrev(n, at);
    var s', c' := r.children[at - 1], r.children[at];
    if h > 1 {
      forall i | 0 <= i < |s'.children| ensures Wf(s'.children[i], h - 2) {
        assert s'.children[i] == s.children[i];
      }
      forall i | 0 <= i < |c'.children| ensures Wf(c'.children[i], h - 2) {
        if i > 0 {
          assert c'.children[i] == c.children[i - 1];
        }
      }
    }
    assert Wf(s', h - 1) && Wf(c', h - 1);
    forall i | 0 <= i < |r.children| ensures Wf(r.children[i], h - 1) {
      if i != at - 1 && i != at {
        assert r.children[i] == n.children[i];
      }
    }
  }

  /** Borrowing from a next child that can spare a key keeps the shape. */
  lemma BorrowNextShape(n: Node, at: nat, h: nat)
    requires Shaped(n, h) && h > 0 && at < |n.keys|
    requires |n.children[at + 1].keys| >= T && |n.children[at].keys| < 2 * T - 1
    ensures Kin(n.children[at], n.children[at + 1])
    ensures Shaped(BorrowNext(n, at), h) && |BorrowNext(n, at).children[at].keys| == |n.children[at].keys| + 1
  {
    var c, s := n.children[at], n.children[at + 1];
    assert Wf(s, h - 1) && Wf(c, h - 1);
    assert Shaped(s, h - 1) && Shaped(c, h - 1);
    var r := BorrowNext(n, at);
    var c', s' := r.children[at], r.children[at + 1];
    if h > 1 {
      forall i | 0 <= i < |s'.children| ensures Wf(s'.children[i], h - 2) {
        assert s'.children[i] == s.children[i + 1];
      }
      forall i | 0 <= i < |c'.children| ensures Wf(c'.children[i], h - 2) {
        if i < |c.children| {
          assert c'.children[i] == c.children[i];
        }
      }
    }
    assert Wf(s', h - 1) && Wf(c', h - 1);
    forall i | 0 <= i < |r.children| ensures Wf(r.children[i], h - 1) {
      if i != at && i != at + 1 {
        assert r.children[i] == n.children[i];
      }
    }
  }

  /** The child remove descends into after `fill`: child at, or child
      at - 1 when the last two children were merged. */
  function Target(m: Node, at: nat): nat
  {
    if at > |m.keys| then at - 1 else at
  }

  /** `fill` on a child with T - 1 keys keeps the keys in order and the
      shape, takes at most one key from this node, and leaves the child
      that now holds child at's keys with at least T keys. */
  lemma FillKeeps(n: Node, at: nat, h: nat)
    requires Shaped(n, h) && h > 0 && 1 <= |n.keys| && at < |n.children| && |n.children[at].keys| < T
    ensures var m := Fill(n, at);
      Flat(m) == Flat(n) && Shaped(m, h) && |m.children| == |m.keys| + 1 &&
      |n.keys| - 1 <= |m.keys| <= |n.keys| && (at > |m.keys| ==> at == |n.keys|) &&
      |m.children[Target(m, at)].keys| >= T
  {
    assert Wf(n.children[at], h - 1);
    if at > 0 && |n.children[at - 1].keys| >= T {
      BorrowPrevShape(n, at, h);
      BorrowPrevFlat(n, at);
    } else if at < |n.keys| && |n.children[at + 1].keys| >= T {
      BorrowNextShape(n, at, h);
      BorrowNextFlat(n, at);
    } else if at < |n.keys| {
      assert Wf(n.children[at + 1], h - 1);
      MergeShape(n, at, h);
      MergeFlat(n, at);
    } else {
      assert Wf(n.children[at - 1], h - 1);
      MergeShape(n, at - 1, h);
      MergeFlat(n, at - 1);
    }
  }

  /** A child's first and last keys are among the keys listed under it. */
  lemma ChildEnds(n: Node, i: nat, h: nat)
    requires Shaped(n, h) && h > 0 && i < |n.children|
    ensures var c := n.children[i];
      |c.keys| >= T - 1 && c.keys[0] in Flat(c) && c.keys[|c.keys| - 1] in Flat(c)
  {
    var c := n.children[i];
    assert Wf(c, h - 1);
    assert Shaped(c, h - 1);
    KeysListed(c);
  }

  /** Keys next to each other in a node whose keys are in order are in
      order. */
  lemma KeyOrder(n: Node, i: nat, h: nat)
    requires Shaped(n, h) && h > 0 && i + 1 < |n.keys| && Sorted(Flat(n))
    ensures n.keys[i] <= n.keys[i + 1]
  {
    Fence(n, i + 1);
    ChildEnds(n, i + 1, h);
  }

  /** A key strictly between the keys around child at is strictly between
      the keys around the target child after `fill`. */
  lemma FillBetween(n: Node, at: nat, h: nat, k: int)
    requires Shaped(n, h) && h > 0 && 1 <= |n.keys| && at < |n.children| && |n.children[at].keys| < T
    requires Sorted(Flat(n)) && Between(n, at, k)
    ensures var m := Fill(n, at); Target(m, at) <= |m.keys| && Between(m, Target(m, at), k)
  {
    FillKeeps(n, at, h);
    if at > 0 && |n.children[at - 1].keys| >= T {
      PrevBetween(n, at, h, k);
    } else if at < |n.keys| && |n.children[at + 1].keys| >= T {
      NextBetween(n, at, h, k);
    } else if at < |n.keys| {
      MergeBetween(n, at, h, k);
    } else {
      MergeLastBetween(n, at, h, k);
    }
  }

  lemma MergeBetween(n: Node, at: nat, h: nat, k: int)
    requires Shaped(n, h) && h > 0 && at < |n.keys| && Sorted(Flat(n)) && Between(n, at, k)
    ensures Between(Merge(n, at), at, k)
  {
    var m := Merge(n, at);
    if at + 1 < |n.keys| {
      KeyOrder(n, at, h);
      assert m.keys[at] == n.keys[at + 1];
    }
    if at > 0 {
      assert m.keys[at - 1] == n.keys[at - 1];
    }
  }

  lemma MergeLastBetween(n: Node, at: nat, h: nat, k: int)
    requires Shaped(n, h) && h > 0 && 0 < at == |n.keys| && Sorted(Flat(n)) && Between(n, at, k)
    ensures Between(Merge(n, at - 1), at - 1, k)
  {
    var m := Merge(n, at - 1);
    if at > 1 {
      KeyOrder(n, at - 2, h);
      assert m.keys[at - 2] == n.keys[at - 2];
    }
  }

  lemma PrevBetween(n: Node, at: nat, h: nat, k: int)
    requires Shaped(n, h) && h > 0 && 0 < at <= |n.keys| && |n.children[at - 1].keys| > 0
    requires Sorted(Flat(n)) && Between(n, at, k)
    ensures Between(BorrowPrev(n, at), at, k)
  {
    ChildEnds(n, at - 1, h);
    Fence(n, at - 1);
  }

  lemma NextBetween(n: Node, at: nat, h: nat, k: int)
    requires Shaped(n, h) && h > 0 && at < |n.keys| && |n.children[at + 1].keys| > 0
    requires Sorted(Flat(n)) && Between(n, at, k)
    ensures Between(BorrowNext(n, at), at, k)
  {
    var s, r := n.children[at + 1], BorrowNext(n, at);
    ChildEnds(n, at + 1, h);
    Fence(n, at + 1);
    assert n.keys[at] <= s.keys[0] && r.keys[at] == s.keys[0];
    if at > 0 {
      assert r.keys[at - 1] == n.keys[at - 1];
    }
  }

  // ---------------------------------------------------------------------------
  // remove_leaf, remove_non_leaf, remove (regular/src/btree.rs:81-84,
  // 113-127, 169-194).

  /** `remove_leaf`: drop key at; always reports a removal. */
  function RemoveLeaf(n: Node, at: nat): (r: (Node, bool))
    requires at < |n.keys|
    ensures r.1 && r.0.children == n.children
    ensures multiset(r.0.keys) + multiset{n.keys[at]} == multiset(n.keys)
  {
    assert n.keys == n.keys[..at] + [n.keys[at]] + n.keys[at + 1..];
    (Node(n.keys[..at] + n.keys[at + 1..], n.children), true)
  }

  /** The last of a non-empty sequence. */
  function Last(s: seq<int>): int
    requires s != []
  {
    s[|s| - 1]
  }

  /** `remove`: remove one occurrence of k under n, reporting whether there
      was one.  A key found here is removed by `remove_leaf` or
      `remove_non_leaf`; otherwise the child it would be under is topped up
      by `fill` when it has T - 1 keys, and the removal goes on there (in
      child p - 1 when `fill` merged the last two children). */
  function RemoveFrom(n: Node, k: int, ghost h: nat): (r: (Node, bool))
    requires Shaped(n, h) && 1 <= |n.keys|
    ensures Shaped(r.0, h) && |n.keys| - 1 <= |r.0.keys| <= |n.keys|
    decreases h, 1
  {
    match Locate(n.keys, k)
    case Ok(p) =>
      if Leaf(n) then RemoveLeaf(n, p) else RemoveNonLeaf(n, p, h)
    case Err(p) =>
      if !Leaf(n) then
        var isLast := |n.keys| == p;
        assert Wf(n.children[p], h - 1);
        var m := if |n.children[p].keys| < T then FillKeeps(n, p, h); Fill(n, p) else n;
        var q := if isLast && p > |m.keys| then p - 1 else p;
        assert Wf(m.children[q], h - 1);
        var res := RemoveFrom(m.children[q], k, h - 1);
        ReplaceShaped(m, m.keys, q, res.0, h);
        (Node(m.keys, m.children[q := res.0]), res.1)
      else
        (n, false)
  }

  /** `remove_non_leaf`: key at is replaced by its predecessor, removed from
      child at, when that child can spare a key; else by its successor,
      removed from child at + 1, when that child can; else the two children
      are merged around it and it is removed from the merged child. */
  function RemoveNonLeaf(n: Node, at: nat, ghost h: nat): (r: (Node, bool))
    requires Shaped(n, h) && !Leaf(n) && at < |n.keys|
    ensures Shaped(r.0, h) && |n.keys| - 1 <= |r.0.keys| <= |n.keys|
    decreases h, 0
  {
    var c, s := n.children[at], n.children[at + 1];
    assert Wf(c, h - 1) && Wf(s, h - 1);
    if |c.keys| >= T then
      ChildEnds(n, at, h);
      var res := RemoveFrom(c, Last(Flat(c)), h - 1);
      ReplaceShaped(n, n.keys[at := Last(Flat(c))], at, res.0, h);
      (Node(n.keys[at := Last(Flat(c))], n.children[at := res.0]), res.1)
    else if |s.keys| >= T then
      ChildEnds(n, at + 1, h);
      var res := RemoveFrom(s, Flat(s)[0], h - 1);
      ReplaceShaped(n, n.keys[at := Flat(s)[0]], at + 1, res.0, h);
      (Node(n.keys[at := Flat(s)[0]], n.children[at + 1 := res.0]), res.1)
    else
      MergeShape(n, at, h);
      var m := Merge(n, at);
      assert Wf(m.children[at], h - 1);
      var res := RemoveFrom(m.children[at], n.keys[at], h - 1);
      ReplaceShaped(m, m.keys, at, res.0, h);
      (Node(m.keys, m.children[at := res.0]), res.1)
  }

  /** What removing k from n promises: the keys stay in order, exactly one
      occurrence of k goes, and the answer says whether there was one. */
  ghost predicate Removed(n: Node, k: int, r: (Node, bool))
  {
    Sorted(Flat(r.0)) && multiset(Flat(r.0)) == multiset(Flat(n)) - multiset{k} && (r.1 <==> k in Flat(n))
  }

  lemma {:induction false} RemoveSpec(n: Node, k: int, h: nat)
    requires Shaped(n, h) && 1 <= |n.keys| && Sorted(Flat(n))
    ensures Removed(n, k, RemoveFrom(n, k, h))
    decreases h, 2
  {
    var r := RemoveFrom(n, k, h);
    match Locate(n.keys, k)
    case Ok(p) =>
      if Leaf(n) {
        assert r == RemoveLeaf(n, p);
        RemoveLeafSpec(n, p);
      } else {
        assert r == RemoveNonLeaf(n, p, h);
        RemoveNonLeafSpec(n, p, h);
        KeysListed(n);
      }
    case Err(p) =>
      if Leaf(n) {
        assert r == (n, false);
        forall i | 0 <= i < |n.keys| ensures n.keys[i] != k {
          if p < i {
            assert n.keys[p] <= n.keys[i];
          }
        }
      } else {
        RemoveDownSpec(n, k, h, p);
      }
  }

  lemma RemoveLeafSpec(n: Node, at: nat)
    requires Leaf(n) && at < |n.keys| && Sorted(Flat(n))
    ensures Removed(n, n.keys[at], RemoveLeaf(n, at))
  {
    var ks := n.keys;
    assert ks == ks[..at] + [ks[at]] + ks[at + 1..];
    SortedRemove(ks[..at], [ks[at]], [], ks[at + 1..], ks[at]);
    assert ks[..at] + ks[at + 1..] == ks[..at] + [] + ks[at + 1..];
    assert ks[at] in ks;
  }

  /** The descent of RemoveSpec into the child where k would be. */
  lemma {:induction false} RemoveDownSpec(n: Node, k: int, h: nat, p: nat)
    requires Shaped(n, h) && 1 <= |n.keys| && Sorted(Flat(n)) && !Leaf(n) && Locate(n.keys, k) == Err(p)
    ensures Removed(n, k, RemoveFrom(n, k, h))
    decreases h, 1
  {
    assert Between(n, p, k);
    assert Wf(n.children[p], h - 1);
    var m := if |n.children[p].keys| < T then Fill(n, p) else n;
    if |n.children[p].keys| < T {
      FillKeeps(n, p, h);
      FillBetween(n, p, h, k);
    }
    var q := if |n.keys| == p && p > |m.keys| then p - 1 else p;
    assert q == Target(m, p);
    assert Wf(m.children[q], h - 1);
    var res := RemoveFrom(m.children[q], k, h - 1);
    assert RemoveFrom(n, k, h) == (Node(m.keys, m.children[q := res.0]), res.1);
    RemoveChildSpec(m, q, k, h);
  }

  /** Removing k from child q, where k lies between the keys around it. */
  lemma {:induction false} RemoveChildSpec(m: Node, q: nat, k: int, h: nat)
    requires Shaped(m, h) && h > 0 && q <= |m.keys| && Sorted(Flat(m)) && Between(m, q, k)
    requires Wf(m.children[q], h - 1) && |m.children[q].keys| >= 1
    ensures var res := RemoveFrom(m.children[q], k, h - 1);
      Removed(m, k, (Node(m.keys, m.children[q := res.0]), res.1))
    decreases h, 0
  {
    var c := m.children[q];
    var res := RemoveFrom(c, k, h - 1);
    Descend(m, q, k);
    RemoveSpec(c, k, h - 1);
    ReplaceChild(m, q, res.0);
    SortedRemove(Range(m, 0, q), Flat(c), Flat(res.0), Tail(m, q), k);
  }

  lemma {:induction false} RemoveNonLeafSpec(n: Node, at: nat, h: nat)
    requires Shaped(n, h) && !Leaf(n) && at < |n.keys| && Sorted(Flat(n))
    ensures Removed(n, n.keys[at], RemoveNonLeaf(n, at, h))
    decreases h, 1
  {
    var c, s := n.children[at], n.children[at + 1];
    assert Wf(c, h - 1) && Wf(s, h - 1);
    if |c.keys| >= T {
      PredSpec(n, at, h);
    } else if |s.keys| >= T {
      SuccSpec(n, at, h);
    } else {
      MergeSpec(n, at, h);
    }
  }

  /** Removing key at through its predecessor. */
  lemma {:induction false} PredSpec(n: Node, at: nat, h: nat)
    requires Shaped(n, h) && !Leaf(n) && at < |n.keys| && Sorted(Flat(n)) && |n.children[at].keys| >= T
    ensures Removed(n, n.keys[at], RemoveNonLeaf(n, at, h))
    decreases h, 0
  {
    var c, k := n.children[at], n.keys[at];
    assert Wf(c, h - 1);
    ChildEnds(n, at, h);
    var pred := Last(Flat(c));
    ChildSorted(n, at);
    var res := RemoveFrom(c, pred, h - 1);
    RemoveSpec(c, pred, h - 1);
    assert RemoveNonLeaf(n, at, h) == (Node(n.keys[at := pred], n.children[at := res.0]), res.1);
    PredPlaced(n, at, res);
  }

  /** The last key under child at, taken out of that child, in place of
      key at: key at is removed. */
  lemma PredPlaced(n: Node, at: nat, res: (Node, bool))
    requires |n.children| == |n.keys| + 1 && at < |n.keys| && Sorted(Flat(n))
    requires Sorted(Flat(n.children[at])) && Flat(n.children[at]) != []
    requires Removed(n.children[at], Last(Flat(n.children[at])), res)
    ensures Removed(n, n.keys[at], (Node(n.keys[at := Last(Flat(n.children[at]))], n.children[at := res.0]), res.1))
  {
    var c, k := n.children[at], n.keys[at];
    var pred := Last(Flat(c));
    PutLast(Flat(c), Flat(res.0), pred, res.1);
    ReplaceKeyChild(n, at, pred, res.0);
    var a, b := Range(n, 0, at), Range(n, at + 1, |n.children|);
    SortedRemove(a, Flat(c) + [k], Flat(res.0) + [pred], b, k);
    assert k in a + (Flat(c) + [k]) + b;
  }

  /** Child at and the key right of it replaced by c and x. */
  lemma ReplaceKeyChild(n: Node, at: nat, x: int, c: Node)
    requires |n.children| == |n.keys| + 1 && at < |n.keys|
    ensures var a, b := Range(n, 0, at), Range(n, at + 1, |n.children|);
      Flat(n) == a + (Flat(n.children[at]) + [n.keys[at]]) + b &&
      Flat(Node(n.keys[at := x], n.children[at := c])) == a + (Flat(c) + [x]) + b
  {
    var r := Node(n.keys[at := x], n.children[at := c]);
    assert r.children[..at] == n.children[..at] && r.keys[..at] == n.keys[..at];
    assert r.children[at + 1..] == n.children[at + 1..] && r.keys[at + 1..] == n.keys[at + 1..];
    ReplaceAt(n, at, r);
  }

  /** An inner node's keys around key at and child at + 1. */
  lemma NextAround(n: Node, at: nat)
    requires |n.children| == |n.keys| + 1 && at < |n.keys|
    ensures Flat(n) == (Range(n, 0, at) + Flat(n.children[at])) + ([n.keys[at]] + Flat(n.children[at + 1]))
      + (KeyAt(n, at + 1) + Range(n, at + 2, |n.children|))
  {
    RangeSplit(n, 0, at, |n.children|);
    RangeSplit(n, at, at + 2, |n.children|);
    Range2(n, at);
    AssocNext(Range(n, 0, at), Flat(n.children[at]), [n.keys[at]], Flat(n.children[at + 1]), KeyAt(n, at + 1),
      Range(n, at + 2, |n.children|));
  }

  /** A node differing from n only in key at and child at + 1 lists its
      keys around them. */
  lemma ReplaceNext(n: Node, at: nat, r: Node)
    requires |n.children| == |n.keys| + 1 && at < |n.keys| && |r.children| == |n.children| && |r.keys| == |n.keys|
    requires forall i :: 0 <= i < |n.children| && i != at + 1 ==> r.children[i] == n.children[i]
    requires forall i :: 0 <= i < |n.keys| && i != at ==> r.keys[i] == n.keys[i]
    ensures var p, q := Range(n, 0, at) + Flat(n.children[at]), KeyAt(n, at + 1) + Range(n, at + 2, |n.children|);
      Flat(n) == p + ([n.keys[at]] + Flat(n.children[at + 1])) + q &&
      Flat(r) == p + ([r.keys[at]] + Flat(r.children[at + 1])) + q
  {
    NextAround(n, at);
    NextAround(r, at);
    assert r.children[..at] == n.children[..at] && r.keys[..at] == n.keys[..at];
    EditPrefix(n, r, at);
    assert r.children[at + 2..] == n.children[at + 2..];
    if at + 2 <= |r.keys| {
      assert r.keys[at + 2..] == n.keys[at + 2..];
    }
    EditSuffix(n, r, at, 2, 2);
    assert KeyAt(r, at + 1) == KeyAt(n, at + 1);
  }

  lemma AssocNext(a: seq<int>, c: seq<int>, k: seq<int>, s: seq<int>, t: seq<int>, z: seq<int>)
    ensures a + ((c + k) + (s + t) + z) == (a + c) + (k + s) + (t + z)
  {
  }

  /** Removing key at through its successor. */
  lemma {:induction false} SuccSpec(n: Node, at: nat, h: nat)
    requires Shaped(n, h) && !Leaf(n) && at < |n.keys| && Sorted(Flat(n))
    requires |n.children[at].keys| < T && |n.children[at + 1].keys| >= T
    ensures Removed(n, n.keys[at], RemoveNonLeaf(n, at, h))
    decreases h, 0
  {
    var s, k := n.children[at + 1], n.keys[at];
    assert Wf(s, h - 1) && Wf(n.children[at], h - 1);
    ChildEnds(n, at + 1, h);
    var succ := Flat(s)[0];
    ChildSorted(n, at + 1);
    var res := RemoveFrom(s, succ, h - 1);
    RemoveSpec(s, succ, h - 1);
    PutFirst(Flat(s), Flat(res.0), succ, res.1);
    assert RemoveNonLeaf(n, at, h) == (Node(n.keys[at := succ], n.children[at + 1 := res.0]), res.1);
    ReplaceKeyNext(n, at, succ, res.0);
    var a, b := Range(n, 0, at) + Flat(n.children[at]), KeyAt(n, at + 1) + Range(n, at + 2, |n.children|);
    SortedRemove(a, [k] + Flat(s), [succ] + Flat(res.0), b, k);
    assert k in a + ([k] + Flat(s)) + b;
  }

  /** Key at and child at + 1 replaced by x and c. */
  lemma ReplaceKeyNext(n: Node, at: nat, x: int, c: Node)
    requires |n.children| == |n.keys| + 1 && at < |n.keys|
    ensures var a, b := Range(n, 0, at) + Flat(n.children[at]), KeyAt(n, at + 1) + Range(n, at + 2, |n.children|);
      Flat(n) == a + ([n.keys[at]] + Flat(n.children[at + 1])) + b &&
      Flat(Node(n.keys[at := x], n.children[at + 1 := c])) == a + ([x] + Flat(c)) + b
  {
    ReplaceNext(n, at, Node(n.keys[at := x], n.children[at + 1 := c]));
  }

  /** Merging the children around key at keeps the keys in order and puts
      key at inside the merged child. */
  lemma MergedChild(n: Node, at: nat, h: nat)
    requires Shaped(n, h) && !Leaf(n) && at < |n.keys| && Sorted(Flat(n))
    requires |n.children[at].keys| < T && |n.children[at + 1].keys| < T
    ensures var m := Merge(n, at);
      Shaped(m, h) && Wf(m.children[at], h - 1) && Sorted(Flat(m.children[at])) &&
      n.keys[at] in Flat(m.children[at]) && Flat(n) == Range(m, 0, at) + Flat(m.children[at]) + Tail(m, at)
  {
    var c, s, k := n.children[at], n.children[at + 1], n.keys[at];
    assert Wf(c, h - 1) && Wf(s, h - 1);
    MergeShape(n, at, h);
    MergeFlat(n, at);
    var m := Merge(n, at);
    assert Wf(m.children[at], h - 1);
    assert m.children[at] == Join(c, k, s);
    FlatJoin(c, k, s);
    ChildSorted(m, at);
  }

  /** Removing key at by merging the children around it. */
  lemma {:induction false} MergeSpec(n: Node, at: nat, h: nat)
    requires Shaped(n, h) && !Leaf(n) && at < |n.keys| && Sorted(Flat(n))
    requires |n.children[at].keys| < T && |n.children[at + 1].keys| < T
    ensures Removed(n, n.keys[at], RemoveNonLeaf(n, at, h))
    decreases h, 0
  {
    var k, m := n.keys[at], Merge(n, at);
    MergedChild(n, at, h);
    var c' := m.children[at];
    var res := RemoveFrom(c', k, h - 1);
    assert RemoveNonLeaf(n, at, h) == (Node(m.keys, m.children[at := res.0]), res.1);
    RemoveSpec(c', k, h - 1);
    ReplaceChild(m, at, res.0);
    SortedRemove(Range(m, 0, at), Flat(c'), Flat(res.0), Tail(m, at), k);
  }

  // ---------------------------------------------------------------------------
  // predecessor, successor (regular/src/btree.rs:86-100).

  /** The last key under an inner node is the last key under its last
      child. */
  lemma LastThrough(c: Node, g: nat)
    requires Wf(c, g) && !Leaf(c)
    ensures g > 0 && |c.children| == |c.keys| + 1 && Wf(c.children[|c.keys|], g - 1)
    ensures Flat(c.children[|c.keys|]) != [] && Flat(c) != [] && Last(Flat(c)) == Last(Flat(c.children[|c.keys|]))
  {
    var p := |c.keys|;
    Around(c, p);
    assert Tail(c, p) == [];
    ChildEnds(c, p, g);
  }

  /** The first key under an inner node is the first key under its first
      child. */
  lemma FirstThrough(c: Node, g: nat)
    requires Wf(c, g) && !Leaf(c)
    ensures g > 0 && |c.children| == |c.keys| + 1 && Wf(c.children[0], g - 1)
    ensures Flat(c.children[0]) != [] && Flat(c) != [] && Flat(c)[0] == Flat(c.children[0])[0]
  {
    Around(c, 0);
    assert Range(c, 0, 0) == [];
    ChildEnds(c, 0, g);
  }

  /** `predecessor`: follow the last children down from child at; the last
      key of the leaf reached is the last key under child at. */
  method Predecessor(n: Node, at: nat, ghost h: nat) returns (k: int)
    requires Shaped(n, h) && h > 0 && at < |n.children|
    ensures Flat(n.children[at]) != [] && k == Last(Flat(n.children[at]))
  {
    var cur := n.children[at];
    ghost var g: nat := h - 1;
    assert Wf(cur, g);
    ChildEnds(n, at, h);
    while !Leaf(cur)
      invariant Wf(cur, g) && Flat(cur) != [] && Last(Flat(cur)) == Last(Flat(n.children[at]))
      decreases g
    {
      LastThrough(cur, g);
      cur := cur.children[|cur.keys|];
      g := g - 1;
    }
    k := cur.keys[|cur.keys| - 1];
  }

  /** `successor` as the walk should be: follow the first children down
      from child at + 1; the first key of the leaf reached is the first key
      under child at + 1, the least key above key at. */
  method Successor(n: Node, at: nat, ghost h: nat) returns (k: int)
    requires Shaped(n, h) && h > 0 && at < |n.keys|
    ensures Flat(n.children[at + 1]) != [] && k == Flat(n.children[at + 1])[0]
  {
    k := FirstUnder(n.children[at + 1], h - 1);
  }

  /** `successor` as written: the walk starts from child at, so it reaches
      the least key under child at, below key at. */
  method SuccessorAsWritten(n: Node, at: nat, ghost h: nat) returns (k: int)
    requires Shaped(n, h) && h > 0 && at < |n.children|
    ensures Flat(n.children[at]) != [] && k == Flat(n.children[at])[0]
  {
    k := FirstUnder(n.children[at], h - 1);
  }

  /** The loop of `successor`: follow the first children down to a leaf. */
  method FirstUnder(c: Node, ghost g: nat) returns (k: int)
    requires Wf(c, g)
    ensures Flat(c) != [] && k == Flat(c)[0]
  {
    var cur := c;
    ghost var d := g;
    assert Shaped(c, g);
    KeysListed(c);
    assert c.keys[0] in Flat(c);
    while !Leaf(cur)
      invariant Wf(cur, d) && Flat(cur) != [] && Flat(cur)[0] == Flat(c)[0]
      decreases d
    {
      FirstThrough(cur, d);
      cur := cur.children[0];
      d := d - 1;
    }
    k := cur.keys[0];
  }

  // ---------------------------------------------------------------------------
  // remove_non_leaf as written (regular/src/btree.rs:119-122 with
  // successor at 94-100).

  /** `remove_non_leaf` as written: in the successor case the key put at
      `at` is the least key under child at (what `successor(at)` finds), and
      it is then removed from child at + 1, which need not hold it. */
  function RemoveNonLeafAsWritten(n: Node, at: nat, ghost h: nat): (r: (Node, bool))
    requires Shaped(n, h) && !Leaf(n) && at < |n.keys|
    ensures Shaped(r.0, h) && |n.keys| - 1 <= |r.0.keys| <= |n.keys|
  {
    var c, s := n.children[at], n.children[at + 1];
    assert Wf(c, h - 1) && Wf(s, h - 1);
    if |c.keys| >= T then
      RemoveNonLeaf(n, at, h)
    else if |s.keys| >= T then
      ChildEnds(n, at, h);
      var res := RemoveFrom(s, Flat(c)[0], h - 1);
      ReplaceShaped(n, n.keys[at := Flat(c)[0]], at + 1, res.0, h);
      (Node(n.keys[at := Flat(c)[0]], n.children[at + 1 := res.0]), res.1)
    else
      RemoveNonLeaf(n, at, h)
  }

  /** A two-level tree whose left child has T - 1 keys and whose right
      child can spare one. */
  const Sample: Node := Node([10], [Node([1, 2], []), Node([11, 12, 13], [])])

  lemma SampleValid()
    ensures Shaped(Sample, 1) && Flat(Sample) == [1, 2, 10, 11, 12, 13] && Sorted(Flat(Sample))
  {
    var n := Sample;
    assert Wf(n.children[0], 0) && Wf(n.children[1], 0);
    Range2(n, 0);
  }

  /** Removing the root key of Sample as written puts 1 at the root, reports
      no removal, and leaves the keys out of order. */
  lemma SuccessorCounterexample()
    ensures Shaped(Sample, 1) && 10 in Flat(Sample)
    ensures RemoveNonLeafAsWritten(Sample, 0, 1) == (Node([1], Sample.children), false)
    ensures Flat(RemoveNonLeafAsWritten(Sample, 0, 1).0) == [1, 2, 1, 11, 12, 13]
    ensures !Sorted(Flat(RemoveNonLeafAsWritten(Sample, 0, 1).0))
  {
    SampleValid();
    var a, b := Sample.children[0], Sample.children[1];
    assert Flat(a) == [1, 2];
    assert Locate(b.keys, 1) == Err(0);
    assert RemoveFrom(b, 1, 0) == (b, false);
    assert Sample.keys[0 := 1] == [1] && Sample.children[1 := b] == Sample.children;
    assert Flat(Sample)[2] == 10;
    var w := Node([1], Sample.children);
    Range2(w, 0);
    assert Flat(w) == [1, 2, 1, 11, 12, 13];
    assert Flat(w)[1] > Flat(w)[2];
  }

  /** The corrected `remove_non_leaf` on Sample takes 11 up and removes 10. */
  lemma SuccessorCorrected()
    ensures Shaped(Sample, 1)
    ensures RemoveNonLeaf(Sample, 0, 1) == (Node([11], [Node([1, 2], []), Node([12, 13], [])]), true)
  {
    SampleValid();
    var b := Sample.children[1];
    assert Flat(b) == [11, 12, 13];
    assert Locate(b.keys, 11) == Ok(0);
    assert b.keys[..0] + b.keys[1..] == [12, 13];
    assert RemoveFrom(b, 11, 0) == RemoveLeaf(b, 0) == (Node([12, 13], []), true);
    assert Sample.keys[0 := 11] == [11];
    assert Sample.children[1 := Node([12, 13], [])] == [Node([1, 2], []), Node([12, 13], [])];
    assert |Sample.children[0].keys| < T && Flat(b)[0] == 11;
  }

  // ---------------------------------------------------------------------------
  // The tree (regular/src/btree.rs:197-263).

  /** A root: between 1 and 2T - 1 keys, a height, keys in order. */
  ghost predicate RootOk(n: Node, h: nat)
  {
    1 <= |n.keys| <= 2 * T - 1 && Shaped(n, h) && Sorted(Flat(n))
  }

  /** Inserting into a root that is not full. */
  lemma InsertRoot(rt: Node, k: int, h: nat)
    requires RootOk(rt, h) && !Full(rt)
    ensures var res := InsertNonFull(rt, k, h);
      RootOk(res.0, h) && !res.1 && multiset(Flat(res.0)) == multiset(Flat(rt)) + multiset{k}
  {
    InsertSpec(rt, k, h);
  }

  /** Splitting a full root under a new root: one level more, one key at
      the root, the keys in order unchanged. */
  lemma GrowSplit(rt: Node, h: nat)
    requires RootOk(rt, h) && Full(rt)
    ensures Shaped(Node([], [rt]), h + 1) && Splittable(Node([], [rt]).children[0])
    ensures var m := SplitChild(Node([], [rt]), 0);
      Shaped(m, h + 1) && |m.keys| == 1 && Flat(m) == Flat(rt) && RootOk(m, h + 1)
  {
    var n := Node([], [rt]);
    assert Wf(rt, h);
    assert Shaped(n, h + 1);
    Range1(n, 0);
    SplitKeeps(n, 0, h + 1);
  }

  /** Removing from a root. */
  lemma RemoveRoot(rt: Node, k: int, h: nat)
    requires RootOk(rt, h)
    ensures var res := RemoveFrom(rt, k, h);
      Removed(rt, k, res) && Shaped(res.0, h) && (res.0.keys != [] ==> RootOk(res.0, h))
  {
    RemoveSpec(rt, k, h);
  }

  /** A root left without keys: a leaf lists nothing; an inner node has one
      child, one level down, listing what the root listed. */
  lemma Collapse(r: Node, h: nat)
    requires Shaped(r, h) && Sorted(Flat(r)) && r.keys == []
    ensures Leaf(r) ==> Flat(r) == []
    ensures !Leaf(r) ==> h > 0 && |r.children| == 1 && RootOk(r.children[0], h - 1) && Flat(r.children[0]) == Flat(r)
  {
    if !Leaf(r) {
      Range1(r, 0);
      var c := r.children[0];
      assert Flat(r) == Flat(c) + [] == Flat(c);
      assert Wf(c, h - 1);
      assert Shaped(c, h - 1) && Sorted(Flat(c));
    }
  }

  /** A root with at least one key, at most 2T - 1, or no root at all. */
  class BTree {
    var root: Option<Node>
    ghost var height: nat

    ghost predicate Valid()
      reads this
    {
      root.Some? ==> RootOk(root.value, height)
    }

    /** The keys in order. */
    ghost function Contents(): seq<int>
      reads this
    {
      if root.None? then [] else Flat(root.value)
    }

    /** `new`: no root. */
    constructor()
      ensures Valid() && Contents() == []
    {
      root := None;
      height := 0;
    }

    /** `search`: scan each node's keys; a key equal to k answers true, a
        leaf without one answers false, otherwise descend into the child
        before the first greater key. */
    method Search(k: int) returns (found: bool)
      requires Valid()
      ensures found <==> k in Contents()
    {
      if root.None? {
        return false;
      }
      var cur := root.value;
      ghost var g := height;
      while true
        invariant Shaped(cur, g) && 1 <= |cur.keys| && Sorted(Flat(cur))
        invariant k in Contents() <==> k in Flat(cur)
        decreases g
      {
        var p := 0;
        while p < |cur.keys| && cur.keys[p] <= k
          invariant p <= |cur.keys| && forall i :: 0 <= i < p ==> cur.keys[i] < k
        {
          if cur.keys[p] == k {
            KeysListed(cur);
            return true;
          }
          p := p + 1;
        }
        if Leaf(cur) {
          forall i | 0 <= i < |cur.keys| ensures cur.keys[i] != k {
            if p < i {
              assert cur.keys[p] <= cur.keys[i];
            }
          }
          return false;
        }
        assert Between(cur, p, k);
        Descend(cur, p, k);
        assert Wf(cur.children[p], g - 1);
        cur := cur.children[p];
        g := g - 1;
      }
    }

    /** `insert`: a tree without a root gets a leaf root holding k; a full
        root is split under a new root first, so the tree grows by one
        level; then k goes in by `insert_non_full`.  The answer is always
        false. */
    method Insert(k: int) returns (r: bool)
      requires Valid()
      modifies this
      ensures Valid() && !r
      ensures multiset(Contents()) == multiset(old(Contents())) + multiset{k}
      ensures old(root).Some? ==> height == old(height) + if Full(old(root).value) then 1 else 0
    {
      if root.None? {
        root := Some(Node([k], []));
        height := 0;
        return false;
      }
      if Full(root.value) {
        Grow();
      }
      var rt := root.value;
      InsertRoot(rt, k, height);
      var res := InsertNonFull(rt, k, height);
      root, r := Some(res.0), res.1;
    }

    /** The first half of `insert` on a full root: a new root whose only
        child is the old root, split at once; one level more, one key at
        the root, the same keys in order. */
    method Grow()
      requires Valid() && root.Some? && Full(root.value)
      modifies this
      ensures Valid() && root.Some? && |root.value.keys| == 1
      ensures Contents() == old(Contents()) && height == old(height) + 1
    {
      var rt := root.value;
      GrowSplit(rt, height);
      root, height := Some(SplitChild(Node([], [rt]), 0)), height + 1;
    }

    /** `remove`: remove one occurrence of k; a root left without keys is
        dropped (a leaf) or replaced by its only child, so the tree shrinks
        by one level. */
    method Remove(k: int) returns (r: bool)
      requires Valid()
      modifies this
      ensures Valid()
      ensures r <==> k in old(Contents())
      ensures multiset(Contents()) == multiset(old(Contents())) - multiset{k}
    {
      if root.None? {
        return false;
      }
      var rt := root.value;
      ghost var h := height;
      RemoveRoot(rt, k, h);
      var res := RemoveFrom(rt, k, h);
      r := res.1;
      if res.0.keys == [] {
        Collapse(res.0, h);
        if Leaf(res.0) {
          root := None;
        } else {
          root, height := Some(res.0.children[0]), h - 1;
        }
      } else {
        root := Some(res.0);
      }
    }
  }
}
