/** goofy/actrie/actrie.go: an Aho-Corasick automaton over byte strings.
    The trie is a slice of nodes; node 0 is the root, and a node lists its
    children as parallel slices of bytes and node indices. `Build` sets the
    failure links and `Match` counts pattern occurrences in a text. The
    `ACTrie` struct is a class whose `nodes` slice is a sequence field the
    methods reassign; ghost fields record the word each node spells and the
    patterns inserted so far. */
module AcTrie {
  import opened Base
  import opened Graphs
  import Topo

  const Nil: int := -1
  const Root: int := 0
  const Pren: int := 1

  /** `acnode`: children as parallel byte and index lists, the failure link,
      and how many patterns end here. */
  datatype AcNode = AcNode(ch: seq<byte>, next: seq<int>, fail: int, end: int)

  /** The zero `acnode` Go allocates. */
  const Zero := AcNode([], [], 0, 0)

  /** The child for byte c among the children from position i on: the first
      match, as `getnode` scans. */
  function ChildFrom(n: AcNode, c: byte, i: nat): int
    decreases |n.ch| - i
  {
    if i >= |n.ch| || i >= |n.next| then Nil
    else if n.ch[i] == c then n.next[i]
    else ChildFrom(n, c, i + 1)
  }

  function Child(n: AcNode, c: byte): int
  {
    ChildFrom(n, c, 0)
  }

  /** `addnode`: appends byte c with child x. */
  function AddNode(n: AcNode, c: byte, x: int): (r: AcNode)
    ensures r.fail == n.fail && r.end == n.end
  {
    n.(ch := n.ch + [c], next := n.next + [x])
  }

  /** `getnode`: the child for byte c, or Nil. */
  method GetNode(n: AcNode, c: byte) returns (x: int)
    requires |n.ch| == |n.next|
    ensures x == Child(n, c)
    ensures x != Nil ==> exists i :: 0 <= i < |n.ch| && i < |n.next| && n.ch[i] == c && n.next[i] == x
    ensures (forall i :: 0 <= i < |n.ch| ==> n.ch[i] != c) ==> x == Nil
  {
    var i := 0;
    while i < |n.ch|
      invariant 0 <= i <= |n.ch|
      invariant ChildFrom(n, c, i) == Child(n, c)
    {
      if n.ch[i] == c {
        x := n.next[i];
        assert n.ch[i] == c && n.next[i] == x;
        return;
      }
      i := i + 1;
    }
    return Nil;
  }

  /** The node reached by following the bytes of w from the root, or Nil. */
  function Walk(ns: seq<AcNode>, w: seq<byte>): int
  {
    if w == [] then (if |ns| > 0 then Root else Nil)
    else
      var p := Walk(ns, w[..|w| - 1]);
      if 0 <= p < |ns| then Child(ns[p], w[|w| - 1]) else Nil
  }

  /** How many of the patterns equal w. */
  function Tally(ps: seq<seq<byte>>, w: seq<byte>): nat
  {
    if ps == [] then 0 else Tally(ps[..|ps| - 1], w) + if ps[|ps| - 1] == w then 1 else 0
  }

  /** Node y's children are nodes spelling y's word with one more byte. */
  ghost predicate Shaped(ns: seq<AcNode>, a: int, ws: seq<seq<byte>>, y: int)
    requires 0 <= y < |ns| && y < |ws| && a <= |ws|
  {
    |ns[y].ch| == |ns[y].next| &&
    forall i :: 0 <= i < |ns[y].ch| ==>
      0 < ns[y].next[i] < a && ws[ns[y].next[i]] == ws[y] + [ns[y].ch[i]]
  }

  /** Node y lists each byte once. */
  ghost predicate DistinctBytes(n: AcNode)
  {
    forall i, j :: 0 <= i < j < |n.ch| ==> n.ch[i] != n.ch[j]
  }

  /** Nodes [0, a) are in use and the rest are zero; node y spells ws[y],
      lists each byte once, and the root spells the empty word and has no
      failure link. */
  ghost predicate TrieShape(ns: seq<AcNode>, a: int, ws: seq<seq<byte>>)
  {
    1 <= a <= |ns| && |ws| == a && ws[0] == [] && ns[0].fail == Nil &&
    (forall y {:trigger Shaped(ns, a, ws, y)} :: 0 <= y < a ==> Shaped(ns, a, ws, y)) &&
    (forall y {:trigger DistinctBytes(ns[y])} :: 0 <= y < a ==> DistinctBytes(ns[y])) &&
    (forall y :: a <= y < |ns| ==> ns[y] == Zero)
  }

  /** Walking node y's word from the root leads back to y. */
  ghost predicate TrieWalks(ns: seq<AcNode>, ws: seq<seq<byte>>)
  {
    forall y {:trigger Walk(ns, ws[y])} :: 0 <= y < |ws| ==> Walk(ns, ws[y]) == y
  }

  /** Each node's `end` counts the patterns equal to its word. */
  ghost predicate TrieEnds(ns: seq<AcNode>, ws: seq<seq<byte>>, ps: seq<seq<byte>>)
    requires |ws| <= |ns|
  {
    forall y {:trigger Tally(ps, ws[y])} :: 0 <= y < |ws| ==> ns[y].end == Tally(ps, ws[y])
  }

  /** Every pattern inserted can be walked. */
  ghost predicate TrieCovers(ns: seq<AcNode>, ps: seq<seq<byte>>)
  {
    forall k {:trigger Walk(ns, ps[k])} :: 0 <= k < |ps| ==> Walk(ns, ps[k]) != Nil
  }

  /** A trie of a nodes spelling the words ws, holding the patterns ps. */
  ghost predicate Rooted(ns: seq<AcNode>, a: int, ws: seq<seq<byte>>, ps: seq<seq<byte>>)
  {
    TrieShape(ns, a, ws) && TrieWalks(ns, ws) && TrieEnds(ns, ws, ps) && TrieCovers(ns, ps)
  }

  /** The trie invariant: the zero `ACTrie` (no nodes), or a rooted trie. */
  ghost predicate Trie(ns: seq<AcNode>, a: int, ws: seq<seq<byte>>, ps: seq<seq<byte>>)
  {
    (a == 0 && ns == [] && ws == [] && ps == []) || Rooted(ns, a, ws, ps)
  }

  /** The children of node y, when it is shaped, are the nodes listed. */
  lemma ChildShaped(ns: seq<AcNode>, a: int, ws: seq<seq<byte>>, y: int, c: byte)
    requires 0 <= y < |ns| && y < |ws| && a <= |ws| && Shaped(ns, a, ws, y)
    ensures Child(ns[y], c) != Nil ==> 0 < Child(ns[y], c) < a && ws[Child(ns[y], c)] == ws[y] + [c]
  {
    var n := ns[y];
    var i := 0;
    while i < |n.ch|
      invariant 0 <= i <= |n.ch|
      invariant ChildFrom(n, c, i) == Child(n, c)
    {
      if n.ch[i] == c {
        return;
      }
      i := i + 1;
    }
  }

  /** A walk that succeeds ends at the node spelling the word walked. */
  lemma {:induction false} WalkWord(ns: seq<AcNode>, a: int, ws: seq<seq<byte>>, ps: seq<seq<byte>>, w: seq<byte>)
    requires Rooted(ns, a, ws, ps)
    ensures Walk(ns, w) != Nil ==> 0 <= Walk(ns, w) < a && ws[Walk(ns, w)] == w
  {
    if w != [] {
      var u := w[..|w| - 1];
      WalkWord(ns, a, ws, ps, u);
      var p := Walk(ns, u);
      if 0 <= p < |ns| && Child(ns[p], w[|w| - 1]) != Nil {
        ChildShaped(ns, a, ws, p, w[|w| - 1]);
        assert u + [w[|w| - 1]] == w;
      }
    }
  }

  /** Every prefix of a word that can be walked can be walked. */
  lemma {:induction false} WalkPrefix(ns: seq<AcNode>, w: seq<byte>, j: nat)
    requires j <= |w| && Walk(ns, w) != Nil
    ensures Walk(ns, w[..j]) != Nil
    decreases |w|
  {
    if j < |w| {
      var u := w[..|w| - 1];
      assert u[..j] == w[..j];
      WalkPrefix(ns, u, j);
    } else {
      assert w[..j] == w;
    }
  }

  /** Two tries whose nodes have the same children walk alike. */
  ghost predicate SameShape(ns: seq<AcNode>, ns': seq<AcNode>)
  {
    |ns| == |ns'| && forall y :: 0 <= y < |ns| ==> ns[y].ch == ns'[y].ch && ns[y].next == ns'[y].next
  }

  lemma {:induction false} WalkSameShape(ns: seq<AcNode>, ns': seq<AcNode>, w: seq<byte>)
    requires SameShape(ns, ns')
    ensures Walk(ns, w) == Walk(ns', w)
  {
    if w != [] {
      var u := w[..|w| - 1];
      WalkSameShape(ns, ns', u);
      var p := Walk(ns, u);
      if 0 <= p < |ns| {
        ChildSameLists(ns[p], ns'[p], w[|w| - 1], 0);
      }
    }
  }

  lemma {:induction false} ChildSameLists(n: AcNode, n': AcNode, c: byte, i: nat)
    requires n.ch == n'.ch && n.next == n'.next
    ensures ChildFrom(n, c, i) == ChildFrom(n', c, i)
    decreases |n.ch| - i
  {
    if i < |n.ch| && i < |n.next| && n.ch[i] != c {
      ChildSameLists(n, n', c, i + 1);
    }
  }

  /** Appending zero nodes changes no walk. */
  lemma {:induction false} WalkGrown(ns: seq<AcNode>, k: nat, w: seq<byte>)
    requires |ns| > 0
    ensures Walk(ns + seq(k, _ => Zero), w) == Walk(ns, w)
  {
    var ns' := ns + seq(k, _ => Zero);
    if w != [] {
      var u := w[..|w| - 1];
      WalkGrown(ns, k, u);
      var p := Walk(ns, u);
      if 0 <= p < |ns| {
        assert ns'[p] == ns[p];
      } else if 0 <= p < |ns'| {
        assert ns'[p] == Zero;
        ZeroChild(w[|w| - 1], 0);
      }
    }
  }

  lemma ZeroChild(c: byte, i: nat)
    ensures ChildFrom(Zero, c, i) == Nil
  {
  }

  /** `addnode` on a node without a child for c: every child found before is
      still found, and c now leads to x. */
  lemma {:induction false} ChildAppend(n: AcNode, c: byte, x: int, d: byte, i: nat)
    requires |n.ch| == |n.next| && i <= |n.ch|
    requires forall j :: 0 <= j < |n.next| ==> n.next[j] != Nil
    ensures ChildFrom(AddNode(n, c, x), d, i) ==
      if ChildFrom(n, d, i) != Nil then ChildFrom(n, d, i) else if d == c then x else Nil
    decreases |n.ch| - i
  {
    if i < |n.ch| && n.ch[i] != d {
      ChildAppend(n, c, x, d, i + 1);
    }
  }

  lemma {:induction false} WalkAdd(ns: seq<AcNode>, p: int, c: byte, x: int, w: seq<byte>)
    requires 0 <= p < |ns| && |ns[p].ch| == |ns[p].next|
    requires forall j :: 0 <= j < |ns[p].next| ==> ns[p].next[j] != Nil
    requires Child(ns[p], c) == Nil
    ensures Walk(ns, w) != Nil ==> Walk(ns[p := AddNode(ns[p], c, x)], w) == Walk(ns, w)
  {
    if w != [] {
      var u := w[..|w| - 1];
      WalkAdd(ns, p, c, x, u);
      var q := Walk(ns, u);
      if q == p {
        ChildAppend(ns[p], c, x, w[|w| - 1], 0);
      }
    }
  }

  /** Tally of patterns none of which is w. */
  lemma {:induction false} TallyNone(ps: seq<seq<byte>>, w: seq<byte>)
    requires forall k :: 0 <= k < |ps| ==> ps[k] != w
    ensures Tally(ps, w) == 0
  {
    if ps != [] {
      TallyNone(ps[..|ps| - 1], w);
    }
  }

  lemma TallyAppend(ps: seq<seq<byte>>, s: seq<byte>, w: seq<byte>)
    ensures Tally(ps + [s], w) == Tally(ps, w) + if s == w then 1 else 0
  {
    assert (ps + [s])[..|ps|] == ps;
  }

  lemma AddShape(ns: seq<AcNode>, a: int, ws: seq<seq<byte>>, p: int, c: byte)
    requires TrieShape(ns, a, ws) && a < |ns| && 0 <= p < a
    requires forall i :: 0 <= i < |ns[p].ch| ==> ns[p].ch[i] != c
    ensures TrieShape(ns[p := AddNode(ns[p], c, a)], a + 1, ws + [ws[p] + [c]])
  {
    var ns' := ns[p := AddNode(ns[p], c, a)];
    var ws' := ws + [ws[p] + [c]];
    forall y | 0 <= y <= a
      ensures Shaped(ns', a + 1, ws', y) && DistinctBytes(ns'[y])
    {
      if y < a {
        assert Shaped(ns, a, ws, y) && DistinctBytes(ns[y]);
      } else {
        assert ns'[y] == Zero;
      }
    }
  }

  lemma AddWalks(ns: seq<AcNode>, a: int, ws: seq<seq<byte>>, p: int, c: byte)
    requires TrieShape(ns, a, ws) && TrieWalks(ns, ws) && a < |ns| && 0 <= p < a && Child(ns[p], c) == Nil
    ensures TrieWalks(ns[p := AddNode(ns[p], c, a)], ws + [ws[p] + [c]])
  {
    var ns' := ns[p := AddNode(ns[p], c, a)];
    var ws' := ws + [ws[p] + [c]];
    assert Shaped(ns, a, ws, p);
    forall y | 0 <= y <= a
      ensures Walk(ns', ws'[y]) == y
    {
      if y < a {
        assert Walk(ns, ws[y]) == y;
        WalkAdd(ns, p, c, a, ws[y]);
      } else {
        var wc := ws[p] + [c];
        assert wc[..|wc| - 1] == ws[p];
        assert Walk(ns, ws[p]) == p;
        WalkAdd(ns, p, c, a, ws[p]);
        ChildAppend(ns[p], c, a, c, 0);
      }
    }
  }

  lemma AddCovers(ns: seq<AcNode>, a: int, ws: seq<seq<byte>>, ps: seq<seq<byte>>, p: int, c: byte)
    requires TrieShape(ns, a, ws) && TrieCovers(ns, ps) && 0 <= p < a && Child(ns[p], c) == Nil
    ensures TrieCovers(ns[p := AddNode(ns[p], c, a)], ps)
  {
    assert Shaped(ns, a, ws, p);
    forall k | 0 <= k < |ps|
      ensures Walk(ns[p := AddNode(ns[p], c, a)], ps[k]) != Nil
    {
      WalkAdd(ns, p, c, a, ps[k]);
    }
  }

  lemma AddEnds(ns: seq<AcNode>, a: int, ws: seq<seq<byte>>, ps: seq<seq<byte>>, p: int, c: byte)
    requires TrieShape(ns, a, ws) && TrieWalks(ns, ws) && TrieEnds(ns, ws, ps) && TrieCovers(ns, ps)
    requires a < |ns| && 0 <= p < a && Child(ns[p], c) == Nil
    ensures TrieEnds(ns[p := AddNode(ns[p], c, a)], ws + [ws[p] + [c]], ps)
  {
    var ns' := ns[p := AddNode(ns[p], c, a)];
    var ws' := ws + [ws[p] + [c]];
    var wc := ws[p] + [c];
    assert wc[..|wc| - 1] == ws[p];
    assert Walk(ns, ws[p]) == p;
    forall k | 0 <= k < |ps|
      ensures ps[k] != wc
    {
      assert Walk(ns, ps[k]) != Nil;
    }
    TallyNone(ps, wc);
    assert ns'[a] == Zero;
  }

  /** Adding a node for byte c under node p, in the first unused slot,
      keeps the trie invariant; the new node spells p's word and c. */
  lemma AddChildKeeps(ns: seq<AcNode>, a: int, ws: seq<seq<byte>>, ps: seq<seq<byte>>, p: int, c: byte)
    requires Rooted(ns, a, ws, ps) && a < |ns| && 0 <= p < a && Child(ns[p], c) == Nil
    ensures Rooted(ns[p := AddNode(ns[p], c, a)], a + 1, ws + [ws[p] + [c]], ps)
  {
    assert Shaped(ns, a, ws, p);
    forall i | 0 <= i < |ns[p].ch|
      ensures ns[p].ch[i] != c
    {
      ChildNone(ns[p], c, 0, i);
    }
    AddShape(ns, a, ws, p, c);
    AddWalks(ns, a, ws, p, c);
    AddCovers(ns, a, ws, ps, p, c);
    AddEnds(ns, a, ws, ps, p, c);
  }

  /** A byte not found from position i on is not listed from i on. */
  lemma {:induction false} ChildNone(n: AcNode, c: byte, i: nat, j: nat)
    requires |n.ch| == |n.next| && i <= j < |n.ch| && ChildFrom(n, c, i) == Nil
    requires forall k :: 0 <= k < |n.next| ==> n.next[k] != Nil
    ensures n.ch[j] != c
    decreases j - i
  {
    if i < j {
      ChildNone(n, c, i + 1, j);
    }
  }

  /** Appending zero nodes keeps the trie invariant. */
  lemma GrowKeeps(ns: seq<AcNode>, a: int, ws: seq<seq<byte>>, ps: seq<seq<byte>>, k: nat)
    requires Rooted(ns, a, ws, ps)
    ensures Rooted(ns + seq(k, _ => Zero), a, ws, ps)
  {
    var ns' := ns + seq(k, _ => Zero);
    forall y | 0 <= y < a
      ensures Shaped(ns', a, ws, y) && DistinctBytes(ns'[y]) && Walk(ns', ws[y]) == y
    {
      assert ns'[y] == ns[y];
      assert Shaped(ns, a, ws, y) && DistinctBytes(ns[y]);
      WalkGrown(ns, k, ws[y]);
    }
    forall j | 0 <= j < |ps|
      ensures Walk(ns', ps[j]) != Nil
    {
      WalkGrown(ns, k, ps[j]);
    }
  }

  /** Counting one more pattern at the node its word leads to. */
  lemma EndKeeps(ns: seq<AcNode>, a: int, ws: seq<seq<byte>>, ps: seq<seq<byte>>, s: seq<byte>, p: int)
    requires Rooted(ns, a, ws, ps) && 0 <= p < a && Walk(ns, s) == p
    ensures Rooted(ns[p := ns[p].(end := ns[p].end + 1)], a, ws, ps + [s])
  {
    var ns' := ns[p := ns[p].(end := ns[p].end + 1)];
    WalkWord(ns, a, ws, ps, s);
    assert SameShape(ns, ns');
    forall y | 0 <= y < a
      ensures ns'[y].end == Tally(ps + [s], ws[y]) && Shaped(ns', a, ws, y) && DistinctBytes(ns'[y]) && Walk(ns', ws[y]) == y
    {
      TallyAppend(ps, s, ws[y]);
      assert Walk(ns, ws[y]) == y;
      WalkSameShape(ns, ns', ws[y]);
      assert Shaped(ns, a, ws, y) && DistinctBytes(ns[y]);
    }
    forall j | 0 <= j < |ps + [s]|
      ensures Walk(ns', (ps + [s])[j]) != Nil
    {
      WalkSameShape(ns, ns', (ps + [s])[j]);
      if j < |ps| {
        assert Walk(ns, ps[j]) != Nil;
      }
    }
  }

  /** The root-only trie the first `Insert` allocates, with room for n more
      nodes. */
  function Fresh(n: nat): (r: seq<AcNode>)
    ensures |r| == n + 1 && r[0].fail == Nil
    ensures forall y :: 0 < y < |r| ==> r[y] == Zero
  {
    [Zero.(fail := Nil)] + seq(n, _ => Zero)
  }

  lemma FreshTrie(n: nat)
    ensures Rooted(Fresh(n), 1, [[]], [])
    ensures forall w :: w != [] ==> Walk(Fresh(n), w) == Nil
  {
    forall w | w != []
      ensures Walk(Fresh(n), w) == Nil
    {
      var u := w[..|w| - 1];
      var q := Walk(Fresh(n), u);
      if 0 <= q < n + 1 {
        assert Fresh(n)[q].ch == [];
      }
    }
  }

  /** The length of the longest prefix of s that the trie spells. */
  function Matched(ns: seq<AcNode>, s: seq<byte>): (r: nat)
    ensures r <= |s|
  {
    if s == [] || Walk(ns, s) != Nil then |s| else Matched(ns, s[..|s| - 1])
  }

  /** The prefixes of s the trie spells are exactly those up to Matched. */
  lemma {:induction false} MatchedPrefixes(ns: seq<AcNode>, s: seq<byte>, j: nat)
    requires |ns| > 0 && j <= |s|
    ensures Walk(ns, s[..j]) != Nil <==> j <= Matched(ns, s)
    decreases |s|
  {
    if Walk(ns, s) != Nil {
      WalkPrefix(ns, s, j);
    } else if j < |s| {
      var u := s[..|s| - 1];
      assert u[..j] == s[..j];
      MatchedPrefixes(ns, u, j);
    } else {
      assert s[..j] == s;
    }
  }

  /** One step of `Insert`'s walk: from node p along byte c, adding a node
      when p has no child for c (after growing the slice by `spare` zero
      nodes when it is full). */
  method Descend(ns: seq<AcNode>, a: int, ghost ws: seq<seq<byte>>, ghost ps: seq<seq<byte>>,
                 p: int, c: byte, spare: nat)
    returns (ns': seq<AcNode>, a': int, x: int, ghost ws': seq<seq<byte>>)
    requires Rooted(ns, a, ws, ps) && 0 <= p < a && spare > 0
    ensures Rooted(ns', a', ws', ps) && 0 <= x < a' && Walk(ns', ws[p] + [c]) == x
    ensures Child(ns[p], c) != Nil ==> ns' == ns && a' == a && ws' == ws && x == Child(ns[p], c)
    ensures Child(ns[p], c) == Nil ==> a' == a + 1 && x == a && ns'[x].ch == [] && ws' == ws + [ws[p] + [c]]
  {
    var wc := ws[p] + [c];
    assert wc[..|wc| - 1] == ws[p];
    assert Walk(ns, ws[p]) == p;
    assert Shaped(ns, a, ws, p);
    x := GetNode(ns[p], c);
    if x != Nil {
      ChildShaped(ns, a, ws, p, c);
      return ns, a, x, ws;
    }
    ns' := ns;
    if a == |ns| {
      GrowKeeps(ns, a, ws, ps, spare);
      ns' := ns + seq(spare, _ => Zero);
      assert ns'[p] == ns[p];
      assert Walk(ns', ws[p]) == p;
    }
    x := a;
    assert ns'[x] == Zero;
    AddChildKeeps(ns', a, ws, ps, p, c);
    AddWalks(ns', a, ws, p, c);
    ns' := ns'[p := AddNode(ns'[p], c, x)];
    a' := a + 1;
    ws' := ws + [wc];
    assert ws'[x] == wc;
  }

  lemma Snoc(s: seq<byte>, i: nat)
    requires i < |s|
    ensures s[..i] + [s[i]] == s[..i + 1] && s[..i + 1][..i] == s[..i]
  {
  }

  /** The state of `Insert`'s walk after i bytes of s, starting from the
      trie n0 of a0 nodes that spells the first m bytes of s: p spells
      s[..i], and nodes have been added only past m, the newest being p. */
  ghost predicate PathInv(n0: seq<AcNode>, a0: int, ps: seq<seq<byte>>, s: seq<byte>, m: nat, i: nat,
                          ns: seq<AcNode>, a: int, ws: seq<seq<byte>>, p: int)
  {
    i <= |s| && Rooted(ns, a, ws, ps) && 0 <= p < a && p == Walk(ns, s[..i]) && a0 <= a &&
    (i <= m ==> ns == n0 && a == a0) &&
    (i > m ==> a == a0 + i - m && p == a - 1 && ns[p].ch == [])
  }

  /** One byte of `Insert`'s walk, with the walk's invariant. */
  method Follow(ghost n0: seq<AcNode>, ghost a0: int, ghost ps: seq<seq<byte>>, s: seq<byte>, i: nat,
                ns: seq<AcNode>, a: int, ghost ws: seq<seq<byte>>, p: int)
    returns (ns': seq<AcNode>, a': int, ghost ws': seq<seq<byte>>, p': int)
    requires |n0| > 0 && i < |s| && PathInv(n0, a0, ps, s, Matched(n0, s), i, ns, a, ws, p)
    ensures 0 <= p' < a' && a <= a' <= a + 1
    ensures PathInv(n0, a0, ps, s, Matched(n0, s), i + 1, ns', a', ws', p')
  {
    ghost var m := Matched(n0, s);
    MatchedPrefixes(n0, s, i + 1);
    WalkWord(ns, a, ws, ps, s[..i]);
    Snoc(s, i);
    if i < m {
      assert Walk(n0, s[..i + 1]) == Child(ns[p], s[i]);
    } else {
      assert Child(ns[p], s[i]) == Nil;
    }
    ns', a', p', ws' := Descend(ns, a, ws, ps, p, s[i], |s| - i);
  }

  /** `Insert`'s walk: follows s from the root, adding the nodes for the
      bytes past the longest prefix the trie already spells, and returns the
      node spelling s. */
  method AddPath(ns: seq<AcNode>, a: int, ghost ws: seq<seq<byte>>, ghost ps: seq<seq<byte>>, s: seq<byte>)
    returns (ns': seq<AcNode>, a': int, p: int, ghost ws': seq<seq<byte>>)
    requires Rooted(ns, a, ws, ps)
    ensures Rooted(ns', a', ws', ps) && 0 <= p < a' && Walk(ns', s) == p
    ensures a' == a + |s| - Matched(ns, s)
  {
    ghost var m := Matched(ns, s);
    assert s[..0] == [];
    ns', a', p, ws' := ns, a, Root, ws;
    for i := 0 to |s|
      invariant PathInv(ns, a, ps, s, m, i, ns', a', ws', p)
    {
      ns', a', ws', p := Follow(ns, a, ps, s, i, ns', a', ws', p);
    }
    assert s[..|s|] == s;
  }

  /** `Insert` on the node slice: a nil slice first becomes the root and
      room for |s| more nodes. */
  method InsertNodes(ns: seq<AcNode>, a: int, ghost ws: seq<seq<byte>>, ghost ps: seq<seq<byte>>, s: seq<byte>)
    returns (ns': seq<AcNode>, a': int, ghost ws': seq<seq<byte>>)
    requires Trie(ns, a, ws, ps)
    ensures Trie(ns', a', ws', ps + [s])
    ensures a > 0 ==> a' == a + |s| - Matched(ns, s)
    ensures a == 0 ==> a' == |s| + 1
  {
    ns', a', ws' := ns, a, ws;
    if ns == [] {
      ns' := Fresh(|s|);
      a' := Pren;
      ws' := [[]];
      FreshTrie(|s|);
      if s != [] {
        MatchedPrefixes(ns', s, 1);
      }
    }
    var p;
    ns', a', p, ws' := AddPath(ns', a', ws', ps, s);
    EndKeeps(ns', a', ws', ps, s, p);
    ns' := ns'[p := ns'[p].(end := ns'[p].end + 1)];
  }

  // ---------------------------------------------------------------------
  // Failure links

  /** u is a suffix of t. */
  ghost predicate IsSuffix(u: seq<byte>, t: seq<byte>)
  {
    |u| <= |t| && t[|t| - |u|..] == u
  }

  ghost predicate ProperSuffix(u: seq<byte>, t: seq<byte>)
  {
    IsSuffix(u, t) && |u| < |t|
  }

  lemma SuffixTrans(u: seq<byte>, v: seq<byte>, t: seq<byte>)
    requires IsSuffix(u, v) && IsSuffix(v, t)
    ensures IsSuffix(u, t)
  {
    assert t[|t| - |u|..] == t[|t| - |v|..][|v| - |u|..];
  }

  /** Of two suffixes of t, the shorter is a suffix of the longer. */
  lemma SuffixOrder(u: seq<byte>, v: seq<byte>, t: seq<byte>)
    requires IsSuffix(u, t) && IsSuffix(v, t) && |u| <= |v|
    ensures IsSuffix(u, v)
  {
    assert t[|t| - |u|..] == t[|t| - |v|..][|v| - |u|..];
  }

  lemma SuffixSnoc(u: seq<byte>, w: seq<byte>, c: byte)
    requires IsSuffix(u, w)
    ensures IsSuffix(u + [c], w + [c])
  {
    assert (w + [c])[|w + [c]| - |u + [c]|..] == w[|w| - |u|..] + [c];
  }

  /** A nonempty suffix of w + [c] ends in c and drops to a suffix of w. */
  lemma SuffixUnsnoc(v: seq<byte>, w: seq<byte>, c: byte)
    requires IsSuffix(v, w + [c]) && v != []
    ensures v[|v| - 1] == c && IsSuffix(v[..|v| - 1], w)
  {
    assert (w + [c])[|w + [c]| - |v|..] == w[|w| - (|v| - 1)..] + [c];
  }

  lemma EmptySuffix(t: seq<byte>)
    ensures IsSuffix([], t)
  {
  }

  /** f is a node, its word is a proper suffix of w, and no node spells a
      longer proper suffix of w. */
  ghost predicate Deepest(a: int, ws: seq<seq<byte>>, f: int, w: seq<byte>)
  {
    a <= |ws| && 0 <= f < a && ProperSuffix(ws[f], w) &&
    forall z {:trigger ProperSuffix(ws[z], w)} :: 0 <= z < a && ProperSuffix(ws[z], w) ==> |ws[z]| <= |ws[f]|
  }

  /** Node x's failure link is the node spelling the longest proper suffix
      of x's word. */
  ghost predicate FailOK(ns: seq<AcNode>, a: int, ws: seq<seq<byte>>, x: int)
  {
    0 <= x < |ns| && Deepest(a, ws, ns[x].fail, if x < |ws| then ws[x] else [])
  }

  /** What `Build` establishes: every node but the root is linked. */
  ghost predicate Linked(ns: seq<AcNode>, a: int, ws: seq<seq<byte>>)
  {
    forall x {:trigger FailOK(ns, a, ws, x)} :: 0 < x < a ==> FailOK(ns, a, ws, x)
  }

  /** The node whose word is y's word less its last byte. */
  ghost function Parent(ns: seq<AcNode>, ws: seq<seq<byte>>, y: int): int
    requires 0 <= y < |ws| && ws[y] != []
  {
    Walk(ns, ws[y][..|ws[y]| - 1])
  }

  lemma ParentFacts(ns: seq<AcNode>, a: int, ws: seq<seq<byte>>, ps: seq<seq<byte>>, y: int)
    requires Rooted(ns, a, ws, ps) && 0 <= y < a && ws[y] != []
    ensures 0 <= Parent(ns, ws, y) < a && ws[Parent(ns, ws, y)] == ws[y][..|ws[y]| - 1]
    ensures Child(ns[Parent(ns, ws, y)], ws[y][|ws[y]| - 1]) == y
  {
    assert Walk(ns, ws[y]) == y;
    WalkWord(ns, a, ws, ps, ws[y][..|ws[y]| - 1]);
  }

  /** Distinct nodes spell distinct words; only the root spells []. */
  lemma WordsDistinct(ns: seq<AcNode>, a: int, ws: seq<seq<byte>>, ps: seq<seq<byte>>, y: int, z: int)
    requires Rooted(ns, a, ws, ps) && 0 <= y < a && 0 <= z < a
    ensures ws[y] == ws[z] ==> y == z
    ensures ws[y] == [] <==> y == Root
  {
    assert Walk(ns, ws[y]) == y && Walk(ns, ws[z]) == z;
  }

  /** A child found by `getnode` is listed. */
  lemma {:induction false} ChildListed(n: AcNode, c: byte, i: nat)
    ensures ChildFrom(n, c, i) != Nil ==> ChildFrom(n, c, i) in n.next
    decreases |n.ch| - i
  {
    if i < |n.ch| && i < |n.next| && n.ch[i] != c {
      ChildListed(n, c, i + 1);
    }
  }

  /** Node x's word, when x is listed among node y's children. */
  lemma ListedChild(ns: seq<AcNode>, a: int, ws: seq<seq<byte>>, y: int, j: int)
    requires TrieShape(ns, a, ws) && 0 <= y < a && 0 <= j < |ns[y].next| && j < |ns[y].ch|
    ensures 0 < ns[y].next[j] < a && ws[ns[y].next[j]] == ws[y] + [ns[y].ch[j]]
  {
    assert Shaped(ns, a, ws, y);
  }

  /** Two tries that differ only in failure links. */
  ghost predicate OnlyFails(ns: seq<AcNode>, ns': seq<AcNode>)
  {
    |ns| == |ns'| && forall y :: 0 <= y < |ns| ==> ns'[y] == ns[y].(fail := ns'[y].fail)
  }

  /** Setting a failure link other than the root's keeps the trie. */
  lemma FailKeeps(ns: seq<AcNode>, a: int, ws: seq<seq<byte>>, ps: seq<seq<byte>>, x: int, v: int)
    requires Rooted(ns, a, ws, ps) && 0 < x < a
    ensures Rooted(ns[x := ns[x].(fail := v)], a, ws, ps)
    ensures OnlyFails(ns, ns[x := ns[x].(fail := v)])
  {
    var ns' := ns[x := ns[x].(fail := v)];
    assert SameShape(ns, ns');
    forall y | 0 <= y < a
      ensures Shaped(ns', a, ws, y) && DistinctBytes(ns'[y]) && Walk(ns', ws[y]) == y && ns'[y].end == Tally(ps, ws[y])
    {
      assert Shaped(ns, a, ws, y) && DistinctBytes(ns[y]) && Walk(ns, ws[y]) == y && ns[y].end == Tally(ps, ws[y]);
      WalkSameShape(ns, ns', ws[y]);
    }
    forall k | 0 <= k < |ps|
      ensures Walk(ns', ps[k]) != Nil
    {
      assert Walk(ns, ps[k]) != Nil;
      WalkSameShape(ns, ns', ps[k]);
    }
  }

  /** Node y is a candidate for the chase from node p along c: it spells a
      proper suffix of p's word and has a child for c. */
  ghost predicate Cand(ns: seq<AcNode>, a: int, ws: seq<seq<byte>>, w: seq<byte>, c: byte, y: int)
  {
    0 <= y < a && y < |ws| && y < |ns| && ProperSuffix(ws[y], w) && Child(ns[y], c) != Nil
  }

  /** Every node whose word is shorter than n bytes, other than the root,
      is linked. */
  ghost predicate LinkedBelow(ns: seq<AcNode>, a: int, ws: seq<seq<byte>>, n: int)
  {
    forall y {:trigger FailOK(ns, a, ws, y)} :: 0 < y < a && y < |ws| && |ws[y]| < n ==> FailOK(ns, a, ws, y)
  }

  /** The chase in `Build` for the child along byte c of a linked node p:
      follows failure links from p's, stopping at the first node with a
      child for c; that child, or the root when the chase falls off it, is
      the child's failure link. */
  method ChaseFail(ns: seq<AcNode>, a: int, ghost ws: seq<seq<byte>>, ghost ps: seq<seq<byte>>, p: int, c: byte)
    returns (f: int)
    requires Rooted(ns, a, ws, ps) && 0 < p < a && FailOK(ns, a, ws, p) && LinkedBelow(ns, a, ws, |ws[p]|)
    ensures Deepest(a, ws, f, ws[p] + [c])
  {
    var g := ns[p].fail;
    var z := Nil;
    while z == Nil && g != Nil
      invariant z == Nil && g == Nil ==> forall y :: !Cand(ns, a, ws, ws[p], c, y)
      invariant g != Nil ==> 0 <= g < a && ProperSuffix(ws[g], ws[p])
      invariant g != Nil ==> forall y :: Cand(ns, a, ws, ws[p], c, y) ==> |ws[y]| <= |ws[g]|
      invariant z != Nil ==> g != Nil && z == Child(ns[g], c)
      decreases if z != Nil then 0 else if g == Nil then 1 else |ws[g]| + 2
    {
      assert Shaped(ns, a, ws, g);
      z := GetNode(ns[g], c);
      if z == Nil {
        var h := ns[g].fail;
        forall y | Cand(ns, a, ws, ws[p], c, y)
          ensures |ws[y]| < |ws[g]|
        {
          SuffixOrder(ws[y], ws[g], ws[p]);
          if |ws[y]| == |ws[g]| {
            WordsDistinct(ns, a, ws, ps, y, g);
          }
        }
        if g == Root {
          assert h == Nil;
        } else {
          WordsDistinct(ns, a, ws, ps, g, Root);
          assert FailOK(ns, a, ws, g);
          forall y | Cand(ns, a, ws, ws[p], c, y)
            ensures |ws[y]| <= |ws[h]|
          {
            SuffixOrder(ws[y], ws[g], ws[p]);
            assert ProperSuffix(ws[y], ws[g]);
          }
          SuffixTrans(ws[h], ws[g], ws[p]);
        }
        g := h;
      }
    }
    var w := ws[p] + [c];
    forall y | 0 <= y < a && ProperSuffix(ws[y], w) && ws[y] != []
      ensures Cand(ns, a, ws, ws[p], c, Parent(ns, ws, y)) && |ws[y]| == |ws[Parent(ns, ws, y)]| + 1
    {
      ParentFacts(ns, a, ws, ps, y);
      SuffixUnsnoc(ws[y], ws[p], c);
    }
    if z != Nil {
      ChildShaped(ns, a, ws, g, c);
      SuffixSnoc(ws[g], ws[p], c);
      f := z;
    } else {
      f := Root;
      assert ws[Root] == [];
    }
  }

  // ---------------------------------------------------------------------
  // Breadth-first order of `Build`

  /** Every node queued so far is linked. */
  ghost predicate Queued(ns: seq<AcNode>, a: int, ws: seq<seq<byte>>, order: seq<nat>)
  {
    forall j :: 0 <= j < |order| ==> 0 < order[j] < a && FailOK(ns, a, ws, order[j])
  }

  /** Nodes are queued by nondecreasing depth. */
  ghost predicate ByDepth(ws: seq<seq<byte>>, order: seq<nat>)
  {
    forall j1, j2 :: 0 <= j1 <= j2 < |order| && order[j1] < |ws| && order[j2] < |ws| ==>
      |ws[order[j1]]| <= |ws[order[j2]]|
  }

  /** The root's children, those of the first k nodes queued, and the first
      i children of node order[k] are queued. */
  ghost predicate Expanded(ns: seq<AcNode>, order: seq<nat>, k: int, i: int)
  {
    |ns| > 0 &&
    (forall j :: 0 <= j < |ns[Root].next| ==> ns[Root].next[j] in order) &&
    (forall m, j :: 0 <= m < k && m < |order| && order[m] < |ns| && 0 <= j < |ns[order[m]].next| ==>
       ns[order[m]].next[j] in order) &&
    (0 <= k < |order| && order[k] < |ns| ==>
       forall j :: 0 <= j < i && j < |ns[order[k]].next| ==> ns[order[k]].next[j] in order)
  }

  /** No child of a node still to be expanded is queued yet. */
  ghost predicate Unexpanded(ns: seq<AcNode>, order: seq<nat>, k: int, i: int)
  {
    (0 <= k < |order| && order[k] < |ns| ==>
       forall j :: 0 <= i <= j < |ns[order[k]].next| ==> ns[order[k]].next[j] !in order) &&
    (forall m, j :: 0 <= k < m < |order| && order[m] < |ns| && 0 <= j < |ns[order[m]].next| ==>
       ns[order[m]].next[j] !in order)
  }

  /** No node queued is more than one byte deeper than node order[k]. */
  ghost predicate DepthCap(ws: seq<seq<byte>>, order: seq<nat>, k: int)
  {
    0 <= k < |order| && order[k] < |ws| ==>
      forall j :: 0 <= j < |order| && order[j] < |ws| ==> |ws[order[j]]| <= |ws[order[k]]| + 1
  }

  /** The state of `Build`'s queue: `order` lists every node queued so far,
      the first k have been taken from the queue and expanded, and node
      order[k] has had its first i children linked and queued. */
  ghost predicate Bfs(ns: seq<AcNode>, a: int, ws: seq<seq<byte>>, order: seq<nat>, k: int, i: int)
  {
    0 <= k <= |order| && (k == |order| ==> i == 0) &&
    (k < |order| ==> order[k] < |ns| && 0 <= i <= |ns[order[k]].next|) &&
    Queued(ns, a, ws, order) && Distinct(order) && ByDepth(ws, order) &&
    Expanded(ns, order, k, i) && Unexpanded(ns, order, k, i) && DepthCap(ws, order, k)
  }

  /** Distinct positions in a node's child list hold distinct children. */
  lemma NextDistinct(ns: seq<AcNode>, a: int, ws: seq<seq<byte>>, y: int, j1: int, j2: int)
    requires TrieShape(ns, a, ws) && 0 <= y < a && 0 <= j1 < |ns[y].next| && 0 <= j2 < |ns[y].next| && j1 != j2
    ensures ns[y].next[j1] != ns[y].next[j2]
  {
    assert Shaped(ns, a, ws, y) && DistinctBytes(ns[y]);
    var w1, w2 := ws[ns[y].next[j1]], ws[ns[y].next[j2]];
    assert w1[|w1| - 1] == ns[y].ch[j1] && w2[|w2| - 1] == ns[y].ch[j2];
  }

  lemma OnlyFailsTrans(ns: seq<AcNode>, ns': seq<AcNode>, ns'': seq<AcNode>)
    requires OnlyFails(ns, ns') && OnlyFails(ns', ns'')
    ensures OnlyFails(ns, ns'')
  {
    forall y | 0 <= y < |ns|
      ensures ns''[y] == ns[y].(fail := ns''[y].fail)
    {
      assert ns'[y] == ns[y].(fail := ns'[y].fail);
      assert ns''[y] == ns'[y].(fail := ns''[y].fail);
    }
  }

  /** Every node other than the root that is no deeper than node order[k]
      (every node at all, once the queue is empty) has been queued. */
  lemma {:induction false} InOrder(ns: seq<AcNode>, a: int, ws: seq<seq<byte>>, ps: seq<seq<byte>>,
                                   order: seq<nat>, k: int, i: int, y: int)
    requires Rooted(ns, a, ws, ps) && Bfs(ns, a, ws, order, k, i) && 0 < y < a
    requires k == |order| || |ws[y]| <= |ws[order[k]]|
    ensures y in order
    decreases |ws[y]|
  {
    WordsDistinct(ns, a, ws, ps, y, Root);
    ParentFacts(ns, a, ws, ps, y);
    var q := Parent(ns, ws, y);
    ChildListed(ns[q], ws[y][|ws[y]| - 1], 0);
    var j :| 0 <= j < |ns[q].next| && ns[q].next[j] == y;
    if q != Root {
      WordsDistinct(ns, a, ws, ps, q, Root);
      InOrder(ns, a, ws, ps, order, k, i, q);
      var m :| 0 <= m < |order| && order[m] == q;
      assert m < k;
    }
  }

  /** The nodes the chase for node order[k] relies on are linked. */
  lemma BfsReady(ns: seq<AcNode>, a: int, ws: seq<seq<byte>>, ps: seq<seq<byte>>, order: seq<nat>, k: int, i: int)
    requires Rooted(ns, a, ws, ps) && Bfs(ns, a, ws, order, k, i) && k < |order|
    ensures 0 < order[k] < a && FailOK(ns, a, ws, order[k]) && LinkedBelow(ns, a, ws, |ws[order[k]]|)
  {
    forall y | 0 < y < a && y < |ws| && |ws[y]| < |ws[order[k]]|
      ensures FailOK(ns, a, ws, y)
    {
      InOrder(ns, a, ws, ps, order, k, i, y);
    }
  }

  /** Once the queue is empty every node but the root is linked. */
  lemma BfsDone(ns: seq<AcNode>, a: int, ws: seq<seq<byte>>, ps: seq<seq<byte>>, order: seq<nat>)
    requires Rooted(ns, a, ws, ps) && Bfs(ns, a, ws, order, |order|, 0)
    ensures Linked(ns, a, ws)
  {
    forall y | 0 < y < a
      ensures FailOK(ns, a, ws, y)
    {
      InOrder(ns, a, ws, ps, order, |order|, 0, y);
    }
  }

  lemma {:induction false} DistinctCount(s: seq<nat>, w: nat)
    requires Distinct(s)
    ensures Count(s, w) <= 1
    decreases |s|
  {
    CountPositive(s, w);
    if |s| > 0 {
      var t, u := s[..|s| - 1], s[|s| - 1];
      assert s == t + [u];
      CountAppend(t, [u], w);
      CountOne(u, w);
      DistinctCount(t, w);
      CountPositive(t, w);
    }
  }

  /** Differing only in failure links does not change which children are
      queued. */
  lemma BfsFrame(ns: seq<AcNode>, ns': seq<AcNode>, order: seq<nat>, k: int, i: int)
    requires OnlyFails(ns, ns') && Expanded(ns, order, k, i) && Unexpanded(ns, order, k, i)
    ensures Expanded(ns', order, k, i) && Unexpanded(ns', order, k, i)
  {
    forall y | 0 <= y < |ns| ensures ns'[y].next == ns[y].next {
      assert ns'[y] == ns[y].(fail := ns'[y].fail);
    }
  }

  /** The next child of node order[k] is a node that has not been queued. */
  lemma AppendNew(ns: seq<AcNode>, a: int, ws: seq<seq<byte>>, ps: seq<seq<byte>>, order: seq<nat>, k: int, i: int)
    requires Rooted(ns, a, ws, ps) && Bfs(ns, a, ws, order, k, i) && k < |order| && i < |ns[order[k]].next|
    ensures i < |ns[order[k]].ch| && 0 < ns[order[k]].next[i] < a
    ensures ws[ns[order[k]].next[i]] == ws[order[k]] + [ns[order[k]].ch[i]]
    ensures ns[order[k]].next[i] !in order
  {
    assert 0 < order[k] < a;
    assert Shaped(ns, a, ws, order[k]);
    ListedChild(ns, a, ws, order[k], i);
  }

  /** Queuing that child leaves the remaining children unqueued. */
  lemma AppendUnexpanded(ns: seq<AcNode>, a: int, ws: seq<seq<byte>>, ps: seq<seq<byte>>, order: seq<nat>, k: int, i: int)
    requires Rooted(ns, a, ws, ps) && Bfs(ns, a, ws, order, k, i) && k < |order| && i < |ns[order[k]].next|
    requires 0 < ns[order[k]].next[i]
    ensures Unexpanded(ns, order + [ns[order[k]].next[i] as nat], k, i + 1)
  {
    var p := order[k];
    var x := ns[p].next[i] as nat;
    var o' := order + [x];
    AppendNew(ns, a, ws, ps, order, k, i);
    forall j | i + 1 <= j < |ns[p].next|
      ensures ns[p].next[j] !in o'
    {
      NextDistinct(ns, a, ws, p, i, j);
    }
    forall m, j | k < m < |o'| && o'[m] < |ns| && 0 <= j < |ns[o'[m]].next|
      ensures ns[o'[m]].next[j] !in o'
    {
      var y := o'[m];
      assert 0 < y < a;
      assert Shaped(ns, a, ws, y);
      ListedChild(ns, a, ws, y, j);
      var w := ns[y].next[j];
      if m < |order| {
        assert o'[m] == order[m] && w !in order;
        if w == x {
          assert ws[y] == ws[x][..|ws[x]| - 1] == ws[p];
          WordsDistinct(ns, a, ws, ps, y, p);
        }
      } else {
        assert |ws[w]| == |ws[p]| + 2;
        forall j' | 0 <= j' < |o'|
          ensures o'[j'] != w
        {
          if j' < |order| {
            assert |ws[order[j']]| <= |ws[order[k]]| + 1;
          }
        }
      }
    }
  }

  /** Queuing a new node one byte deeper than node order[k] keeps the order
      free of repeats and by depth. */
  lemma AppendOrder(ws: seq<seq<byte>>, order: seq<nat>, k: int, x: nat)
    requires 0 <= k < |order| && order[k] < |ws| && x < |ws| && |ws[x]| == |ws[order[k]]| + 1
    requires Distinct(order) && ByDepth(ws, order) && DepthCap(ws, order, k) && x !in order
    ensures Distinct(order + [x]) && ByDepth(ws, order + [x]) && DepthCap(ws, order + [x], k)
  {
    var o' := order + [x];
    forall j1, j2 | 0 <= j1 < j2 < |o'|
      ensures o'[j1] != o'[j2]
    {
      if j2 == |order| {
        assert o'[j1] in order;
      }
    }
    forall j1, j2 | 0 <= j1 <= j2 < |o'| && o'[j1] < |ws| && o'[j2] < |ws|
      ensures |ws[o'[j1]]| <= |ws[o'[j2]]|
    {
      if j2 == |order| && j1 < |order| {
        assert |ws[order[j1]]| <= |ws[order[k]]| + 1;
      }
    }
  }

  /** Queuing node order[k]'s next child extends what has been queued. */
  lemma AppendExpanded(ns: seq<AcNode>, order: seq<nat>, k: int, i: int)
    requires Expanded(ns, order, k, i) && 0 <= k < |order| && order[k] < |ns|
    requires 0 <= i < |ns[order[k]].next| && 0 <= ns[order[k]].next[i]
    ensures Expanded(ns, order + [ns[order[k]].next[i] as nat], k, i + 1)
  {
    var o' := order + [ns[order[k]].next[i] as nat];
    forall y | y in order ensures y in o' {
      var j :| 0 <= j < |order| && order[j] == y;
      assert o'[j] == y;
    }
  }

  /** Linking x and queuing it keeps every queued node linked. */
  lemma AppendQueued(ns: seq<AcNode>, a: int, ws: seq<seq<byte>>, order: seq<nat>, x: nat, v: int)
    requires Queued(ns, a, ws, order) && 0 < x < a && x < |ns| && x < |ws| && x !in order
    requires Deepest(a, ws, v, ws[x])
    ensures Queued(ns[x := ns[x].(fail := v)], a, ws, order + [x])
  {
    var ns' := ns[x := ns[x].(fail := v)];
    var o' := order + [x];
    forall j | 0 <= j < |o'|
      ensures 0 < o'[j] < a && FailOK(ns', a, ws, o'[j])
    {
      if j < |order| {
        assert FailOK(ns, a, ws, order[j]) && o'[j] == order[j] != x;
      }
    }
  }

  /** Linking node order[k]'s next child and queuing it keeps the queue's
      state. */
  lemma BfsAppend(ns: seq<AcNode>, a: int, ws: seq<seq<byte>>, ps: seq<seq<byte>>, order: seq<nat>, k: int, i: int, v: int)
    requires Rooted(ns, a, ws, ps) && Bfs(ns, a, ws, order, k, i) && k < |order| && i < |ns[order[k]].next|
    requires 0 < ns[order[k]].next[i] < |ws|
    requires Deepest(a, ws, v, ws[ns[order[k]].next[i]])
    ensures var x := ns[order[k]].next[i];
            var ns' := ns[x := ns[x].(fail := v)];
            Rooted(ns', a, ws, ps) && OnlyFails(ns, ns') && Bfs(ns', a, ws, order + [x as nat], k, i + 1)
  {
    var p := order[k];
    var x := ns[p].next[i] as nat;
    var ns' := ns[x := ns[x].(fail := v)];
    var o' := order + [x];
    AppendNew(ns, a, ws, ps, order, k, i);
    AppendUnexpanded(ns, a, ws, ps, order, k, i);
    AppendOrder(ws, order, k, x);
    AppendQueued(ns, a, ws, order, x, v);
    FailKeeps(ns, a, ws, ps, x, v);
    AppendExpanded(ns, order, k, i);
    BfsFrame(ns, ns', o', k, i + 1);
  }

  /** Taking the next node from the queue once the current one is expanded. */
  lemma BfsPop(ns: seq<AcNode>, a: int, ws: seq<seq<byte>>, order: seq<nat>, k: int)
    requires Bfs(ns, a, ws, order, k, if 0 <= k < |order| && order[k] < |ns| then |ns[order[k]].next| else 0)
    requires k < |order|
    ensures Bfs(ns, a, ws, order, k + 1, 0)
  {
    if k + 1 < |order| && order[k + 1] < |ws| && order[k] < |ws| {
      assert |ws[order[k]]| <= |ws[order[k + 1]]|;
    }
  }

  /** A node one byte deep fails to the root. */
  lemma DepthOne(ns: seq<AcNode>, a: int, ws: seq<seq<byte>>, ps: seq<seq<byte>>, x: int)
    requires Rooted(ns, a, ws, ps) && 0 < x < a && |ws[x]| == 1
    ensures Deepest(a, ws, Root, ws[x])
  {
    assert ws[Root] == [];
    EmptySuffix(ws[x]);
  }

  /** The queue right after the root's children are linked: exactly those
      children, none of them expanded yet. */
  lemma BfsStart(ns: seq<AcNode>, a: int, ws: seq<seq<byte>>, ps: seq<seq<byte>>, order: seq<nat>)
    requires Rooted(ns, a, ws, ps) && |order| == |ns[Root].next| && Distinct(order)
    requires forall t :: 0 <= t < |order| ==> order[t] == ns[Root].next[t] && order[t] < |ns| && ns[order[t]].fail == Root
    ensures Bfs(ns, a, ws, order, 0, 0)
  {
    assert ws[Root] == [] && Shaped(ns, a, ws, Root);
    forall t | 0 <= t < |order|
      ensures 0 < order[t] < a && |ws[order[t]]| == 1 && FailOK(ns, a, ws, order[t])
    {
      ListedChild(ns, a, ws, Root, t);
      DepthOne(ns, a, ws, ps, order[t]);
    }
    forall y | y in ns[Root].next ensures y in order {
      var t :| 0 <= t < |ns[Root].next| && ns[Root].next[t] == y;
      assert order[t] == y;
    }
    forall m, j | 0 <= m < |order| && order[m] < |ns| && 0 <= j < |ns[order[m]].next|
      ensures ns[order[m]].next[j] !in order
    {
      assert Shaped(ns, a, ws, order[m]);
      ListedChild(ns, a, ws, order[m], j);
    }
  }

  /** Lines 64-69 of `Build`: every child of the root fails to the root and
      is queued, in the order of the root's child list. */
  method LinkRoot(ns: seq<AcNode>, a: int, ghost ws: seq<seq<byte>>, ghost ps: seq<seq<byte>>)
    returns (ns': seq<AcNode>, q: seq<int>, ghost order: seq<nat>)
    requires Rooted(ns, a, ws, ps)
    ensures Rooted(ns', a, ws, ps) && OnlyFails(ns, ns') && Bfs(ns', a, ws, order, 0, 0) && q == order
  {
    var kids := ns[Root].next;
    assert Shaped(ns, a, ws, Root);
    ns', q, order := ns, [], [];
    for j := 0 to |kids|
      invariant Rooted(ns', a, ws, ps) && OnlyFails(ns, ns') && q == order && |order| == j
      invariant Distinct(order)
      invariant forall t :: 0 <= t < j ==> order[t] == kids[t] && order[t] < |ns'| && ns'[order[t]].fail == Root
    {
      var x := kids[j];
      ListedChild(ns, a, ws, Root, j);
      forall t | 0 <= t < j ensures order[t] != x {
        NextDistinct(ns, a, ws, Root, t, j);
      }
      FailKeeps(ns', a, ws, ps, x, Root);
      OnlyFailsTrans(ns, ns', ns'[x := ns'[x].(fail := Root)]);
      DistinctJoin(order, [x]);
      ns' := ns'[x := ns'[x].(fail := Root)];
      q, order := q + [x], order + [x as nat];
    }
    assert ns'[Root].next == kids;
    BfsStart(ns', a, ws, ps, order);
  }

  /** The state of `Build` while it links the children of node p, taken
      from the queue as order[k]; n0 is the trie `Build` started from. */
  ghost predicate LinkInv(n0: seq<AcNode>, ns: seq<AcNode>, a: int, ws: seq<seq<byte>>, ps: seq<seq<byte>>,
                          order: seq<nat>, k: int, i: int, p: int, n: AcNode, q: seq<int>)
  {
    Rooted(ns, a, ws, ps) && OnlyFails(n0, ns) && Bfs(ns, a, ws, order, k, i) &&
    0 <= k < |order| && p == order[k] && q == order[k + 1..] && ns[p].ch == n.ch && ns[p].next == n.next
  }

  lemma QueueSnoc(order: seq<nat>, k: nat, x: nat)
    requires k < |order|
    ensures order[k + 1..] + [x] == (order + [x])[k + 1..]
  {
  }

  /** Lines 73-88 of `Build`: link every child of node p, in order, and
      queue each. */
  method LinkChildren(ghost n0: seq<AcNode>, ns: seq<AcNode>, a: int, ghost ws: seq<seq<byte>>, ghost ps: seq<seq<byte>>,
                      ghost order: seq<nat>, ghost k: int, p: int, n: AcNode, q: seq<int>)
    returns (ns': seq<AcNode>, q': seq<int>, ghost order': seq<nat>)
    requires LinkInv(n0, ns, a, ws, ps, order, k, 0, p, n, q)
    ensures LinkInv(n0, ns', a, ws, ps, order', k, |n.ch|, p, n, q')
  {
    ns', q', order' := ns, q, order;
    for i := 0 to |n.ch|
      invariant LinkInv(n0, ns', a, ws, ps, order', k, i, p, n, q')
    {
      ns', q', order' := LinkChild(n0, ns', a, ws, ps, order', k, i, p, n, q');
    }
  }

  /** Lines 74-87 of `Build`: link child i of node p and queue it. */
  method LinkChild(ghost n0: seq<AcNode>, ns: seq<AcNode>, a: int, ghost ws: seq<seq<byte>>, ghost ps: seq<seq<byte>>,
                   ghost order: seq<nat>, ghost k: int, i: int, p: int, n: AcNode, q: seq<int>)
    returns (ns': seq<AcNode>, q': seq<int>, ghost order': seq<nat>)
    requires LinkInv(n0, ns, a, ws, ps, order, k, i, p, n, q) && 0 <= i < |n.ch|
    ensures LinkInv(n0, ns', a, ws, ps, order', k, i + 1, p, n, q')
  {
    assert Shaped(ns, a, ws, p);
    var c := n.ch[i];
    var x := n.next[i];
    BfsReady(ns, a, ws, ps, order, k, i);
    AppendNew(ns, a, ws, ps, order, k, i);
    var f := ChaseFail(ns, a, ws, ps, p, c);
    BfsAppend(ns, a, ws, ps, order, k, i, f);
    OnlyFailsTrans(n0, ns, ns[x := ns[x].(fail := f)]);
    ns' := ns[x := ns[x].(fail := f)];
    QueueSnoc(order, k, x as nat);
    q', order' := q + [x], order + [x as nat];
  }

  /** Lines 70-89 of `Build`: take nodes from the queue in turn, link each
      child to the deepest node spelling a proper suffix of its word, and
      queue it. */
  method LinkRest(ns: seq<AcNode>, a: int, ghost ws: seq<seq<byte>>, ghost ps: seq<seq<byte>>,
                  q0: seq<int>, ghost order0: seq<nat>)
    returns (ns': seq<AcNode>)
    requires Rooted(ns, a, ws, ps) && Bfs(ns, a, ws, order0, 0, 0) && q0 == order0
    ensures Rooted(ns', a, ws, ps) && OnlyFails(ns, ns') && Linked(ns', a, ws)
  {
    ns' := ns;
    var q := q0;
    ghost var order: seq<nat>, k := order0, 0;
    assert OnlyFails(ns, ns');
    while |q| > 0
      invariant Rooted(ns', a, ws, ps) && OnlyFails(ns, ns') && Bfs(ns', a, ws, order, k, 0)
      invariant q == order[k..]
      decreases a - k
    {
      forall w: nat ensures Count(order, w) <= 1 {
        DistinctCount(order, w);
      }
      Topo.CountBound(order, a);
      var p := q[0];
      q := q[1..];
      var n := ns'[p];
      ns', q, order := LinkChildren(ns, ns', a, ws, ps, order, k, p, n, q);
      assert Shaped(ns', a, ws, p);
      BfsPop(ns', a, ws, order, k);
      k := k + 1;
    }
    BfsDone(ns', a, ws, ps, order);
  }

  /** Failure links point to strictly shallower nodes, and a node one byte
      deep fails to the root. */
  lemma FailShallower(ns: seq<AcNode>, a: int, ws: seq<seq<byte>>, ps: seq<seq<byte>>, x: int)
    requires Rooted(ns, a, ws, ps) && Linked(ns, a, ws) && 0 < x < a
    ensures 0 <= ns[x].fail < a && |ws[ns[x].fail]| < |ws[x]|
    ensures |ws[x]| == 1 ==> ns[x].fail == Root
  {
    assert FailOK(ns, a, ws, x);
    if |ws[x]| == 1 {
      WordsDistinct(ns, a, ws, ps, ns[x].fail, Root);
    }
  }

  // ---------------------------------------------------------------------
  // Matching

  /** Pattern u, if not empty, ends at the end of t. */
  ghost predicate Hit(u: seq<byte>, t: seq<byte>)
  {
    u != [] && IsSuffix(u, t)
  }

  /** How many of the patterns end at the end of t (an empty pattern never
      counts, as `Match` never adds the root's `end`). */
  ghost function Hits(ps: seq<seq<byte>>, t: seq<byte>): nat
  {
    if ps == [] then 0 else Hits(ps[..|ps| - 1], t) + if Hit(ps[|ps| - 1], t) then 1 else 0
  }

  /** How many times the patterns occur in s, counted at each end position. */
  ghost function Occurrences(ps: seq<seq<byte>>, s: seq<byte>): nat
  {
    if s == [] then 0 else Occurrences(ps, s[..|s| - 1]) + Hits(ps, s)
  }

  /** Two texts on which the same patterns end count the same. */
  lemma {:induction false} HitsSame(qs: seq<seq<byte>>, t: seq<byte>, v: seq<byte>)
    requires forall k :: 0 <= k < |qs| ==> (Hit(qs[k], t) <==> Hit(qs[k], v))
    ensures Hits(qs, t) == Hits(qs, v)
  {
    if qs != [] {
      HitsSame(qs[..|qs| - 1], t, v);
    }
  }

  /** If the patterns ending at the end of t are t itself and those ending at
      the end of the shorter v, the count for t is the count for v plus the
      patterns equal to t. */
  lemma {:induction false} HitsChain(qs: seq<seq<byte>>, t: seq<byte>, v: seq<byte>)
    requires |v| < |t|
    requires forall k :: 0 <= k < |qs| ==> (Hit(qs[k], t) <==> qs[k] == t || Hit(qs[k], v))
    ensures Hits(qs, t) == Tally(qs, t) + Hits(qs, v)
  {
    if qs != [] {
      HitsChain(qs[..|qs| - 1], t, v);
    }
  }

  lemma HitsEmpty(qs: seq<seq<byte>>)
    ensures Hits(qs, []) == 0
  {
    HitsSame(qs, [], []);
    if qs != [] {
      HitsEmpty(qs[..|qs| - 1]);
    }
  }

  /** Every pattern is some node's word. */
  lemma PatternNode(ns: seq<AcNode>, a: int, ws: seq<seq<byte>>, ps: seq<seq<byte>>, k: int)
    requires Rooted(ns, a, ws, ps) && 0 <= k < |ps|
    ensures 0 <= Walk(ns, ps[k]) < a && ws[Walk(ns, ps[k])] == ps[k]
  {
    WalkWord(ns, a, ws, ps, ps[k]);
  }

  /** The patterns ending at a linked node's word are its own word and
      those ending at its failure link's word. */
  lemma FailChain(ns: seq<AcNode>, a: int, ws: seq<seq<byte>>, ps: seq<seq<byte>>, x: int)
    requires Rooted(ns, a, ws, ps) && Linked(ns, a, ws) && 0 < x < a
    ensures 0 <= ns[x].fail < a && |ws[ns[x].fail]| < |ws[x]|
    ensures Hits(ps, ws[x]) == ns[x].end + Hits(ps, ws[ns[x].fail])
  {
    assert FailOK(ns, a, ws, x);
    var f := ns[x].fail;
    WordsDistinct(ns, a, ws, ps, x, Root);
    forall k | 0 <= k < |ps|
      ensures Hit(ps[k], ws[x]) <==> ps[k] == ws[x] || Hit(ps[k], ws[f])
    {
      PatternNode(ns, a, ws, ps, k);
      var y := Walk(ns, ps[k]);
      if Hit(ps[k], ws[x]) && ps[k] != ws[x] {
        assert ProperSuffix(ws[y], ws[x]);
        SuffixOrder(ps[k], ws[f], ws[x]);
      }
      if Hit(ps[k], ws[f]) {
        SuffixTrans(ps[k], ws[f], ws[x]);
      }
    }
    HitsChain(ps, ws[x], ws[f]);
    assert ns[x].end == Tally(ps, ws[x]);
  }

  /** Node p spells the longest suffix of t that any node spells. */
  ghost predicate Longest(a: int, ws: seq<seq<byte>>, p: int, t: seq<byte>)
  {
    a <= |ws| && 0 <= p < a && IsSuffix(ws[p], t) &&
    forall z {:trigger IsSuffix(ws[z], t)} :: 0 <= z < a && IsSuffix(ws[z], t) ==> |ws[z]| <= |ws[p]|
  }

  /** The patterns ending at the end of the text read are those ending at
      the end of the longest node word it ends with. */
  lemma HitsLongest(ns: seq<AcNode>, a: int, ws: seq<seq<byte>>, ps: seq<seq<byte>>, p: int, t: seq<byte>)
    requires Rooted(ns, a, ws, ps) && Longest(a, ws, p, t)
    ensures Hits(ps, t) == Hits(ps, ws[p])
  {
    forall k | 0 <= k < |ps|
      ensures Hit(ps[k], t) <==> Hit(ps[k], ws[p])
    {
      PatternNode(ns, a, ws, ps, k);
      var y := Walk(ns, ps[k]);
      if Hit(ps[k], t) {
        assert IsSuffix(ws[y], t);
        SuffixOrder(ps[k], ws[p], t);
      }
      if Hit(ps[k], ws[p]) {
        SuffixTrans(ps[k], ws[p], t);
      }
    }
    HitsSame(ps, t, ws[p]);
  }

  /** Node y spells a suffix of t and has a child for c. */
  ghost predicate Enters(ns: seq<AcNode>, a: int, ws: seq<seq<byte>>, t: seq<byte>, c: byte, y: int)
  {
    0 <= y < a && y < |ws| && y < |ns| && IsSuffix(ws[y], t) && Child(ns[y], c) != Nil
  }

  /** Lines 97-105 of `Match`: from the node for the longest suffix of the
      text read, follow failure links until a node has a child for the next
      byte c, and move to it (to the root if none has). */
  method Advance(ns: seq<AcNode>, a: int, ghost ws: seq<seq<byte>>, ghost ps: seq<seq<byte>>,
                 p: int, c: byte, ghost t: seq<byte>)
    returns (p': int)
    requires Rooted(ns, a, ws, ps) && Linked(ns, a, ws) && Longest(a, ws, p, t)
    ensures Longest(a, ws, p', t + [c])
  {
    assert Shaped(ns, a, ws, p);
    var x := GetNode(ns[p], c);
    var g := p;
    while x == Nil && g != Root
      invariant 0 <= g < a && IsSuffix(ws[g], t)
      invariant forall y :: Enters(ns, a, ws, t, c, y) ==> |ws[y]| <= |ws[g]|
      invariant x == Child(ns[g], c)
      decreases |ws[g]|
    {
      var h := ns[g].fail;
      forall y | Enters(ns, a, ws, t, c, y)
        ensures |ws[y]| < |ws[g]|
      {
        if |ws[y]| == |ws[g]| {
          SuffixOrder(ws[y], ws[g], t);
          WordsDistinct(ns, a, ws, ps, y, g);
        }
      }
      WordsDistinct(ns, a, ws, ps, g, Root);
      assert FailOK(ns, a, ws, g);
      forall y | Enters(ns, a, ws, t, c, y)
        ensures |ws[y]| <= |ws[h]|
      {
        SuffixOrder(ws[y], ws[g], t);
        assert ProperSuffix(ws[y], ws[g]);
      }
      SuffixTrans(ws[h], ws[g], t);
      g := h;
      assert Shaped(ns, a, ws, g);
      x := GetNode(ns[g], c);
    }
    var w := t + [c];
    forall y | 0 <= y < a && IsSuffix(ws[y], w) && ws[y] != []
      ensures Enters(ns, a, ws, t, c, Parent(ns, ws, y)) && |ws[y]| == |ws[Parent(ns, ws, y)]| + 1
    {
      ParentFacts(ns, a, ws, ps, y);
      SuffixUnsnoc(ws[y], t, c);
    }
    p' := x;
    if p' == Nil {
      p' := Root;
      assert ws[Root] == [];
      forall y | 0 <= y < a && IsSuffix(ws[y], w)
        ensures ws[y] == []
      {
        if ws[y] != [] {
          WordsDistinct(ns, a, ws, ps, Parent(ns, ws, y), Root);
        }
      }
    } else {
      ChildShaped(ns, a, ws, g, c);
      SuffixSnoc(ws[g], t, c);
    }
  }

  /** Lines 106-110 of `Match`: add up `end` along the failure links from p
      to the root, which counts the patterns ending at the end of p's word. */
  method ChainSum(ns: seq<AcNode>, a: int, ghost ws: seq<seq<byte>>, ghost ps: seq<seq<byte>>, p: int)
    returns (sum: int)
    requires Rooted(ns, a, ws, ps) && Linked(ns, a, ws) && 0 <= p < a
    ensures sum == Hits(ps, ws[p])
  {
    var x := p;
    sum := 0;
    while x != Root
      invariant 0 <= x < a && sum + Hits(ps, ws[x]) == Hits(ps, ws[p])
      decreases |ws[x]|
    {
      FailChain(ns, a, ws, ps, x);
      sum := sum + ns[x].end;
      x := ns[x].fail;
    }
    assert ws[Root] == [];
    HitsEmpty(ps);
  }

  /** The state of `Match` after reading i bytes of s: p is the node for the
      longest node word ending the text read, and total counts the
      occurrences ending so far. */
  ghost predicate MatchInv(ns: seq<AcNode>, a: int, ws: seq<seq<byte>>, ps: seq<seq<byte>>,
                           s: seq<byte>, i: int, p: int, total: int)
  {
    0 <= i <= |s| && (a > 0 || s == []) &&
    (a > 0 ==> Rooted(ns, a, ws, ps) && Linked(ns, a, ws) && Longest(a, ws, p, s[..i])) &&
    total == Occurrences(ps, s[..i])
  }

  /** Lines 97-110 of `Match`: read byte i of s. */
  method MatchStep(ns: seq<AcNode>, a: int, ghost ws: seq<seq<byte>>, ghost ps: seq<seq<byte>>,
                   s: seq<byte>, i: int, p: int, total: int)
    returns (p': int, total': int)
    requires MatchInv(ns, a, ws, ps, s, i, p, total) && i < |s|
    ensures MatchInv(ns, a, ws, ps, s, i + 1, p', total')
  {
    Snoc(s, i);
    p' := Advance(ns, a, ws, ps, p, s[i], s[..i]);
    var sum := ChainSum(ns, a, ws, ps, p');
    HitsLongest(ns, a, ws, ps, p', s[..i + 1]);
    assert s[..i + 1][..i] == s[..i];
    total' := total + sum;
  }

  /** `Match` on the node slice: the total is the number of occurrences of
      the patterns in s. */
  method MatchNodes(ns: seq<AcNode>, a: int, ghost ws: seq<seq<byte>>, ghost ps: seq<seq<byte>>, s: seq<byte>)
    returns (total: int)
    requires Trie(ns, a, ws, ps) && Linked(ns, a, ws) && (a > 0 || s == [])
    ensures total == Occurrences(ps, s)
  {
    total := 0;
    var p := Root;
    if a > 0 {
      assert ws[Root] == [] && IsSuffix(ws[Root], s[..0]);
    }
    for i := 0 to |s|
      invariant MatchInv(ns, a, ws, ps, s, i, p, total)
    {
      p, total := MatchStep(ns, a, ws, ps, s, i, p, total);
    }
    assert s[..|s|] == s;
  }

  /** The patterns say, she, he, shr and her, as bytes. */
  const SamplePatterns: seq<seq<byte>> := [[115, 97, 121], [115, 104, 101], [104, 101], [115, 104, 114], [104, 101, 114]]
  /** The text "yasherhs", as bytes. */
  const SampleText: seq<byte> := [121, 97, 115, 104, 101, 114, 104, 115]

  function HitCount(u: seq<byte>, t: seq<byte>): nat
  {
    if |u| > 0 && |u| <= |t| && t[|t| - |u|..] == u then 1 else 0
  }

  lemma HitsOfSample(t: seq<byte>)
    ensures Hits(SamplePatterns, t) ==
      HitCount(SamplePatterns[0], t) + HitCount(SamplePatterns[1], t) + HitCount(SamplePatterns[2], t) +
      HitCount(SamplePatterns[3], t) + HitCount(SamplePatterns[4], t)
  {
    var ps, e: seq<seq<byte>> := SamplePatterns, [];
    assert Hits(ps[..1], t) == HitCount(ps[0], t) by { assert ps[..1][..0] == e; }
    assert Hits(ps[..2], t) == HitCount(ps[0], t) + HitCount(ps[1], t) by { assert ps[..2][..1] == ps[..1]; }
    assert Hits(ps[..3], t) == HitCount(ps[0], t) + HitCount(ps[1], t) + HitCount(ps[2], t) by {
      assert ps[..3][..2] == ps[..2];
    }
    assert Hits(ps[..4], t) == HitCount(ps[0], t) + HitCount(ps[1], t) + HitCount(ps[2], t) + HitCount(ps[3], t) by {
      assert ps[..4][..3] == ps[..3];
    }
    assert ps[..4] == ps[..|ps| - 1];
  }

  /** No sample pattern ends in the last byte of t. */
  lemma SampleMisses(t: seq<byte>)
    requires t != [] && t[|t| - 1] != 121 && t[|t| - 1] != 101 && t[|t| - 1] != 114
    ensures Hits(SamplePatterns, t) == 0
  {
    HitsOfSample(t);
    forall k | 0 <= k < 5 ensures HitCount(SamplePatterns[k], t) == 0 {
      var u := SamplePatterns[k];
      if |u| <= |t| {
        assert t[|t| - |u|..][|u| - 1] == t[|t| - 1];
      }
    }
  }

  /** The patterns ending at each position of the sample text. */
  lemma SampleHits(i: nat)
    requires i < 8
    ensures Hits(SamplePatterns, SampleText[..i + 1]) == if i == 4 then 2 else if i == 5 then 1 else 0
  {
    var t := SampleText[..i + 1];
    var ps := SamplePatterns;
    if i == 0 {
      HitsOfSample(t);
      assert t == [121];
    } else if i == 4 {
      HitsOfSample(t);
      assert t == [121, 97, 115, 104, 101];
      assert t[2..] == ps[1] && t[3..] == ps[2];
    } else if i == 5 {
      HitsOfSample(t);
      assert t == [121, 97, 115, 104, 101, 114];
      assert t[3..] == ps[4];
      assert t[3..][0] != ps[3][0];
    } else {
      assert t[|t| - 1] == SampleText[i];
      SampleMisses(t);
    }
  }

  /** The patterns say, she, he, shr and her occur three times in
      "yasherhs": she and he end at its fifth byte, her at its sixth. */
  lemma SampleMatch()
    ensures Occurrences(SamplePatterns, SampleText) == 3
  {
    var s := SampleText;
    for i := 0 to |s|
      invariant Occurrences(SamplePatterns, s[..i]) == if i < 5 then 0 else if i == 5 then 2 else 3
    {
      assert s[..i + 1][..i] == s[..i];
      SampleHits(i);
    }
    assert s[..8] == s;
  }

  class ACTrie {
    var nodes: seq<AcNode>
    var alloc: int
    /** The word node y spells. */
    ghost var words: seq<seq<byte>>
    /** The patterns inserted, in order. */
    ghost var patterns: seq<seq<byte>>

    ghost predicate Valid()
      reads this
    {
      Trie(nodes, alloc, words, patterns)
    }

    /** The zero `ACTrie{}`. */
    constructor ()
      ensures Valid() && patterns == [] && nodes == [] && alloc == 0
    {
      nodes := [];
      alloc := 0;
      words := [];
      patterns := [];
    }

    /** `Insert`: walks s from the root, adding a node for each byte past the
        longest prefix already spelled, growing the node slice when it is
        full, and counts s at its last node. */
    method Insert(s: seq<byte>)
      requires Valid()
      modifies this
      ensures Valid()
      ensures patterns == old(patterns) + [s]
      ensures old(alloc) > 0 ==> alloc == old(alloc) + |s| - Matched(old(nodes), s)
      ensures old(alloc) == 0 ==> alloc == |s| + 1
    {
      ghost var ws;
      nodes, alloc, ws := InsertNodes(nodes, alloc, words, patterns, s);
      words, patterns := ws, patterns + [s];
    }

    /** `Build`: links every node but the root to the node spelling the
        longest proper suffix of its word, visiting nodes breadth first;
        nothing else changes. */
    method Build()
      requires Valid() && alloc > 0
      modifies this
      ensures Valid() && alloc == old(alloc) && words == old(words) && patterns == old(patterns)
      ensures OnlyFails(old(nodes), nodes) && Linked(nodes, alloc, words)
    {
      var ns, q, order := LinkRoot(nodes, alloc, words, patterns);
      var ns' := LinkRest(ns, alloc, words, patterns, q, order);
      OnlyFailsTrans(nodes, ns, ns');
      nodes := ns';
    }

    /** `Match`: the number of occurrences of the patterns in s, once the
        links are built. */
    method Match(s: seq<byte>) returns (total: int)
      requires Valid() && Linked(nodes, alloc, words) && (alloc > 0 || s == [])
      ensures total == Occurrences(patterns, s)
    {
      total := MatchNodes(nodes, alloc, words, patterns, s);
    }
  }
}
