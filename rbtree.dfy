/** goofy/rbtree/rbtree.go, and the algorithm it shares with
    goofy/rbtree-go2/rbtree.go: a red-black tree whose nodes hold two child
    links, indexed by a direction 0 or 1, and a parent link.

    A subtree is a value here. The parent links of the Go code are a path
    of frames, nearest parent first: each frame records the parent's colour,
    key and value, the side its child on the path hangs from and the
    subtree on the other side. Walking up a parent link drops the first
    frame; relinking a node under its parent rebuilds that frame. Nodes of
    goofy/rbtree carry the empty value `()`. */
module RbTree {

  /** A side: 0 for `link[0]` (smaller keys), 1 for `link[1]`. */
  type Dir = d: nat | d < 2

  datatype Node<V> = Nil | Node(red: bool, left: Node<V>, key: int, val: V, right: Node<V>)

  /** `n.link[d]`. */
  function Link<V>(t: Node<V>, d: Dir): Node<V>
    requires t.Node?
  {
    if d == 0 then t.left else t.right
  }

  /** t with `link[d]` set to c. */
  function SetLink<V>(t: Node<V>, d: Dir, c: Node<V>): (r: Node<V>)
    requires t.Node?
    ensures r.Node? && r.red == t.red && r.key == t.key && r.val == t.val
    ensures Link(r, d) == c && Link(r, 1 - d) == Link(t, 1 - d)
  {
    if d == 0 then t.(left := c) else t.(right := c)
  }

  /** `n != nil && n.red`. */
  predicate Red<V>(t: Node<V>)
  {
    t.Node? && t.red
  }

  // ---------------------------------------------------------------------------
  // Contents: the entries in key order.

  /** The key and value pairs of t from left to right. */
  function Elems<V>(t: Node<V>): seq<(int, V)>
  {
    if t.Nil? then [] else Elems(t.left) + [(t.key, t.val)] + Elems(t.right)
  }

  /** The keys of a sequence of entries. */
  function Keys<V>(s: seq<(int, V)>): (ks: seq<int>)
    ensures |ks| == |s| && forall i :: 0 <= i < |s| ==> ks[i] == s[i].0
  {
    seq(|s|, i requires 0 <= i < |s| => s[i].0)
  }

  /** Keys strictly increase from left to right: the search-tree order. */
  ghost predicate Ordered<V>(s: seq<(int, V)>)
  {
    forall i, j :: 0 <= i < j < |s| ==> s[i].0 < s[j].0
  }

  lemma KeysJoin<V>(a: seq<(int, V)>, b: seq<(int, V)>)
    ensures Keys(a + b) == Keys(a) + Keys(b)
  {
    assert Keys(a + b) == Keys(a) + Keys(b);
  }

  /** The parts of an ordered sequence are ordered, and every key of an
      earlier part is below every key of a later one. */
  lemma OrderedParts<V>(a: seq<(int, V)>, b: seq<(int, V)>)
    requires Ordered(a + b)
    ensures Ordered(a) && Ordered(b)
    ensures forall x, y :: x in a && y in b ==> x.0 < y.0
  {
    assert forall i :: 0 <= i < |a| ==> (a + b)[i] == a[i];
    assert forall j :: 0 <= j < |b| ==> (a + b)[|a| + j] == b[j];
  }

  /** Two ordered sequences, every key of the first below every key of the
      second, make an ordered sequence. */
  lemma OrderedJoin<V>(a: seq<(int, V)>, b: seq<(int, V)>)
    requires Ordered(a) && Ordered(b)
    requires forall x, y :: x in a && y in b ==> x.0 < y.0
    ensures Ordered(a + b)
  {
    forall i, j | 0 <= i < j < |a + b| ensures (a + b)[i].0 < (a + b)[j].0 {
      if j < |a| {
      } else if i >= |a| {
        assert (a + b)[i] == b[i - |a|] && (a + b)[j] == b[j - |a|];
      } else {
        assert (a + b)[i] in a && (a + b)[j] == b[j - |a|];
      }
    }
  }

  // ---------------------------------------------------------------------------
  // Parent links as a path of frames.

  /** A parent: its colour, the side of its child on the path, its key and
      value, and the subtree on the other side. */
  datatype Frame<V> = Frame(red: bool, dir: Dir, key: int, val: V, other: Node<V>)

  /** The parent node of a frame with t hung on the frame's side. */
  function Fill<V>(f: Frame<V>, t: Node<V>): (r: Node<V>)
    ensures r.Node? && r.red == f.red && r.key == f.key && r.val == f.val
    ensures Link(r, f.dir) == t && Link(r, 1 - f.dir) == f.other
  {
    if f.dir == 0 then Node(f.red, t, f.key, f.val, f.other) else Node(f.red, f.other, f.key, f.val, t)
  }

  /** The frame of node t for a walk down to `t.link[d]`. */
  function Down<V>(t: Node<V>, d: Dir): (f: Frame<V>)
    requires t.Node?
    ensures Fill(f, Link(t, d)) == t
  {
    Frame(t.red, d, t.key, t.val, Link(t, 1 - d))
  }

  /** The whole tree, rebuilt from t up through the frames. */
  function Plug<V>(path: seq<Frame<V>>, t: Node<V>): (r: Node<V>)
    ensures path != [] || t.Node? ==> r.Node?
    decreases |path|
  {
    if path == [] then t else Plug(path[1..], Fill(path[0], t))
  }

  /** The entries left of the focus, in order. */
  function Before<V>(path: seq<Frame<V>>): seq<(int, V)>
    decreases |path|
  {
    if path == [] then []
    else Before(path[1..]) + (if path[0].dir == 0 then [] else Elems(path[0].other) + [(path[0].key, path[0].val)])
  }

  /** The entries right of the focus, in order. */
  function After<V>(path: seq<Frame<V>>): seq<(int, V)>
    decreases |path|
  {
    if path == [] then []
    else (if path[0].dir == 0 then [(path[0].key, path[0].val)] + Elems(path[0].other) else []) + After(path[1..])
  }

  lemma FillElems<V>(f: Frame<V>, t: Node<V>)
    ensures Elems(Fill(f, t)) ==
      (if f.dir == 0 then [] else Elems(f.other) + [(f.key, f.val)]) + Elems(t) +
      (if f.dir == 0 then [(f.key, f.val)] + Elems(f.other) else [])
  {
  }

  /** The whole tree lists the entries before the focus, the focus's, then
      the entries after it. */
  lemma {:induction false} PlugElems<V>(path: seq<Frame<V>>, t: Node<V>)
    ensures Elems(Plug(path, t)) == Before(path) + Elems(t) + After(path)
    decreases |path|
  {
    if path != [] {
      var f := path[0];
      PlugElems(path[1..], Fill(f, t));
      FillElems(f, t);
      var l := if f.dir == 0 then [] else Elems(f.other) + [(f.key, f.val)];
      var r := if f.dir == 0 then [(f.key, f.val)] + Elems(f.other) else [];
      Assoc(Before(path[1..]), l, Elems(t), r, After(path[1..]));
    }
  }

  lemma Assoc<V>(a: seq<(int, V)>, l: seq<(int, V)>, t: seq<(int, V)>, r: seq<(int, V)>, z: seq<(int, V)>)
    ensures a + (l + t + r) + z == (a + l) + t + (r + z)
  {
  }

  /** Replacing the focus by a subtree with the same entries keeps the
      entries of the whole tree. */
  lemma SameElems<V>(path: seq<Frame<V>>, t: Node<V>, u: Node<V>)
    requires Elems(t) == Elems(u)
    ensures Elems(Plug(path, t)) == Elems(Plug(path, u))
  {
    PlugElems(path, t);
    PlugElems(path, u);
  }

  lemma PlugStep<V>(path: seq<Frame<V>>, t: Node<V>)
    requires path != []
    ensures Plug(path, t) == Plug(path[1..], Fill(path[0], t))
  {
  }

  lemma PlugPush<V>(f: Frame<V>, path: seq<Frame<V>>, t: Node<V>)
    ensures Plug([f] + path, t) == Plug(path, Fill(f, t))
  {
    assert ([f] + path)[1..] == path;
  }

  // ---------------------------------------------------------------------------
  // Red-black shape.

  /** t is a red-black subtree with h black nodes on every path from it
      down to a nil link (nil links count none): no red node has a red
      child. */
  ghost predicate Rb<V>(t: Node<V>, h: nat)
  {
    if t.Nil? then h == 0
    else
      (t.red || h > 0) &&
      var hc := if t.red then h else h - 1;
      Rb(t.left, hc) && Rb(t.right, hc) && (t.red ==> !Red(t.left) && !Red(t.right))
  }

  /** As Rb, except that a red t may have a red child. */
  ghost predicate AlmostRb<V>(t: Node<V>, h: nat)
  {
    if t.Nil? then h == 0
    else
      (t.red || h > 0) &&
      var hc := if t.red then h else h - 1;
      Rb(t.left, hc) && Rb(t.right, hc)
  }

  /** The black height of a parent over a child of black height h. */
  function Lift(red: bool, h: nat): nat
  {
    if red then h else h + 1
  }

  /** The frames around a focus of black height h and colour red fit it:
      each frame's other subtree is a red-black subtree as high as the
      frame's child on the path, and no red frame has a red child. */
  ghost predicate Ctx<V>(path: seq<Frame<V>>, h: nat, red: bool)
    decreases |path|
  {
    path == [] ||
    (Rb(path[0].other, h) && (path[0].red ==> !red && !Red(path[0].other)) &&
     Ctx(path[1..], Lift(path[0].red, h), path[0].red))
  }

  /** The black height of the whole tree over a focus of black height h. */
  function Top<V>(path: seq<Frame<V>>, h: nat): nat
    decreases |path|
  {
    if path == [] then h else Top(path[1..], Lift(path[0].red, h))
  }

  /** The root of the whole tree, if the path has frames, is black. */
  ghost predicate BlackTop<V>(path: seq<Frame<V>>)
  {
    path != [] ==> !path[|path| - 1].red
  }

  /** A red-black focus in fitting frames makes a red-black tree. */
  lemma {:induction false} Rebuild<V>(path: seq<Frame<V>>, t: Node<V>, h: nat)
    requires Rb(t, h) && Ctx(path, h, Red(t))
    ensures Rb(Plug(path, t), Top(path, h))
    decreases |path|
  {
    if path != [] {
      var f := path[0];
      var u := Fill(f, t);
      assert Rb(u, Lift(f.red, h)) by {
        if f.dir == 0 {
          assert u.left == t && u.right == f.other;
        } else {
          assert u.left == f.other && u.right == t;
        }
      }
      Rebuild(path[1..], u, Lift(f.red, h));
    }
  }

  /** The root colour of the whole tree. */
  lemma {:induction false} PlugRed<V>(path: seq<Frame<V>>, t: Node<V>)
    ensures Red(Plug(path, t)) == if path == [] then Red(t) else path[|path| - 1].red
    decreases |path|
  {
    if path != [] {
      PlugRed(path[1..], Fill(path[0], t));
      if |path| > 1 {
        assert path[1..][|path[1..]| - 1] == path[|path| - 1];
      }
    }
  }

  /** A red-black tree seen from one of its subtrees: the subtree is
      red-black and the frames above fit it. */
  lemma {:induction false} Unplug<V>(path: seq<Frame<V>>, t: Node<V>, top: nat) returns (h: nat)
    requires Rb(Plug(path, t), top)
    ensures Rb(t, h) && Ctx(path, h, Red(t)) && Top(path, h) == top
    decreases |path|
  {
    if path == [] {
      h := top;
    } else {
      var f := path[0];
      var u := Fill(f, t);
      var hu := Unplug(path[1..], u, top);
      h := if f.red then hu else hu - 1;
      if f.dir == 0 {
        assert u.left == t && u.right == f.other;
      } else {
        assert u.left == f.other && u.right == t;
      }
      assert Lift(f.red, h) == hu;
    }
  }
  // ---------------------------------------------------------------------------
  // searchNode (goofy/rbtree/rbtree.go:14-26, goofy/rbtree-go2/rbtree.go:43-57).

  /** k is among the keys of s exactly when some entry of s has key k. */
  lemma KeyIn<V>(s: seq<(int, V)>, k: int)
    ensures k in Keys(s) <==> exists x :: x in s && x.0 == k
  {
    if k in Keys(s) {
      var i :| 0 <= i < |s| && Keys(s)[i] == k;
      assert s[i] in s;
    }
  }

  /** Below a node that does not hold k, k can only be on the side the
      search takes: left when the node's key is above k, right when below. */
  lemma Step<V>(n: Node<V>, k: int)
    requires n.Node? && n.key != k && Ordered(Elems(n))
    ensures var d: Dir := if n.key > k then 0 else 1;
      Ordered(Elems(Link(n, d))) && (k in Keys(Elems(n)) <==> k in Keys(Elems(Link(n, d))))
  {
    var l, e, r := Elems(n.left), [(n.key, n.val)], Elems(n.right);
    OrderedParts(l + e, r);
    OrderedParts(l, e);
    KeysJoin(l + e, r);
    KeysJoin(l, e);
    KeyIn(l, k);
    KeyIn(r, k);
  }

  /** `searchNode`: walk down from the root, left when the node's key is
      above k and right when below, until a node holds k or the link is
      nil. The node reached comes with the frames walked through. */
  method SearchNode<V>(root: Node<V>, k: int) returns (n: Node<V>, path: seq<Frame<V>>)
    requires Ordered(Elems(root))
    ensures Plug(path, n) == root
    ensures n.Node? ==> n.key == k
    ensures n.Nil? <==> k !in Keys(Elems(root))
  {
    n, path := root, [];
    while n.Node?
      invariant Plug(path, n) == root && Ordered(Elems(n))
      invariant k in Keys(Elems(root)) <==> k in Keys(Elems(n))
      decreases n
    {
      if n.key > k {
        Step(n, k);
        PlugPush(Down(n, 0), path, n.left);
        path, n := [Down(n, 0)] + path, n.left;
      } else if n.key < k {
        Step(n, k);
        PlugPush(Down(n, 1), path, n.right);
        path, n := [Down(n, 1)] + path, n.right;
      } else {
        KeyIn(Elems(n), k);
        assert (n.key, n.val) in Elems(n);
        return;
      }
    }
  }

  // ---------------------------------------------------------------------------
  // The walk down of Insert.

  /** Every entry before the focus has a key below k and every entry after
      it a key above k: k belongs at the focus. */
  ghost predicate Fits<V>(path: seq<Frame<V>>, k: int)
  {
    (forall x :: x in Before(path) ==> x.0 < k) && (forall x :: x in After(path) ==> k < x.0)
  }

  /** One step of Insert's walk keeps k fitting the focus. */
  lemma DescendFits<V>(path: seq<Frame<V>>, n: Node<V>, k: int)
    requires n.Node? && n.key != k && Ordered(Elems(n)) && Fits(path, k)
    ensures var d: Dir := if k < n.key then 0 else 1;
      Fits([Down(n, d)] + path, k) && Ordered(Elems(Link(n, d)))
  {
    var d: Dir := if k < n.key then 0 else 1;
    var q := [Down(n, d)] + path;
    assert q[1..] == path;
    var l, e, r := Elems(n.left), [(n.key, n.val)], Elems(n.right);
    OrderedParts(l + e, r);
    OrderedParts(l, e);
    assert (n.key, n.val) in l + e && (n.key, n.val) in e;
    if d == 0 {
      assert Before(q) == Before(path);
      assert After(q) == e + r + After(path);
    } else {
      assert Before(q) == Before(path) + (l + e);
      assert After(q) == After(path);
    }
  }

  /** A new entry where k fits keeps the entries ordered, and adds exactly
      that key. */
  lemma FitsInsert<V>(path: seq<Frame<V>>, k: int, v: V)
    requires Fits(path, k) && Ordered(Before(path) + After(path))
    ensures Ordered(Before(path) + [(k, v)] + After(path))
    ensures k !in Keys(Before(path) + After(path))
  {
    var b, a := Before(path), After(path);
    OrderedParts(b, a);
    OrderedJoin(b, [(k, v)]);
    forall x, y | x in b + [(k, v)] && y in a ensures x.0 < y.0 {
    }
    OrderedJoin(b + [(k, v)], a);
    KeyIn(b + a, k);
  }

  // ---------------------------------------------------------------------------
  // fixInsert (goofy/rbtree/rbtree.go:32-90).

  /** The frames above a red focus of black height h fit it, except that
      the nearest frame may be red too. */
  ghost predicate Loose<V>(path: seq<Frame<V>>, h: nat)
  {
    path == [] ||
    (Rb(path[0].other, h) && (path[0].red ==> !Red(path[0].other)) &&
     Ctx(path[1..], Lift(path[0].red, h), path[0].red))
  }

  /** The rotations of `fixInsert` when the uncle is black: n is rotated
      above p first when it is p's inner child; then the top of p's
      subtree goes above g, turns black, and g turns red. */
  function Restructure<V>(n: Node<V>, p: Frame<V>, g: Frame<V>): (r: Node<V>)
    requires n.Node?
    ensures r.Node? && !r.red
    ensures Elems(r) == Elems(Fill(g, Fill(p, n)))
  {
    var dir: Dir := g.dir;
    var sib: Dir := 1 - dir;
    var top := if p.dir == sib then SetLink(n, dir, Fill(Frame(p.red, sib, p.key, p.val, p.other), Link(n, dir)))
               else Fill(p, n);
    var r := SetLink(top, sib, Fill(Frame(true, dir, g.key, g.val, g.other), Link(top, sib))).(red := false);
    if p.dir == dir then r
    else if dir == 0 then
      assert r == Node(false, Node(p.red, p.other, p.key, p.val, n.left), n.key, n.val, Node(true, n.right, g.key, g.val, g.other));
      BentLeft(n, p, g);
      r
    else
      assert r == Node(false, Node(true, g.other, g.key, g.val, n.left), n.key, n.val, Node(p.red, n.right, p.key, p.val, p.other));
      BentRight(n, p, g);
      r
  }

  /** n, the right child of p, the left child of g, goes above both. */
  lemma BentLeft<V>(n: Node<V>, p: Frame<V>, g: Frame<V>)
    requires n.Node? && g.dir == 0 && p.dir == 1
    ensures Elems(Node(false, Node(p.red, p.other, p.key, p.val, n.left), n.key, n.val, Node(true, n.right, g.key, g.val, g.other)))
            == Elems(Fill(g, Fill(p, n)))
  {
    var b, m, c := Elems(n.left), [(n.key, n.val)], Elems(n.right);
    Assoc5(Elems(p.other), [(p.key, p.val)], b, m, c, [(g.key, g.val)], Elems(g.other));
    assert Elems(Fill(p, n)) == Elems(p.other) + [(p.key, p.val)] + (b + m + c);
  }

  /** n, the left child of p, the right child of g, goes above both. */
  lemma BentRight<V>(n: Node<V>, p: Frame<V>, g: Frame<V>)
    requires n.Node? && g.dir == 1 && p.dir == 0
    ensures Elems(Node(false, Node(true, g.other, g.key, g.val, n.left), n.key, n.val, Node(p.red, n.right, p.key, p.val, p.other)))
            == Elems(Fill(g, Fill(p, n)))
  {
    var b, m, c := Elems(n.left), [(n.key, n.val)], Elems(n.right);
    Assoc5(Elems(g.other), [(g.key, g.val)], b, m, c, [(p.key, p.val)], Elems(p.other));
    assert Elems(Fill(p, n)) == (b + m + c) + [(p.key, p.val)] + Elems(p.other);
  }

  lemma Assoc5<V>(a: seq<(int, V)>, x: seq<(int, V)>, b: seq<(int, V)>, y: seq<(int, V)>, c: seq<(int, V)>, z: seq<(int, V)>, d: seq<(int, V)>)
    ensures (a + x + b) + y + (c + z + d) == a + x + (b + y + c) + z + d
    ensures (a + x + b) + y + (c + z + d) == a + x + ((b + y + c) + z + d)
  {
  }

  /** The rotations keep the entries in order, and with a red n under a red
      p under a black g with a black uncle, give a red-black subtree as high
      as g's, black at the top. */
  lemma RestructureSpec<V>(n: Node<V>, p: Frame<V>, g: Frame<V>, h: nat)
    requires Red(n) && Rb(n, h) && p.red && Rb(p.other, h) && !Red(p.other)
    requires !g.red && Rb(g.other, h) && !Red(g.other)
    ensures var r := Restructure(n, p, g);
      Elems(r) == Elems(Fill(g, Fill(p, n))) && Rb(r, h + 1) && !Red(r)
  {
    var r := Restructure(n, p, g);
    assert Rb(n.left, h) && Rb(n.right, h) && !Red(n.left) && !Red(n.right);
    if g.dir != p.dir {
      assert Rb(r.left, h) && Rb(r.right, h);
    }
  }

  /** The colour flip of `fixInsert` when the uncle is red: p and the uncle
      turn black and g red, which becomes the new focus. */
  function Flip<V>(n: Node<V>, p: Frame<V>, g: Frame<V>): (r: Node<V>)
    requires g.other.Node?
    ensures r.Node? && r.red
    ensures Elems(r) == Elems(Fill(g, Fill(p, n)))
  {
    Fill(Frame(true, g.dir, g.key, g.val, g.other.(red := false)), Fill(Frame(false, p.dir, p.key, p.val, p.other), n))
  }

  lemma FlipSpec<V>(n: Node<V>, p: Frame<V>, g: Frame<V>, h: nat)
    requires Red(n) && Rb(n, h) && p.red && Rb(p.other, h) && !Red(p.other)
    requires Red(g.other) && Rb(g.other, h)
    ensures var r := Flip(n, p, g);
      Elems(r) == Elems(Fill(g, Fill(p, n))) && Rb(r, h + 1)
  {
  }

  /** After a colour flip the grandparent, now red, has frames that fit it
      but for a red nearest frame. */
  lemma FlipLoose<V>(path: seq<Frame<V>>, h: nat)
    requires |path| >= 2 && path[0].red && Loose(path, h)
    ensures !path[1].red && Rb(path[1].other, h) && Loose(path[2..], h + 1)
  {
    assert path[1..][1..] == path[2..];
    assert Ctx(path[1..], h, true);
    assert Ctx(path[2..], h + 1, false);
  }

  /** `fixInsert`: while the focus n and its parent are both red, a red
      uncle is met by a colour flip and the walk goes on from the
      grandparent; a black uncle by one or two rotations, which end it.
      The root is then made black. */
  method FixInsert<V>(n0: Node<V>, path0: seq<Frame<V>>, ghost h0: nat) returns (t: Node<V>, ghost th: nat)
    requires Red(n0) && Rb(n0, h0) && Loose(path0, h0) && BlackTop(path0)
    ensures Elems(t) == Elems(Plug(path0, n0))
    ensures Rb(t, th) && !Red(t)
  {
    var n, path := n0, path0;
    ghost var h := h0;
    while true
      invariant Red(n) && Rb(n, h)
      invariant Loose(path, h)
      invariant BlackTop(path)
      invariant Elems(Plug(path, n)) == Elems(Plug(path0, n0))
      decreases |path|
    {
      if path == [] || !path[0].red {
        break;
      }
      if |path| == 1 {
        break;
      }
      var p, g := path[0], path[1];
      var sib: Dir := 1 - g.dir;
      assert path[1..][1..] == path[2..];
      PlugStep(path, n);
      PlugStep(path[1..], Fill(p, n));
      if Red(g.other) {
        FlipLoose(path, h);
        FlipSpec(n, p, g, h);
        if |path| > 2 {
          assert path[2..][|path[2..]| - 1] == path[|path| - 1];
        }
        SameElems(path[2..], Fill(g, Fill(p, n)), Flip(n, p, g));
        n, path, h := Flip(n, p, g), path[2..], h + 1;
      } else {
        var r := Restructure(n, p, g);
        RestructureSpec(n, p, g, h);
        SameElems(path[2..], Fill(g, Fill(p, n)), r);
        Rebuild(path[2..], r, h + 1);
        PlugRed(path[2..], r);
        t, th := Plug(path[2..], r), Top(path[2..], h + 1);
        return;
      }
    }
    var r := Plug(path, n);
    PlugRed(path, n);
    if path == [] {
      th := h + 1;
    } else {
      Rebuild(path, n, h);
      th := Top(path, h);
    }
    t := r.(red := false);
  }
  // ---------------------------------------------------------------------------
  // fixDelete (goofy/rbtree/rbtree.go:123-211).

  /** Frames that fit a red focus fit a black one. */
  lemma CtxBlack<V>(path: seq<Frame<V>>, h: nat)
    requires Ctx(path, h, true)
    ensures Ctx(path, h, false)
  {
  }

  /** The rotation of `fixDelete` when the sibling w of the focus is red: w
      goes above the parent p and turns black, p turns red, and p's other
      child becomes w's child on the focus's side. */
  function Swing<V>(q: seq<Frame<V>>): (r: seq<Frame<V>>)
    requires q != [] && q[0].other.Node?
    ensures |r| == |q| + 1 && r[0].dir == q[0].dir && r[0].other == Link(q[0].other, q[0].dir)
  {
    var p, w := q[0], q[0].other;
    [Frame(true, p.dir, p.key, p.val, Link(w, p.dir)), Frame(false, p.dir, w.key, w.val, Link(w, 1 - p.dir))] + q[1..]
  }

  /** The rotation keeps the entries, and the frames still fit a focus one
      black node short, now under a red parent and a black sibling. */
  lemma SwingSpec<V>(q: seq<Frame<V>>, x: Node<V>, h: nat)
    requires q != [] && Red(q[0].other) && Ctx(q, h + 1, false) && BlackTop(q)
    ensures Ctx(Swing(q), h + 1, false) && BlackTop(Swing(q))
    ensures Elems(Plug(Swing(q), x)) == Elems(Plug(q, x))
  {
    var w, s := q[0].other, Swing(q);
    assert s[1..][1..] == q[1..];
    assert Rb(w.left, h + 1) && Rb(w.right, h + 1) && !Red(w.left) && !Red(w.right);
    assert Ctx(s[1..], h + 1, true);
    if |q| > 1 {
      assert s[|s| - 1] == q[|q| - 1];
    }
    SwingElems(q, x);
  }

  lemma SwingElems<V>(q: seq<Frame<V>>, x: Node<V>)
    requires q != [] && q[0].other.Node?
    ensures Elems(Plug(Swing(q), x)) == Elems(Plug(q, x))
  {
    var p, w, s := q[0], q[0].other, Swing(q);
    assert s[1..][1..] == q[1..];
    PlugStep(s, x);
    PlugStep(s[1..], Fill(s[0], x));
    PlugStep(q, x);
    var inner, outer := Fill(s[1], Fill(s[0], x)), Fill(p, x);
    assert Elems(inner) == Elems(outer) by {
      var a, b, c := Elems(w.left), Elems(x), Elems(w.right);
      var pe, we := [(p.key, p.val)], [(w.key, w.val)];
      if p.dir == 0 {
        assert Elems(inner) == (b + pe + a) + we + c;
        assert Elems(outer) == b + pe + (a + we + c);
        Assoc3(b, pe, a, we, c);
      } else {
        assert Elems(inner) == a + we + (c + pe + b);
        assert Elems(outer) == (a + we + c) + pe + b;
        Assoc3(a, we, c, pe, b);
      }
    }
    SameElems(q[1..], inner, outer);
  }

  /** The rotations of `fixDelete` when the sibling w is black with a red
      child: if w's far child is black, its near child y goes above w first;
      then w goes above the parent p, takes p's colour, and p and w's far
      child turn black. */
  function Rotate<V>(x: Node<V>, p: Frame<V>): (r: Node<V>)
    requires p.other.Node? && (Red(p.other.left) || Red(p.other.right))
    ensures r.Node? && r.red == p.red
    ensures Elems(r) == Elems(Fill(p, x))
  {
    var dir: Dir := p.dir;
    var sib: Dir := 1 - dir;
    var w0 := p.other;
    var w := if Red(Link(w0, sib)) then w0
             else var y := Link(w0, dir); SetLink(y.(red := false), sib, SetLink(w0, dir, Link(y, sib)).(red := true));
    var lowered := Fill(Frame(false, dir, p.key, p.val, Link(w, dir)), x);
    var r := SetLink(SetLink(w, sib, Link(w, sib).(red := false)), dir, lowered).(red := p.red);
    var e, pe, we := Elems(x), [(p.key, p.val)], [(w0.key, w0.val)];
    if dir == 0 && Red(w0.right) then
      assert r == Node(p.red, Node(false, x, p.key, p.val, w0.left), w0.key, w0.val, w0.right.(red := false));
      Assoc3(e, pe, Elems(w0.left), we, Elems(w0.right));
      r
    else if dir == 0 then
      var y := w0.left;
      assert r == Node(p.red, Node(false, x, p.key, p.val, y.left), y.key, y.val, Node(false, y.right, w0.key, w0.val, w0.right));
      var a, b, c := Elems(y.left), Elems(y.right), Elems(w0.right);
      assert Elems(w0) == (a + [(y.key, y.val)] + b) + we + c;
      Assoc3(a, [(y.key, y.val)], b, we, c);
      Assoc5(e, pe, a, [(y.key, y.val)], b, we, c);
      r
    else if Red(w0.left) then
      assert r == Node(p.red, w0.left.(red := false), w0.key, w0.val, Node(false, w0.right, p.key, p.val, x));
      Assoc3(Elems(w0.left), we, Elems(w0.right), pe, e);
      r
    else
      var y := w0.right;
      assert r == Node(p.red, Node(false, w0.left, w0.key, w0.val, y.left), y.key, y.val, Node(false, y.right, p.key, p.val, x));
      var a, b, c := Elems(w0.left), Elems(y.left), Elems(y.right);
      assert Elems(w0) == a + we + (b + [(y.key, y.val)] + c);
      Assoc5(a, we, b, [(y.key, y.val)], c, pe, e);
      r
  }

  lemma Assoc3<V>(a: seq<(int, V)>, x: seq<(int, V)>, b: seq<(int, V)>, y: seq<(int, V)>, c: seq<(int, V)>)
    ensures (a + x + b) + y + c == a + x + (b + y + c)
  {
  }

  /** The rotations keep the entries, and a black focus one black node
      short next to a black sibling with a red child comes out as a
      red-black subtree as high as the parent was, in the parent's colour,
      with black children. */
  lemma RotateSpec<V>(x: Node<V>, p: Frame<V>, h: nat)
    requires Rb(x, h) && !Red(x) && Rb(p.other, h + 1) && !Red(p.other)
    requires p.other.Node? && (Red(p.other.left) || Red(p.other.right))
    ensures var r := Rotate(x, p);
      Elems(r) == Elems(Fill(p, x)) && Rb(r, Lift(p.red, h + 1)) && r.red == p.red &&
      !Red(r.left) && !Red(r.right)
  {
    var w := p.other;
    assert Rb(w.left, h) && Rb(w.right, h);
    if !Red(Link(w, 1 - p.dir)) {
      var y := Link(w, p.dir);
      assert Rb(y.left, h) && Rb(y.right, h);
    }
  }

  /** A red focus one black node short, made black, completes a red-black
      tree with a black root. */
  lemma BlackenSpec<V>(q: seq<Frame<V>>, x: Node<V>, h: nat)
    requires Red(x) && AlmostRb(x, h) && Ctx(q, h + 1, false) && BlackTop(q)
    ensures var t := Plug(q, x.(red := false));
      Elems(t) == Elems(Plug(q, x)) && Rb(t, Top(q, h + 1)) && !Red(t)
  {
    var b := x.(red := false);
    assert Rb(b, h + 1);
    SameElems(q, x, b);
    Rebuild(q, b, h + 1);
    PlugRed(q, b);
  }

  /** The recolouring of `fixDelete` when the sibling and both its children
      are black: the sibling turns red and the parent becomes the focus. */
  function Climb<V>(x: Node<V>, p: Frame<V>): (r: Node<V>)
    requires p.other.Node?
    ensures r.Node? && r.red == p.red
    ensures Elems(r) == Elems(Fill(p, x))
  {
    Fill(Frame(p.red, p.dir, p.key, p.val, p.other.(red := true)), x)
  }

  /** After the recolouring the parent, as focus, is one black node short
      in turn, or red; the entries are kept. */
  lemma ClimbSpec<V>(q: seq<Frame<V>>, x: Node<V>, h: nat)
    requires q != [] && Rb(x, h) && !Red(x) && Ctx(q, h + 1, false) && BlackTop(q)
    requires q[0].other.Node? && !Red(q[0].other) && !Red(q[0].other.left) && !Red(q[0].other.right)
    ensures var up, h' := Climb(x, q[0]), if q[0].red then h else h + 1;
      AlmostRb(up, h') && (!Red(up) ==> Rb(up, h')) && Ctx(q[1..], h' + 1, false) && BlackTop(q[1..]) &&
      Elems(Plug(q[1..], up)) == Elems(Plug(q, x))
  {
    var p, w := q[0], q[0].other;
    var up := Climb(x, p);
    assert Rb(w.left, h) && Rb(w.right, h);
    assert Elems(up) == Elems(Fill(p, x));
    PlugStep(q, x);
    SameElems(q[1..], Fill(p, x), up);
    assert Ctx(q[1..], Lift(p.red, h + 1), p.red);
    if p.red {
      CtxBlack(q[1..], h + 1);
    }
    if |q| > 1 {
      assert q[1..][|q[1..]| - 1] == q[|q| - 1];
    }
  }

  /** The final rotations of `fixDelete` complete a red-black tree with a
      black root, and keep the entries. */
  lemma RotateStep<V>(q: seq<Frame<V>>, x: Node<V>, h: nat)
    requires q != [] && Rb(x, h) && !Red(x) && Ctx(q, h + 1, false) && BlackTop(q)
    requires q[0].other.Node? && !Red(q[0].other) && (Red(q[0].other.left) || Red(q[0].other.right))
    ensures var t := Plug(q[1..], Rotate(x, q[0]));
      Elems(t) == Elems(Plug(q, x)) && Rb(t, Top(q[1..], Lift(q[0].red, h + 1))) && !Red(t)
  {
    var p := q[0];
    var r := Rotate(x, p);
    RotateSpec(x, p, h);
    PlugStep(q, x);
    SameElems(q[1..], Fill(p, x), r);
    Rebuild(q[1..], r, Lift(p.red, h + 1));
    PlugRed(q[1..], r);
    if |q| > 1 {
      assert q[1..][|q[1..]| - 1] == q[|q| - 1];
    }
  }

  /** `fixDelete`: the focus x is one black node short of its sibling w. A
      red x is made black, which ends it, and so does reaching the root. A
      red w is first rotated above the parent. A black w with two black
      children turns red and the shortage moves up to the parent; a black w
      with a red child is rotated above the parent, which ends it. */
  method FixDelete<V>(x0: Node<V>, q0: seq<Frame<V>>, ghost h0: nat) returns (t: Node<V>, ghost th: nat)
    requires Rb(x0, h0) && Ctx(q0, h0 + 1, false) && BlackTop(q0)
    ensures Elems(t) == Elems(Plug(q0, x0))
    ensures Rb(t, th) && !Red(t)
  {
    var x, q := x0, q0;
    ghost var h := h0;
    while true
      invariant AlmostRb(x, h) && (!Red(x) ==> Rb(x, h))
      invariant Ctx(q, h + 1, false) && BlackTop(q)
      invariant Elems(Plug(q, x)) == Elems(Plug(q0, x0))
      decreases 2 * |q| + (if Red(x) then 0 else 1)
    {
      if Red(x) {
        BlackenSpec(q, x, h);
        t, th := Plug(q, x.(red := false)), Top(q, h + 1);
        return;
      }
      if q == [] {
        t, th := x, h;
        return;
      }
      if Red(q[0].other) {
        SwingSpec(q, x, h);
        q := Swing(q);
      }
      assert Rb(q[0].other, h + 1) && !Red(q[0].other);
      if !Red(q[0].other.left) && !Red(q[0].other.right) {
        ClimbSpec(q, x, h);
        x, q, h := Climb(x, q[0]), q[1..], if q[0].red then h else h + 1;
      } else {
        RotateStep(q, x, h);
        t, th := Plug(q[1..], Rotate(x, q[0])), Top(q[1..], Lift(q[0].red, h + 1));
        return;
      }
    }
  }
  // ---------------------------------------------------------------------------
  // Unlinking the node found by Delete (goofy/rbtree/rbtree.go:219-276).

  /** Plugging into a longer path plugs into its nearer part first. */
  lemma {:induction false} PlugAppend<V>(a: seq<Frame<V>>, b: seq<Frame<V>>, t: Node<V>)
    ensures Plug(a + b, t) == Plug(b, Plug(a, t))
    decreases |a|
  {
    if a != [] {
      assert (a + b)[0] == a[0] && (a + b)[1..] == a[1..] + b;
      PlugAppend(a[1..], b, Fill(a[0], t));
    } else {
      assert a + b == b;
    }
  }

  /** Frames fit along a longer path when they fit along each part, the
      farther part over the top of the nearer one. */
  lemma {:induction false} CtxAppend<V>(a: seq<Frame<V>>, b: seq<Frame<V>>, h: nat, red: bool)
    requires Ctx(a, h, red) && Ctx(b, Top(a, h), if a == [] then red else a[|a| - 1].red)
    ensures Ctx(a + b, h, red)
    decreases |a|
  {
    if a != [] {
      assert (a + b)[0] == a[0] && (a + b)[1..] == a[1..] + b;
      if |a| > 1 {
        assert a[1..][|a[1..]| - 1] == a[|a| - 1];
      }
      CtxAppend(a[1..], b, Lift(a[0].red, h), a[0].red);
    } else {
      assert a + b == b;
    }
  }

  /** A left turn adds nothing left of the focus. */
  lemma BeforeLeft<V>(f: Frame<V>, ds: seq<Frame<V>>)
    requires f.dir == 0
    ensures Before([f] + ds) == Before(ds)
  {
    assert ([f] + ds)[1..] == ds;
  }

  lemma Assoc4<V>(l: seq<(int, V)>, e: seq<(int, V)>, m: seq<(int, V)>, r: seq<(int, V)>)
    ensures l + e + (m + r) == l + (e + m + r)
  {
  }

  /** Along a path of left turns the whole tree lists the focus's entries
      first. */
  lemma LeftPlug<V>(ds: seq<Frame<V>>, t: Node<V>)
    requires Before(ds) == []
    ensures Elems(Plug(ds, t)) == Elems(t) + After(ds)
  {
    PlugElems(ds, t);
  }

  /** The path after the leftmost node s of n's right subtree takes n's
      place and colour, s's right child taking s's place: s's former
      parents (the left turns ds from n's right child down), then s in n's
      place, then n's former parents. */
  function Succeeded<V>(n: Node<V>, path: seq<Frame<V>>, ds: seq<Frame<V>>, s: Node<V>): seq<Frame<V>>
    requires n.Node? && s.Node?
  {
    ds + [Frame(n.red, 1, s.key, s.val, n.left)] + path
  }

  /** Taking out the leftmost node s of n's right subtree and putting it in
      n's place leaves a red-black subtree x = s.right of height 0 in
      frames that fit it, one black node short when s was black. */
  lemma Leftmost<V>(n: Node<V>, path: seq<Frame<V>>, ds: seq<Frame<V>>, s: Node<V>, hn: nat)
    requires n.Node? && n.right.Node? && Rb(n, hn) && Ctx(path, hn, Red(n))
    requires BlackTop(path) && (path == [] ==> !n.red)
    requires s.Node? && s.left.Nil? && Plug(ds, s) == n.right
    ensures var q := Succeeded(n, path, ds, s);
      Rb(s.right, 0) && BlackTop(q) && (s.red ==> s.right.Nil? && Ctx(q, 0, false)) && (!s.red ==> Ctx(q, 1, false))
  {
    var q := Succeeded(n, path, ds, s);
    var hs := SucceededFrames(n, path, ds, s, hn);
    if s.red {
      CtxBlack(q, 0);
    }
  }

  /** The frames after the leftmost node s of n's right subtree takes n's
      place fit s, at the black height s had, and end black. */
  lemma SucceededFrames<V>(n: Node<V>, path: seq<Frame<V>>, ds: seq<Frame<V>>, s: Node<V>, hn: nat) returns (hs: nat)
    requires n.Node? && n.right.Node? && Rb(n, hn) && Ctx(path, hn, Red(n))
    requires BlackTop(path) && (path == [] ==> !n.red)
    requires s.Node? && Plug(ds, s) == n.right
    ensures var q := Succeeded(n, path, ds, s);
      Rb(s, hs) && Ctx(q, hs, Red(s)) && BlackTop(q)
  {
    var f := Frame(n.red, 1, s.key, s.val, n.left);
    var q := Succeeded(n, path, ds, s);
    var hc := if n.red then hn else hn - 1;
    hs := Unplug(ds, s, hc);
    PlugRed(ds, s);
    assert ([f] + path)[1..] == path;
    assert Ctx([f] + path, hc, Red(n.right));
    CtxAppend(ds, [f] + path, hs, Red(s));
    assert ds + ([f] + path) == q;
    assert q[|q| - 1] == if path == [] then f else path[|path| - 1];
  }

  /** ... and drops exactly n's entry. */
  lemma LeftmostElems<V>(n: Node<V>, path: seq<Frame<V>>, ds: seq<Frame<V>>, s: Node<V>)
    requires n.Node? && s.Node? && s.left.Nil? && Plug(ds, s) == n.right
    requires Before(ds) == []
    ensures Elems(Plug(Succeeded(n, path, ds, s), s.right)) == Before(path) + (Elems(n.left) + Elems(n.right)) + After(path)
  {
    var f := Frame(n.red, 1, s.key, s.val, n.left);
    var x := s.right;
    var m := Fill(f, Plug(ds, x));
    SuccessorEntries(n, ds, s);
    assert Plug(Succeeded(n, path, ds, s), x) == Plug(path, m) by {
      assert Succeeded(n, path, ds, s) == ds + ([f] + path);
      PlugAppend(ds, [f] + path, x);
      PlugPush(f, path, Plug(ds, x));
    }
    PlugElems(path, m);
  }

  /** s in n's place, over s's former parents with s's right child in
      s's place, holds the entries of n's children. */
  lemma SuccessorEntries<V>(n: Node<V>, ds: seq<Frame<V>>, s: Node<V>)
    requires n.Node? && s.Node? && s.left.Nil? && Plug(ds, s) == n.right
    requires Before(ds) == []
    ensures Elems(Fill(Frame(n.red, 1, s.key, s.val, n.left), Plug(ds, s.right))) == Elems(n.left) + Elems(n.right)
  {
    var f := Frame(n.red, 1, s.key, s.val, n.left);
    var x := s.right;
    var m := Fill(f, Plug(ds, x));
    var e, sr, a := [(s.key, s.val)], Elems(x), After(ds);
    LeftPlug(ds, x);
    LeftPlug(ds, s);
    assert Elems(s) == [] + e + sr;
    assert Elems(n.right) == e + sr + a;
    FillElems(f, Plug(ds, x));
    assert Elems(m) == Elems(n.left) + e + (sr + a);
    Assoc4(Elems(n.left), e, sr, a);
  }

  /** `Delete` once the search has found n: n leaves the tree. Without a
      right child n is replaced by its left child; otherwise the leftmost
      node s of its right subtree takes n's place and colour, and s's right
      child takes s's place. The subtree x that moved up comes with its
      frames and whether the node that left the tree's shape was black, in
      which case x is one black node short. */
  method Unlink<V>(n: Node<V>, path: seq<Frame<V>>, ghost top: nat) returns (x: Node<V>, q: seq<Frame<V>>, black: bool, ghost h: nat)
    requires n.Node? && Rb(Plug(path, n), top) && !Red(Plug(path, n))
    ensures Elems(Plug(q, x)) == Before(path) + (Elems(n.left) + Elems(n.right)) + After(path)
    ensures Rb(x, h) && BlackTop(q)
    ensures black ==> Ctx(q, h + 1, false)
    ensures !black ==> Ctx(q, h, Red(x)) && !Red(Plug(q, x))
  {
    ghost var hn := Unplug(path, n, top);
    PlugRed(path, n);
    if n.right.Nil? {
      x, q, black, h := n.left, path, !n.red, 0;
      if n.red {
        assert x.Nil?;
        CtxBlack(path, 0);
        PlugRed(path, x);
      }
      PlugElems(path, x);
    } else {
      var r := n.right;
      if r.left.Nil? {
        Leftmost(n, path, [], r, hn);
        LeftmostElems(n, path, [], r);
        x, q, black, h := r.right, Succeeded(n, path, [], r), !r.red, 0;
      } else {
        var s, ds := r.left, [Down(r, 0)];
        BeforeLeft(Down(r, 0), []);
        while s.left.Node?
          invariant s.Node? && Plug(ds, s) == r
          invariant Before(ds) == []
          decreases s
        {
          BeforeLeft(Down(s, 0), ds);
          PlugPush(Down(s, 0), ds, s.left);
          ds, s := [Down(s, 0)] + ds, s.left;
        }
        Leftmost(n, path, ds, s, hn);
        LeftmostElems(n, path, ds, s);
        x, q, black, h := s.right, Succeeded(n, path, ds, s), !s.red, 0;
      }
      if !black {
        PlugRed(q, x);
      }
    }
  }
  // ---------------------------------------------------------------------------
  // Keys added and removed.

  /** The keys of a sequence of entries, as a set. */
  function KeySet<V>(s: seq<(int, V)>): set<int>
  {
    set k | k in Keys(s)
  }

  /** A new entry where k fits adds k to the keys. */
  lemma AddKey<V>(b: seq<(int, V)>, e: (int, V), a: seq<(int, V)>)
    ensures KeySet(b + [e] + a) == KeySet(b + a) + {e.0}
  {
    KeysJoin(b + [e], a);
    KeysJoin(b, [e]);
    KeysJoin(b, a);
    assert Keys([e]) == [e.0];
    forall k ensures k in KeySet(b + [e] + a) <==> k in KeySet(b + a) + {e.0} {
      assert k in Keys(b + [e] + a) <==> k in Keys(b) || k == e.0 || k in Keys(a);
    }
  }

  /** Dropping an entry from ordered entries keeps them ordered and drops
      exactly its key. */
  lemma DropKey<V>(b: seq<(int, V)>, e: (int, V), a: seq<(int, V)>)
    requires Ordered(b + [e] + a)
    ensures Ordered(b + a) && KeySet(b + a) == KeySet(b + [e] + a) - {e.0}
  {
    OrderedParts(b + [e], a);
    OrderedParts(b, [e]);
    assert e in b + [e] && e in [e];
    OrderedJoin(b, a);
    AddKey(b, e, a);
    KeyIn(b, e.0);
    KeyIn(a, e.0);
    KeysJoin(b, a);
  }

  /** The entries of a tree around a node of it, the node's own entry
      apart. */
  lemma Around<V>(path: seq<Frame<V>>, n: Node<V>)
    requires n.Node?
    ensures Elems(Plug(path, n)) == (Before(path) + Elems(n.left)) + [(n.key, n.val)] + (Elems(n.right) + After(path))
    ensures Before(path) + (Elems(n.left) + Elems(n.right)) + After(path) == (Before(path) + Elems(n.left)) + (Elems(n.right) + After(path))
  {
    PlugElems(path, n);
    var b, l, r, a := Before(path), Elems(n.left), Elems(n.right), After(path);
    Assoc(b, l, [(n.key, n.val)], r, a);
    Assoc2(b, l, r, a);
  }

  lemma Assoc2<V>(b: seq<(int, V)>, l: seq<(int, V)>, r: seq<(int, V)>, a: seq<(int, V)>)
    ensures b + (l + r) + a == (b + l) + (r + a)
  {
  }

  // ---------------------------------------------------------------------------
  // Tree (goofy/rbtree/rbtree.go).

  /** A red-black tree of keys. The ghost height is the black height of
      the root. */
  class Tree {
    var root: Node<()>
    ghost var height: nat

    /** Keys in search-tree order, red-black shape, black root. */
    ghost predicate Valid()
      reads this
    {
      Ordered(Elems(root)) && Rb(root, height) && !Red(root)
    }

    /** The keys held. */
    ghost function Contents(): set<int>
      reads this
    {
      KeySet(Elems(root))
    }

    /** The zero `Tree`: no root. */
    constructor ()
      ensures Valid() && Contents() == {}
    {
      root, height := Nil, 0;
    }

    /** `Search`: whether k is held. */
    method Search(k: int) returns (b: bool)
      requires Valid()
      ensures b <==> k in Contents()
    {
      var n, _ := SearchNode(root, k);
      b := n.Node?;
    }

    /** `Insert`: an absent k is added in a new red node at the nil link the
        walk down ends on, and the red-black shape is then restored; a
        present k changes nothing. The result says whether k was present. */
    method Insert(k: int) returns (present: bool)
      requires Valid()
      modifies this
      ensures Valid()
      ensures present <==> k in old(Contents())
      ensures Contents() == old(Contents()) + {k}
      ensures present ==> root == old(root)
    {
      var n, path := root, [];
      while n.Node?
        invariant Plug(path, n) == root && Ordered(Elems(n)) && Fits(path, k)
        invariant root == old(root) && height == old(height)
        decreases n
      {
        if k < n.key {
          DescendFits(path, n, k);
          PlugPush(Down(n, 0), path, n.left);
          path, n := [Down(n, 0)] + path, n.left;
        } else if k > n.key {
          DescendFits(path, n, k);
          PlugPush(Down(n, 1), path, n.right);
          path, n := [Down(n, 1)] + path, n.right;
        } else {
          Around(path, n);
          assert (n.key, n.val) in Elems(root);
          KeyIn(Elems(root), k);
          return true;
        }
      }
      assert Plug(path, Nil) == root;
      Inserted(path, k, (), height);
      InsertedKeys(path, k, ());
      var m := Node(true, Nil, k, (), Nil);
      root, height := FixInsert(m, path, 0);
      present := false;
    }

    /** `Delete`: a present k is unlinked and the red-black shape restored;
        an absent k changes nothing. The result says whether k was
        present. */
    method Delete(k: int) returns (found: bool)
      requires Valid()
      modifies this
      ensures Valid()
      ensures found <==> k in old(Contents())
      ensures Contents() == old(Contents()) - {k}
      ensures !found ==> root == old(root)
    {
      var n, path := SearchNode(root, k);
      if n.Nil? {
        return false;
      }
      Removed(path, n);
      var x, q, black, hx := Unlink(n, path, height);
      if black {
        root, height := FixDelete(x, q, hx);
      } else {
        Rebuild(q, x, hx);
        root, height := Plug(q, x), Top(q, hx);
      }
      found := true;
    }
  }

  /** A red node at a nil link of a red-black tree makes `fixInsert`'s
      input. */
  lemma Inserted<V>(path: seq<Frame<V>>, k: int, v: V, top: nat)
    requires Rb(Plug(path, Nil), top) && !Red(Plug(path, Nil))
    ensures Rb(Node(true, Nil, k, v, Nil), 0) && Loose(path, 0) && BlackTop(path)
  {
    var h := Unplug(path, Nil, top);
    assert h == 0 && Ctx(path, 0, false);
    PlugRed(path, Nil);
  }

  /** A new entry at a nil link where k fits keeps the entries in order and
      adds exactly k, which is new. */
  lemma {:induction false} InsertedKeys<V>(path: seq<Frame<V>>, k: int, v: V)
    requires Ordered(Elems(Plug(path, Nil))) && Fits(path, k)
    ensures var m := Node(true, Nil, k, v, Nil);
      Ordered(Elems(Plug(path, m))) &&
      KeySet(Elems(Plug(path, m))) == KeySet(Elems(Plug(path, Nil))) + {k} &&
      k !in Keys(Elems(Plug(path, Nil)))
  {
    var m := Node(true, Nil, k, v, Nil);
    PlugLeaf(path, m);
    Spliced(path, k, v, Elems(Plug(path, Nil)), Elems(Plug(path, m)));
  }

  /** The entries around a nil focus, and around a single entry there. */
  lemma PlugLeaf<V>(path: seq<Frame<V>>, m: Node<V>)
    requires m.Node? && m.left.Nil? && m.right.Nil?
    ensures Elems(Plug(path, Nil)) == Before(path) + After(path)
    ensures Elems(Plug(path, m)) == Before(path) + [(m.key, m.val)] + After(path)
  {
    PlugElems(path, Nil);
    PlugElems(path, m);
    assert Elems(m) == [(m.key, m.val)];
    assert Before(path) + Elems(Nil) + After(path) == Before(path) + After(path);
  }

  /** The entries was around the focus, with (k, v) put at the focus where
      k fits, give now: in order, with exactly k added. */
  lemma Spliced<V>(path: seq<Frame<V>>, k: int, v: V, was: seq<(int, V)>, now: seq<(int, V)>)
    requires Fits(path, k) && Ordered(was)
    requires was == Before(path) + After(path) && now == Before(path) + [(k, v)] + After(path)
    ensures Ordered(now) && KeySet(now) == KeySet(was) + {k} && k !in Keys(was)
  {
    FitsInsert(path, k, v);
    AddKey(Before(path), (k, v), After(path));
  }

  /** Unlinking the node n found by a search for its key drops exactly that
      key, and the entries stay in order. */
  lemma Removed<V>(path: seq<Frame<V>>, n: Node<V>)
    requires n.Node? && Ordered(Elems(Plug(path, n)))
    ensures var rest := Before(path) + (Elems(n.left) + Elems(n.right)) + After(path);
      Ordered(rest) && KeySet(rest) == KeySet(Elems(Plug(path, n))) - {n.key}
  {
    Around(path, n);
    DropKey(Before(path) + Elems(n.left), (n.key, n.val), Elems(n.right) + After(path));
  }
}
