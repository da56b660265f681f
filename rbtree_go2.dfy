/** goofy/rbtree-go2/rbtree.go: the red-black tree of goofy/rbtree with a
    value in every node, keys ordered by a comparison function and results
    wrapped in an `Optional`. The keys are integers here, compared in their
    usual order; the tree, its walks and its fix-ups are those of module
    RbTree. */
module RbTreeGo2 {
  import opened RbTree

  /** `Optional[T]`: a value, or none. */
  datatype Optional<T> = None | Some(v: T)

  /** `IsSome`. */
  predicate IsSome<T>(o: Optional<T>)
  {
    o.Some?
  }

  /** `Unwrap`: the value of a `Some`; on `None` the Go code panics, so
      callers must not ask. */
  function Unwrap<T>(o: Optional<T>): (v: T)
    requires IsSome(o)
    ensures Some(v) == o
  {
    o.v
  }

  // ---------------------------------------------------------------------------
  // The bindings of a tree.

  /** The key-to-value map of a sequence of entries, a later entry winning. */
  function ToMap<V>(s: seq<(int, V)>): map<int, V>
  {
    if s == [] then map[] else ToMap(s[..|s| - 1])[s[|s| - 1].0 := s[|s| - 1].1]
  }

  /** The map of a sequence is the map of its first part updated by that of
      the rest. */
  lemma {:induction false} ToMapAppend<V>(a: seq<(int, V)>, b: seq<(int, V)>)
    ensures ToMap(a + b) == ToMap(a) + ToMap(b)
    decreases |b|
  {
    if b == [] {
      assert a + b == a;
    } else {
      var l := b[|b| - 1];
      assert (a + b)[..|a + b| - 1] == a + b[..|b| - 1];
      ToMapAppend(a, b[..|b| - 1]);
    }
  }

  /** The keys bound are the keys of the entries. */
  lemma {:induction false} ToMapKeys<V>(s: seq<(int, V)>)
    ensures ToMap(s).Keys == KeySet(s)
    decreases |s|
  {
    if s != [] {
      var i := s[..|s| - 1];
      ToMapKeys(i);
      assert s == i + [s[|s| - 1]];
      KeysJoin(i, [s[|s| - 1]]);
    }
  }

  /** An entry whose key no later entry holds is bound in the map, on top
      of the map of the other entries. */
  lemma Splice<V>(b: seq<(int, V)>, e: (int, V), a: seq<(int, V)>)
    requires e.0 !in KeySet(a)
    ensures ToMap(b + [e] + a) == ToMap(b + a)[e.0 := e.1]
  {
    ToMapAppend(b + [e], a);
    ToMapAppend(b, [e]);
    ToMapAppend(b, a);
    ToMapKeys(a);
    assert ToMap([e]) == map[e.0 := e.1] by {
      assert [e][..0] == [];
    }
  }

  /** In ordered entries, an entry's key is bound to its value, and
      dropping the entry unbinds exactly its key. */
  lemma Bound<V>(b: seq<(int, V)>, e: (int, V), a: seq<(int, V)>)
    requires Ordered(b + [e] + a)
    ensures e.0 in ToMap(b + [e] + a) && ToMap(b + [e] + a)[e.0] == e.1
    ensures ToMap(b + a) == ToMap(b + [e] + a) - {e.0}
  {
    var rest := b + a;
    assert e.0 !in KeySet(a) by {
      OrderedParts(b + [e], a);
      assert e in b + [e];
      KeyIn(a, e.0);
    }
    assert e.0 !in ToMap(rest) by {
      DropKey(b, e, a);
      ToMapKeys(rest);
    }
    Splice(b, e, a);
  }

  /** A new value for an entry's key keeps the order of the entries, and
      rebinds the key. */
  lemma Rebind<V>(b: seq<(int, V)>, e: (int, V), v: V, a: seq<(int, V)>)
    requires Ordered(b + [e] + a)
    ensures Ordered(b + [(e.0, v)] + a)
    ensures ToMap(b + [(e.0, v)] + a) == ToMap(b + [e] + a)[e.0 := v]
  {
    var s, t := b + [e] + a, b + [(e.0, v)] + a;
    assert forall i :: 0 <= i < |s| ==> t[i].0 == s[i].0;
    OrderedParts(b + [e], a);
    assert e in b + [e];
    KeyIn(a, e.0);
    Splice(b, e, a);
    Splice(b, (e.0, v), a);
  }

  /** No key is bound exactly when there are no entries. */
  lemma NoKeys<V>(s: seq<(int, V)>)
    ensures ToMap(s) == map[] <==> s == []
  {
    ToMapKeys(s);
    if s != [] {
      assert Keys(s)[0] == s[0].0;
      assert s[0].0 in KeySet(s);
      assert s[0].0 in ToMap(s);
    }
  }

  // ---------------------------------------------------------------------------
  // The shape of a tree.

  /** t without its values: what a value overwrite leaves alone. */
  function Shape<V>(t: Node<V>): Node<()>
  {
    if t.Nil? then Nil else Node(t.red, Shape(t.left), t.key, (), Shape(t.right))
  }

  /** Overwriting a value in the focus keeps the shape of the whole tree. */
  lemma {:induction false} ShapePlug<V>(path: seq<Frame<V>>, t: Node<V>, u: Node<V>)
    requires Shape(t) == Shape(u)
    ensures Shape(Plug(path, t)) == Shape(Plug(path, u))
    decreases |path|
  {
    if path != [] {
      var f := path[0];
      assert Shape(Fill(f, t)) == Shape(Fill(f, u));
      ShapePlug(path[1..], Fill(f, t), Fill(f, u));
    }
  }

  /** The red-black shape does not look at values. */
  lemma {:induction false} RbShape<V>(t: Node<V>, u: Node<V>, h: nat)
    requires Shape(t) == Shape(u) && Rb(t, h)
    ensures Rb(u, h) && Red(u) == Red(t)
    decreases t
  {
    if t.Node? {
      var hc := if t.red then h else h - 1;
      RbShape(t.left, u.left, hc);
      RbShape(t.right, u.right, hc);
    }
  }

  // ---------------------------------------------------------------------------
  // RBTree (goofy/rbtree-go2/rbtree.go:38-327).

  /** A red-black tree of bindings. The ghost height is the black height
      of the root. */
  class RBTree<V> {
    var root: Node<V>
    ghost var height: nat

    /** Keys in search-tree order, red-black shape, black root. */
    ghost predicate Valid()
      reads this
    {
      Ordered(Elems(root)) && Rb(root, height) && !Red(root)
    }

    /** The bindings held. */
    ghost function Contents(): map<int, V>
      reads this
    {
      ToMap(Elems(root))
    }

    /** The zero `RBTree`: no root. */
    constructor ()
      ensures Valid() && Contents() == map[]
    {
      root, height := Nil, 0;
    }

    /** `Search`: the value bound to k, if any. */
    method Search(k: int) returns (o: Optional<V>)
      requires Valid()
      ensures o.Some? <==> k in Contents()
      ensures o.Some? ==> Contents()[k] == o.v
    {
      var n, path := SearchNode(root, k);
      ToMapKeys(Elems(root));
      if n.Nil? {
        o := None;
      } else {
        Around(path, n);
        Bound(Before(path) + Elems(n.left), (n.key, n.val), Elems(n.right) + After(path));
        o := Some(n.val);
      }
    }

    /** `Insert`: a bound k gets the new value in place, the old value is
        returned and the shape is unchanged; an unbound k is added in a new
        red node at the nil link the walk down ends on, the red-black shape
        is restored, and the result is `None`. */
    method Insert(k: int, v: V) returns (o: Optional<V>)
      requires Valid()
      modifies this
      ensures Valid()
      ensures o.Some? <==> k in old(Contents())
      ensures o.Some? ==> o.v == old(Contents())[k] && Shape(root) == Shape(old(root))
      ensures Contents() == old(Contents())[k := v]
    {
      ToMapKeys(Elems(root));
      var n, path := root, [];
      while n.Node?
        invariant Plug(path, n) == root && Ordered(Elems(n)) && Fits(path, k)
        invariant root == old(root) && height == old(height)
        decreases n
      {
        if k < n.key {
          DescendFits(path, n, k);
          PlugPush(Down(n, 0), path, n.left);
          path, n := [Down(n, 0)] + path, n.left;
        } else if k > n.key {
          DescendFits(path, n, k);
          PlugPush(Down(n, 1), path, n.right);
          path, n := [Down(n, 1)] + path, n.right;
        } else {
          Overwrite(path, n, v, height);
          o := Some(n.val);
          root := Plug(path, n.(val := v));
          return;
        }
      }
      assert Plug(path, Nil) == root;
      Inserted(path, k, v, height);
      InsertedKeys(path, k, v);
      NewBinding(path, k, v);
      var m := Node(true, Nil, k, v, Nil);
      root, height := FixInsert(m, path, 0);
      o := None;
    }

    /** `Delete`: a bound k is unlinked, the red-black shape restored and
        its value returned; an unbound k changes nothing and gives `None`. */
    method Delete(k: int) returns (o: Optional<V>)
      requires Valid()
      modifies this
      ensures Valid()
      ensures o.Some? <==> k in old(Contents())
      ensures o.Some? ==> o.v == old(Contents())[k]
      ensures Contents() == old(Contents()) - {k}
      ensures o.None? ==> root == old(root)
    {
      ToMapKeys(Elems(root));
      var n, path := SearchNode(root, k);
      if n.Nil? {
        return None;
      }
      Removed(path, n);
      Around(path, n);
      Bound(Before(path) + Elems(n.left), (n.key, n.val), Elems(n.right) + After(path));
      var x, q, black, hx := Unlink(n, path, height);
      if black {
        root, height := FixDelete(x, q, hx);
      } else {
        Rebuild(q, x, hx);
        root, height := Plug(q, x), Top(q, hx);
      }
      o := Some(n.val);
    }
  }

  /** A new value in the node n found for its key keeps the tree valid and
      its shape, and rebinds the key. */
  lemma Overwrite<V>(path: seq<Frame<V>>, n: Node<V>, v: V, h: nat)
    requires n.Node? && Ordered(Elems(Plug(path, n))) && Rb(Plug(path, n), h) && !Red(Plug(path, n))
    ensures var t := Plug(path, n.(val := v));
      Ordered(Elems(t)) && Rb(t, h) && !Red(t) && Shape(t) == Shape(Plug(path, n)) &&
      ToMap(Elems(t)) == ToMap(Elems(Plug(path, n)))[n.key := v] &&
      n.key in ToMap(Elems(Plug(path, n))) && ToMap(Elems(Plug(path, n)))[n.key] == n.val
  {
    var u := n.(val := v);
    ShapePlug(path, n, u);
    RbShape(Plug(path, n), Plug(path, u), h);
    Around(path, n);
    Around(path, u);
    Rebind(Before(path) + Elems(n.left), (n.key, n.val), v, Elems(n.right) + After(path));
    Bound(Before(path) + Elems(n.left), (n.key, n.val), Elems(n.right) + After(path));
  }

  /** A new entry at a nil link where k fits binds k to v. */
  lemma NewBinding<V>(path: seq<Frame<V>>, k: int, v: V)
    requires Fits(path, k)
    ensures ToMap(Elems(Plug(path, Node(true, Nil, k, v, Nil)))) == ToMap(Elems(Plug(path, Nil)))[k := v]
  {
    var m := Node(true, Nil, k, v, Nil);
    PlugLeaf(path, m);
    KeyIn(After(path), k);
    Splice(Before(path), (k, v), After(path));
  }

  /** The deletion test (goofy/rbtree-go2/rbtree_test.go:22-36): keys
      inserted, each bound to its index, then deleted in the same order,
      leave no root. */
  method InsertThenDelete(nums: seq<int>) returns (t: RBTree<int>)
    ensures t.Valid() && t.root == Nil
  {
    t := new RBTree();
    for i := 0 to |nums|
      invariant t.Valid() && fresh(t)
      invariant t.Contents().Keys == set j | 0 <= j < i :: nums[j]
    {
      var _ := t.Insert(nums[i], i);
    }
    for i := 0 to |nums|
      invariant t.Valid() && fresh(t)
      invariant t.Contents().Keys == (set j | 0 <= j < |nums| :: nums[j]) - (set j | 0 <= j < i :: nums[j])
    {
      var _ := t.Delete(nums[i]);
    }
    assert t.Contents() == map[];
    NoKeys(Elems(t.root));
  }
}
