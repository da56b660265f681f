/** goofy/treap/treap.go: a treap of int keys with int priorities, a binary
    search tree on the keys and a min-heap on the priorities. The Go code
    rewires `left`/`right` pointers of nodes it owns uniquely and returns
    the new subtree root; here a subtree is a value and each operation
    returns the new one. Keys and priorities are only compared, so they
    are unbounded integers. */
module Treap {
  import Base

  datatype Tree = Nil | Node(left: Tree, key: int, prior: int, right: Tree)

  function Size(t: Tree): nat
  {
    if t.Nil? then 0 else Size(t.left) + 1 + Size(t.right)
  }

  /** How many nodes of t hold key x. */
  function Count(t: Tree, x: int): nat
  {
    if t.Nil? then 0 else Count(t.left, x) + (if t.key == x then 1 else 0) + Count(t.right, x)
  }

  /** The keys of t from left to right. */
  function InOrder(t: Tree): seq<int>
  {
    if t.Nil? then [] else InOrder(t.left) + [t.key] + InOrder(t.right)
  }

  /** The key and priority pairs of t, with multiplicity. */
  function Elems(t: Tree): multiset<(int, int)>
  {
    if t.Nil? then multiset{} else Elems(t.left) + multiset{(t.key, t.prior)} + Elems(t.right)
  }

  /** Every key of t is at most b. */
  predicate KeysAtMost(t: Tree, b: int)
  {
    t.Nil? || (t.key <= b && KeysAtMost(t.left, b) && KeysAtMost(t.right, b))
  }

  /** Every key of t is at least b. */
  predicate KeysAtLeast(t: Tree, b: int)
  {
    t.Nil? || (b <= t.key && KeysAtLeast(t.left, b) && KeysAtLeast(t.right, b))
  }

  /** Every priority of t is at least b. */
  predicate Above(t: Tree, b: int)
  {
    t.Nil? || (b <= t.prior && Above(t.left, b) && Above(t.right, b))
  }

  /** Search-tree order: every key on the left is at most the node's key and
      every key on the right at least it. Insert sends equal keys right, but
      a rotation can then lift an equal key above another, so equal keys may
      sit on either side. */
  predicate Ordered(t: Tree)
  {
    t.Nil? ||
    (Ordered(t.left) && Ordered(t.right) && KeysAtMost(t.left, t.key) && KeysAtLeast(t.right, t.key))
  }

  /** Min-heap order on the priorities: no priority below a node is smaller
      than the node's. */
  predicate Heap(t: Tree)
  {
    t.Nil? || (Heap(t.left) && Heap(t.right) && Above(t.left, t.prior) && Above(t.right, t.prior))
  }

  /** `zig`: rotates the right child up. */
  function Zig(t: Tree): (r: Tree)
    requires t.Node? && t.right.Node?
    ensures r.Node? && r.left.Node? && Size(r.left) < Size(t)
  {
    Node(Node(t.left, t.key, t.prior, t.right.left), t.right.key, t.right.prior, t.right.right)
  }

  /** `zag`: rotates the left child up. */
  function Zag(t: Tree): (r: Tree)
    requires t.Node? && t.left.Node?
    ensures r.Node? && r.right.Node? && Size(r.right) < Size(t)
  {
    Node(t.left.left, t.left.key, t.left.prior, Node(t.left.right, t.key, t.prior, t.right))
  }

  /** A rotation keeps the in-order key sequence. */
  lemma ZigInOrder(t: Tree)
    requires t.Node? && t.right.Node?
    ensures InOrder(Zig(t)) == InOrder(t)
  {
    var r := t.right;
    assert InOrder(Zig(t)) == (InOrder(t.left) + [t.key] + InOrder(r.left)) + [r.key] + InOrder(r.right);
  }

  lemma ZagInOrder(t: Tree)
    requires t.Node? && t.left.Node?
    ensures InOrder(Zag(t)) == InOrder(t)
  {
    var l := t.left;
    var a, b, c := InOrder(l.left), InOrder(l.right), InOrder(t.right);
    assert InOrder(Zag(t).right) == b + [t.key] + c;
    calc {
      InOrder(Zag(t));
      a + [l.key] + (b + [t.key] + c);
      { Base.ConcatAssoc(a + [l.key], b, [t.key], c); }
      a + [l.key] + b + [t.key] + c;
      InOrder(t);
    }
  }

  /** A rotation keeps the nodes, as key and priority pairs. */
  lemma ZigElems(t: Tree)
    requires t.Node? && t.right.Node?
    ensures Elems(Zig(t)) == Elems(t)
  {
  }

  lemma ZagElems(t: Tree)
    requires t.Node? && t.left.Node?
    ensures Elems(Zag(t)) == Elems(t)
  {
  }

  /** A rotation keeps the search-tree order. */
  lemma ZigOrdered(t: Tree)
    requires t.Node? && t.right.Node? && Ordered(t)
    ensures Ordered(Zig(t))
  {
    var r := t.right;
    AtMostHigher(t.left, t.key, r.key);
  }

  lemma ZagOrdered(t: Tree)
    requires t.Node? && t.left.Node? && Ordered(t)
    ensures Ordered(Zag(t))
  {
    var l := t.left;
    AtLeastLower(t.right, t.key, l.key);
  }

  lemma {:induction false} AtMostHigher(t: Tree, b: int, c: int)
    requires KeysAtMost(t, b) && b <= c
    ensures KeysAtMost(t, c)
  {
    if t.Node? {
      AtMostHigher(t.left, b, c);
      AtMostHigher(t.right, b, c);
    }
  }

  lemma {:induction false} AtLeastLower(t: Tree, b: int, c: int)
    requires KeysAtLeast(t, b) && c <= b
    ensures KeysAtLeast(t, c)
  {
    if t.Node? {
      AtLeastLower(t.left, b, c);
      AtLeastLower(t.right, b, c);
    }
  }

  lemma {:induction false} AboveLower(t: Tree, b: int, c: int)
    requires Above(t, b) && c <= b
    ensures Above(t, c)
  {
    if t.Node? {
      AboveLower(t.left, b, c);
      AboveLower(t.right, b, c);
    }
  }

  /** `Insert(p, key, prior)`: adds one node, keys below the node's going
      left and the others right, and rotates the new child up while its
      priority is below its parent's. Exactly one occurrence of the key is
      added. */
  function Insert(t: Tree, key: int, prior: int): (r: Tree)
    ensures r.Node?
    ensures forall x :: Count(r, x) == Count(t, x) + if x == key then 1 else 0
  {
    if t.Nil? then Node(Nil, key, prior, Nil)
    else if key < t.key then
      var p := Node(Insert(t.left, key, prior), t.key, t.prior, t.right);
      if p.left.prior < p.prior then Zag(p) else p
    else
      var p := Node(t.left, t.key, t.prior, Insert(t.right, key, prior));
      if p.right.prior < p.prior then Zig(p) else p
  }

  /** Replacing one child of a node by a subtree with `m` more nodes adds
      `m` to the node's tree. */
  lemma ReplaceElems(t: Tree, l: Tree, r: Tree, m: multiset<(int, int)>)
    requires t.Node?
    requires (Elems(l) == Elems(t.left) + m && r == t.right) || (l == t.left && Elems(r) == Elems(t.right) + m)
    ensures Elems(Node(l, t.key, t.prior, r)) == Elems(t) + m
  {
  }

  /** Insert adds exactly the new node. */
  lemma {:induction false} InsertElems(t: Tree, key: int, prior: int)
    ensures Elems(Insert(t, key, prior)) == Elems(t) + multiset{(key, prior)}
  {
    if t.Node? {
      var m := multiset{(key, prior)};
      if key < t.key {
        var l := Insert(t.left, key, prior);
        InsertElems(t.left, key, prior);
        ReplaceElems(t, l, t.right, m);
        var p := Node(l, t.key, t.prior, t.right);
        if p.left.prior < p.prior {
          ZagElems(p);
          assert Insert(t, key, prior) == Zag(p);
        } else {
          assert Insert(t, key, prior) == p;
        }
      } else {
        var r := Insert(t.right, key, prior);
        InsertElems(t.right, key, prior);
        ReplaceElems(t, t.left, r, m);
        var p := Node(t.left, t.key, t.prior, r);
        if p.right.prior < p.prior {
          ZigElems(p);
          assert Insert(t, key, prior) == Zig(p);
        } else {
          assert Insert(t, key, prior) == p;
        }
      }
    }
  }

  /** Bounds on the keys and priorities survive an insertion within them. */
  lemma {:induction false} InsertBounds(t: Tree, key: int, prior: int, lo: int, hi: int, b: int)
    ensures KeysAtMost(t, hi) && key <= hi ==> KeysAtMost(Insert(t, key, prior), hi)
    ensures KeysAtLeast(t, lo) && lo <= key ==> KeysAtLeast(Insert(t, key, prior), lo)
    ensures Above(t, b) && b <= prior ==> Above(Insert(t, key, prior), b)
  {
    if t.Node? {
      if key < t.key {
        InsertBounds(t.left, key, prior, lo, hi, b);
      } else {
        InsertBounds(t.right, key, prior, lo, hi, b);
      }
    }
  }

  /** Insert keeps the search-tree order. */
  lemma {:induction false} InsertOrdered(t: Tree, key: int, prior: int)
    requires Ordered(t)
    ensures Ordered(Insert(t, key, prior))
  {
    if t.Node? {
      if key < t.key {
        InsertOrdered(t.left, key, prior);
        InsertBounds(t.left, key, prior, key, t.key, prior);
        var p := Node(Insert(t.left, key, prior), t.key, t.prior, t.right);
        if p.left.prior < p.prior {
          ZagOrdered(p);
        }
      } else {
        InsertOrdered(t.right, key, prior);
        InsertBounds(t.right, key, prior, t.key, key, prior);
        var p := Node(t.left, t.key, t.prior, Insert(t.right, key, prior));
        if p.right.prior < p.prior {
          ZigOrdered(p);
        }
      }
    }
  }

  /** Inserting a priority below every priority of a heap puts the new node
      at the root, over subtrees that keep the old bound. */
  lemma {:induction false} InsertLowest(t: Tree, key: int, prior: int, b: int)
    requires Heap(t) && Above(t, b) && prior < b
    ensures var r := Insert(t, key, prior); r.prior == prior && Above(r.left, b) && Above(r.right, b)
  {
    if t.Node? {
      if key < t.key {
        InsertLowest(t.left, key, prior, b);
      } else {
        InsertLowest(t.right, key, prior, b);
      }
    }
  }

  /** Insert keeps the heap order on the priorities. */
  lemma {:induction false} InsertHeap(t: Tree, key: int, prior: int)
    requires Heap(t)
    ensures Heap(Insert(t, key, prior))
  {
    if t.Node? {
      if key < t.key {
        InsertHeap(t.left, key, prior);
        var c := Insert(t.left, key, prior);
        if prior < t.prior {
          // The new node comes up to c's root and is rotated above t.
          InsertLowest(t.left, key, prior, t.prior);
          AboveLower(t.right, t.prior, prior);
          AboveLower(c.right, t.prior, prior);
        } else {
          InsertBounds(t.left, key, prior, 0, 0, t.prior);
        }
      } else {
        InsertHeap(t.right, key, prior);
        var c := Insert(t.right, key, prior);
        if prior < t.prior {
          InsertLowest(t.right, key, prior, t.prior);
          AboveLower(t.left, t.prior, prior);
          AboveLower(c.left, t.prior, prior);
        } else {
          InsertBounds(t.right, key, prior, 0, 0, t.prior);
        }
      }
    }
  }

  /** `Remove(p, key)`: finds a node with the key and rotates it down,
      lifting the child of smaller priority (the right one on a tie), until
      it has at most one child, which then takes its place. Other keys are
      kept and at most one occurrence of the key goes; RemoveOne shows that
      in an ordered treap one does go when there is one. */
  function Remove(t: Tree, key: int): (r: Tree)
    ensures forall x :: x != key ==> Count(r, x) == Count(t, x)
    ensures Count(r, key) == Count(t, key) || Count(r, key) + 1 == Count(t, key)
    decreases Size(t)
  {
    if t.Nil? then Nil
    else if key < t.key then Node(Remove(t.left, key), t.key, t.prior, t.right)
    else if key > t.key then Node(t.left, t.key, t.prior, Remove(t.right, key))
    else if t.left.Nil? then t.right
    else if t.right.Nil? then t.left
    else if t.left.prior < t.right.prior then
      var p := Zag(t);
      RotateCount(t, p);
      Node(p.left, p.key, p.prior, Remove(p.right, key))
    else
      var p := Zig(t);
      RotateCount(t, p);
      Node(Remove(p.left, key), p.key, p.prior, p.right)
  }

  /** A rotation keeps the number of occurrences of every key. */
  lemma RotateCount(t: Tree, p: Tree)
    requires t.Node? && ((t.left.Node? && p == Zag(t)) || (t.right.Node? && p == Zig(t)))
    ensures forall x :: Count(p, x) == Count(t, x)
  {
  }

  /** In an ordered treap Remove deletes exactly one occurrence of a
      present key, and an absent key leaves the treap as it was. */
  lemma {:induction false} RemoveOne(t: Tree, key: int)
    requires Ordered(t)
    ensures Count(t, key) > 0 ==> Count(Remove(t, key), key) + 1 == Count(t, key)
    ensures Count(t, key) == 0 ==> Remove(t, key) == t
    decreases Size(t)
  {
    if t.Nil? {
    } else if key < t.key {
      RemoveOne(t.left, key);
      AtLeastMisses(t.right, t.key, key);
    } else if key > t.key {
      RemoveOne(t.right, key);
      AtMostMisses(t.left, t.key, key);
    } else if t.left.Nil? || t.right.Nil? {
    } else if t.left.prior < t.right.prior {
      ZagOrdered(t);
      RemoveOne(Zag(t).right, key);
    } else {
      ZigOrdered(t);
      RemoveOne(Zig(t).left, key);
    }
  }

  /** Bounds on the keys and priorities survive a removal. */
  lemma {:induction false} RemoveBounds(t: Tree, key: int, lo: int, hi: int, b: int)
    ensures KeysAtMost(t, hi) ==> KeysAtMost(Remove(t, key), hi)
    ensures KeysAtLeast(t, lo) ==> KeysAtLeast(Remove(t, key), lo)
    ensures Above(t, b) ==> Above(Remove(t, key), b)
    decreases Size(t)
  {
    if t.Nil? {
    } else if key < t.key {
      RemoveBounds(t.left, key, lo, hi, b);
    } else if key > t.key {
      RemoveBounds(t.right, key, lo, hi, b);
    } else if t.left.Nil? || t.right.Nil? {
    } else if t.left.prior < t.right.prior {
      var p := Zag(t);
      var l := t.left;
      assert KeysAtMost(t, hi) ==> KeysAtMost(l, hi) && KeysAtMost(l.right, hi);
      assert KeysAtLeast(t, lo) ==> KeysAtLeast(l, lo) && KeysAtLeast(l.right, lo);
      assert Above(t, b) ==> Above(l, b) && Above(l.right, b);
      RemoveBounds(p.right, key, lo, hi, b);
    } else {
      var p := Zig(t);
      var r := t.right;
      assert KeysAtMost(t, hi) ==> KeysAtMost(r, hi) && KeysAtMost(r.left, hi);
      assert KeysAtLeast(t, lo) ==> KeysAtLeast(r, lo) && KeysAtLeast(r.left, lo);
      assert Above(t, b) ==> Above(r, b) && Above(r.left, b);
      RemoveBounds(p.left, key, lo, hi, b);
    }
  }

  /** Removing at a node whose children are above b leaves a tree above b. */
  lemma {:induction false} RemoveRootAbove(t: Tree, key: int, b: int)
    requires t.Node? && t.key == key && Above(t.left, b) && Above(t.right, b)
    ensures Above(Remove(t, key), b)
    decreases Size(t)
  {
    if t.left.Nil? || t.right.Nil? {
    } else if t.left.prior < t.right.prior {
      RemoveRootAbove(Zag(t).right, key, b);
    } else {
      RemoveRootAbove(Zig(t).left, key, b);
    }
  }

  /** Remove keeps the search-tree order. */
  lemma {:induction false} RemoveOrdered(t: Tree, key: int)
    requires Ordered(t)
    ensures Ordered(Remove(t, key))
    decreases Size(t)
  {
    if t.Nil? {
    } else if key < t.key {
      RemoveOrdered(t.left, key);
      RemoveBounds(t.left, key, 0, t.key, 0);
    } else if key > t.key {
      RemoveOrdered(t.right, key);
      RemoveBounds(t.right, key, t.key, 0, 0);
    } else if t.left.Nil? || t.right.Nil? {
    } else if t.left.prior < t.right.prior {
      var p := Zag(t);
      ZagOrdered(t);
      RemoveOrdered(p.right, key);
      RemoveBounds(p.right, key, p.key, 0, 0);
    } else {
      var p := Zig(t);
      ZigOrdered(t);
      RemoveOrdered(p.left, key);
      RemoveBounds(p.left, key, 0, p.key, 0);
    }
  }

  /** Remove keeps the heap order on the priorities. */
  lemma {:induction false} RemoveHeap(t: Tree, key: int)
    requires Heap(t)
    ensures Heap(Remove(t, key))
    decreases Size(t)
  {
    if t.Nil? {
    } else if key < t.key {
      RemoveHeap(t.left, key);
      RemoveBounds(t.left, key, 0, 0, t.prior);
    } else if key > t.key {
      RemoveHeap(t.right, key);
      RemoveBounds(t.right, key, 0, 0, t.prior);
    } else if t.left.Nil? || t.right.Nil? {
    } else if t.left.prior < t.right.prior {
      var l := t.left;
      var p := Zag(t);
      // The node sent down has the smallest priority, so it is a heap.
      AboveLower(l.right, l.prior, t.prior);
      RemoveHeap(p.right, key);
      // Everything left under the lifted child is above its priority.
      AboveLower(t.right, t.right.prior, l.prior);
      RemoveRootAbove(p.right, key, l.prior);
    } else {
      var r := t.right;
      var p := Zig(t);
      AboveLower(r.left, r.prior, t.prior);
      RemoveHeap(p.left, key);
      AboveLower(t.left, t.left.prior, r.prior);
      RemoveRootAbove(p.left, key, r.prior);
    }
  }

  /** `Search(p, key)`: the subtree rooted at a node with the key, or Nil. */
  function Search(t: Tree, key: int): (r: Tree)
    ensures r.Node? ==> r.key == key && Count(t, key) > 0
  {
    if t.Nil? then Nil
    else if key < t.key then Search(t.left, key)
    else if key > t.key then Search(t.right, key)
    else t
  }

  lemma {:induction false} AtMostMisses(t: Tree, b: int, x: int)
    requires KeysAtMost(t, b) && b < x
    ensures Count(t, x) == 0
  {
    if t.Node? {
      AtMostMisses(t.left, b, x);
      AtMostMisses(t.right, b, x);
    }
  }

  lemma {:induction false} AtLeastMisses(t: Tree, b: int, x: int)
    requires KeysAtLeast(t, b) && x < b
    ensures Count(t, x) == 0
  {
    if t.Node? {
      AtLeastMisses(t.left, b, x);
      AtLeastMisses(t.right, b, x);
    }
  }

  /** In an ordered treap, Search finds a node exactly when the key is
      present. */
  lemma {:induction false} SearchFinds(t: Tree, key: int)
    requires Ordered(t)
    ensures Search(t, key).Node? <==> Count(t, key) > 0
  {
    if t.Node? {
      if key < t.key {
        SearchFinds(t.left, key);
        AtLeastMisses(t.right, t.key, key);
      } else if key > t.key {
        SearchFinds(t.right, key);
        AtMostMisses(t.left, t.key, key);
      }
    }
  }

  /** Removing from an ordered treap leaves the key absent exactly when it
      occurred at most once. */
  lemma RemovedKey(t: Tree, key: int)
    requires Ordered(t)
    ensures Search(Remove(t, key), key).Nil? <==> Count(t, key) <= 1
  {
    RemoveOrdered(t, key);
    RemoveOne(t, key);
    SearchFinds(Remove(t, key), key);
  }

  lemma {:induction false} InOrderBounded(t: Tree, lo: int, hi: int)
    ensures KeysAtMost(t, hi) ==> forall i :: 0 <= i < |InOrder(t)| ==> InOrder(t)[i] <= hi
    ensures KeysAtLeast(t, lo) ==> forall i :: 0 <= i < |InOrder(t)| ==> lo <= InOrder(t)[i]
  {
    if t.Node? {
      InOrderBounded(t.left, lo, hi);
      InOrderBounded(t.right, lo, hi);
    }
  }

  /** An ordered tree lists its keys in non-decreasing order. */
  lemma {:induction false} OrderedSorted(t: Tree)
    requires Ordered(t)
    ensures forall i, j :: 0 <= i < j < |InOrder(t)| ==> InOrder(t)[i] <= InOrder(t)[j]
  {
    if t.Node? {
      OrderedSorted(t.left);
      OrderedSorted(t.right);
      InOrderBounded(t.left, t.key, t.key);
      InOrderBounded(t.right, t.key, t.key);
      var a, b := InOrder(t.left), InOrder(t.right);
      var s := InOrder(t);
      var n := |a|;
      assert s == a + [t.key] + b;
      forall i, j | 0 <= i < j < |s| ensures s[i] <= s[j] {
        if j < n {
          assert s[i] == a[i] && s[j] == a[j];
        } else if n < i {
          assert s[i] == b[i - n - 1] && s[j] == b[j - n - 1];
        } else {
          assert s[i] <= t.key <= s[j];
        }
      }
    }
  }
}
