/** regular/src/datrie.rs: a double-array trie over byte strings, built from
    a sorted key list.  Each trie node w (a prefix of some key) owns a block
    of slots starting at its `begin`: the child reached by byte b sits in
    slot begin + b + 1 and the end of a key in slot begin, and every slot of
    the block has `check` equal to begin.  An inner slot's `base` is the
    begin of the child's block; an end slot's `base` is negative. */
module DaTrie {
  import opened Base

  /** What `contains` yields: an answer, or a panic on an index out of
      range. */
  datatype Outcome = Answer(found: bool) | Panic

  /** The finished trie: `base` and `check`. */
  datatype DATrie = DATrie(base: seq<int>, check: seq<int>)

  /** `Node`: a sibling found by `fetch`, with its code, its depth, and the
      range [left, right) of the keys below it. */
  datatype Sib = Sib(code: nat, depth: nat, left: nat, right: nat)

  /** The code of a key at depth d: 0 when the key ends there, otherwise
      its byte at d plus one. */
  function Code(key: seq<byte>, d: nat): (c: nat)
    requires d <= |key|
    ensures c <= 256 && (c == 0 <==> |key| == d)
    ensures c > 0 ==> key[d] == c - 1
  {
    if |key| == d then 0 else key[d] as int + 1
  }

  /** `contains` from state s over the bytes of key: a step from s on byte
      c goes to slot t = s + c + 1 when t is below the length of `check`
      and `check[t] == s`; the end needs `check[s] == s` and a negative
      `base[s]`.  A negative index (Rust's `as usize` wraps it past the
      end) or one past an array's end panics. */
  function Walk(d: DATrie, s: int, key: seq<byte>): (r: Outcome)
    decreases |key|
    ensures key == [] ==> (r == Answer(true) <==> 0 <= s < |d.base| && s < |d.check| && d.check[s] == s && d.base[s] < 0)
    ensures key != [] && r == Answer(true) ==>
              0 <= s + key[0] + 1 < |d.base| && s + key[0] + 1 < |d.check| && d.check[s + key[0] + 1] == s
  {
    if key == [] then
      if 0 <= s < |d.base| && s < |d.check| then Answer(d.check[s] == s && d.base[s] < 0) else Panic
    else
      var t := s + key[0] + 1;
      if t < |d.check| then
        if t < 0 then Panic
        else if d.check[t] != s then Answer(false)
        else if t < |d.base| then Walk(d, d.base[t], key[1..])
        else Panic
      else Answer(false)
  }

  /** `contains`: the walk from `base[0]`. */
  function Lookup(d: DATrie, key: seq<byte>): (r: Outcome)
    ensures |d.base| == 0 ==> r == Panic
    ensures r == Answer(true) ==> 0 <= d.base[0] + (if key == [] then 0 else key[0] + 1) < |d.check|
  {
    if |d.base| == 0 then Panic else Walk(d, d.base[0], key)
  }

  /** `DATrie::contains`, step by step. */
  method Contains(d: DATrie, key: seq<byte>) returns (r: Outcome)
    ensures r == Lookup(d, key)
  {
    if |d.base| == 0 {
      return Panic;
    }
    var s := d.base[0];
    var i := 0;
    while i < |key|
      invariant 0 <= i <= |key|
      invariant Lookup(d, key) == Walk(d, s, key[i..])
    {
      assert key[i..][1..] == key[i + 1..];
      var t := s + key[i] + 1;
      if t >= |d.check| {
        return Answer(false);
      }
      if t < 0 {
        return Panic;
      }
      if d.check[t] != s {
        return Answer(false);
      }
      if t >= |d.base| {
        return Panic;
      }
      s := d.base[t];
      i := i + 1;
    }
    if s < 0 || s >= |d.base| || s >= |d.check| {
      return Panic;
    }
    var end := d.base[s];
    r := Answer(d.check[s] == s && end < 0);
  }

  /** Some key extends w and has code c at depth |w|: c is the code of a
      child of the trie node w. */
  ghost predicate HasCode(keys: seq<seq<byte>>, w: seq<byte>, c: int)
  {
    exists i :: 0 <= i < |keys| && w <= keys[i] && Code(keys[i], |w|) == c
  }

  /** v is the child of node w reached by code c. */
  ghost predicate IsChild(v: seq<byte>, w: seq<byte>, c: int)
  {
    |v| == |w| + 1 && v[..|w|] == w && v[|w|] as int + 1 == c
  }

  /** Slot x belongs to the block of the node whose block begins at b:
      x - b is a code of that node. */
  ghost predicate InBlock(keys: seq<seq<byte>>, nodeAt: map<int, seq<byte>>, b: int, x: int)
  {
    b in nodeAt && b <= x && HasCode(keys, nodeAt[b], x - b)
  }

  /** Every slot of every node's block lies below bound and is checked
      with the block's begin. */
  ghost predicate Placed(keys: seq<seq<byte>>, check: seq<int>, nodeAt: map<int, seq<byte>>, bound: nat)
  {
    forall b, x {:trigger InBlock(keys, nodeAt, b, x)} :: InBlock(keys, nodeAt, b, x) ==>
      0 <= x < bound && x < |check| && check[x] == b
  }

  /** Every checked slot belongs to the block its `check` names. */
  ghost predicate Owned(keys: seq<seq<byte>>, check: seq<int>, nodeAt: map<int, seq<byte>>)
  {
    forall x :: 0 <= x < |check| && check[x] != 0 ==> InBlock(keys, nodeAt, check[x], x)
  }

  /** The blocks in done have their `base` entries: negative for the end
      of a key, the begin of the child's block (itself done) otherwise. */
  ghost predicate Linked(keys: seq<seq<byte>>, base: seq<int>, nodeAt: map<int, seq<byte>>, done: set<int>)
  {
    forall b, x {:trigger InBlock(keys, nodeAt, b, x)} :: b in done && InBlock(keys, nodeAt, b, x) ==>
      0 <= x < |base|
      && (x == b ==> base[b] < 0)
      && (x != b ==> base[x] in done && base[x] in nodeAt && IsChild(nodeAt[base[x]], nodeAt[b], x - b))
  }

  /** A finished trie encodes the nodes of nodeAt for keys. */
  ghost predicate Encodes(d: DATrie, keys: seq<seq<byte>>, nodeAt: map<int, seq<byte>>)
  {
    |d.base| == |d.check|
    && (forall b :: b in nodeAt ==> 1 <= b < |d.check|)
    && Placed(keys, d.check, nodeAt, |d.check|)
    && Owned(keys, d.check, nodeAt)
    && Linked(keys, d.base, nodeAt, nodeAt.Keys)
  }

  /** At the end of the walk, the block of node w accepts exactly when w
      is a key. */
  lemma WalkEnds(d: DATrie, keys: seq<seq<byte>>, nodeAt: map<int, seq<byte>>, b: int)
    requires Encodes(d, keys, nodeAt) && b in nodeAt
    ensures Walk(d, b, []) == Answer(nodeAt[b] in keys)
  {
    var w := nodeAt[b];
    if w in keys {
      var i :| 0 <= i < |keys| && keys[i] == w;
      assert w <= keys[i] && Code(keys[i], |w|) == 0;
      assert InBlock(keys, nodeAt, b, b);
    }
    if d.check[b] == b {
      assert InBlock(keys, nodeAt, b, b);
      var i :| 0 <= i < |keys| && w <= keys[i] && Code(keys[i], |w|) == 0;
      assert keys[i] == w;
    }
  }

  /** A key that extends w + [c] makes c + 1 a code of w. */
  lemma KeyHasCode(keys: seq<seq<byte>>, w: seq<byte>, c: byte, u: seq<byte>)
    requires w + [c] + u in keys
    ensures HasCode(keys, w, c as int + 1)
  {
    var i :| 0 <= i < |keys| && keys[i] == w + [c] + u;
    assert w <= keys[i] && Code(keys[i], |w|) == c as int + 1;
  }

  /** A step on the first byte of u from the block of node w goes on from
      the block of the child w + [u[0]] when that is a node, and otherwise
      fails, no key extending w + u. */
  lemma WalkStep(d: DATrie, keys: seq<seq<byte>>, nodeAt: map<int, seq<byte>>, b: int, u: seq<byte>)
    requires Encodes(d, keys, nodeAt) && b in nodeAt && u != []
    ensures var t := b + u[0] + 1;
      if HasCode(keys, nodeAt[b], u[0] as int + 1) then
        0 <= t < |d.base| && d.base[t] in nodeAt && nodeAt[d.base[t]] == nodeAt[b] + [u[0]]
        && Walk(d, b, u) == Walk(d, d.base[t], u[1..])
      else
        Walk(d, b, u) == Answer(false) && nodeAt[b] + u !in keys
  {
    var w := nodeAt[b];
    var c := u[0];
    var t := b + c + 1;
    if 0 <= t < |d.check| && d.check[t] == b {
      assert InBlock(keys, nodeAt, b, t);
    }
    if HasCode(keys, w, c as int + 1) {
      assert InBlock(keys, nodeAt, b, t);
      var v := nodeAt[d.base[t]];
      assert IsChild(v, w, c as int + 1);
      assert v == w + [c];
    }
    if w + u in keys {
      assert w + [c] + u[1..] == w + u;
      KeyHasCode(keys, w, c, u[1..]);
    }
  }

  /** From the block of node w, the walk over u accepts exactly when w + u
      is a key. */
  lemma {:induction false} WalkFinds(d: DATrie, keys: seq<seq<byte>>, nodeAt: map<int, seq<byte>>, b: int, u: seq<byte>)
    requires Encodes(d, keys, nodeAt) && b in nodeAt
    ensures Walk(d, b, u) == Answer(nodeAt[b] + u in keys)
    decreases |u|
  {
    if u == [] {
      WalkEnds(d, keys, nodeAt, b);
      assert nodeAt[b] + u == nodeAt[b];
    } else {
      WalkStep(d, keys, nodeAt, b, u);
      if HasCode(keys, nodeAt[b], u[0] as int + 1) {
        var t := b + u[0] + 1;
        WalkFinds(d, keys, nodeAt, d.base[t], u[1..]);
        assert nodeAt[b] + [u[0]] + u[1..] == nodeAt[b] + u;
      }
    }
  }

  /** Sorted ascending in bytewise order, duplicates allowed: what Rust's
      `sort` leaves in a vector of strings. */
  ghost predicate Sorted(keys: seq<seq<byte>>)
  {
    forall i, j {:trigger LexLe(keys[i], keys[j])} :: 0 <= i < j < |keys| ==> LexLe(keys[i], keys[j])
  }

  /** Keys i and j, when both reach depth d, have their codes there in
      order. */
  ghost predicate CodesInOrder(keys: seq<seq<byte>>, d: nat, i: nat, j: nat)
    requires i < |keys| && j < |keys|
  {
    |keys[i]| >= d && |keys[j]| >= d ==> Code(keys[i], d) <= Code(keys[j], d)
  }

  /** The codes at depth d of the keys in [left, right) that reach depth d
      never go down: what the assertion in `fetch` demands. */
  ghost predicate Ascending(keys: seq<seq<byte>>, d: nat, left: nat, right: nat)
    requires right <= |keys|
  {
    forall i, j :: left <= i < j < right ==> CodesInOrder(keys, d, i, j)
  }

  /** Among keys in bytewise order that share the prefix w, the codes at
      depth |w| are in order. */
  lemma {:induction false} CodeOrder(a: seq<byte>, b: seq<byte>, w: seq<byte>)
    requires LexLe(a, b) && w <= a && w <= b
    ensures Code(a, |w|) <= Code(b, |w|)
    decreases |w|
  {
    if w != [] {
      assert w[1..] <= a[1..] && w[1..] <= b[1..];
      if a != b {
        assert a[0] == b[0];
      }
      CodeOrder(a[1..], b[1..], w[1..]);
    }
  }

  /** Sorted keys that share the prefix w pass the assertion of `fetch` at
      depth |w|. */
  lemma SpanAscending(keys: seq<seq<byte>>, w: seq<byte>, left: nat, right: nat)
    requires Sorted(keys) && left <= right <= |keys|
    requires forall i :: left <= i < right ==> w <= keys[i]
    ensures Ascending(keys, |w|, left, right)
  {
    forall i, j | left <= i < j < right
      ensures CodesInOrder(keys, |w|, i, j)
    {
      CodeOrder(keys[i], keys[j], w);
    }
  }

  /** The group k - 1 ends where group k begins, with a smaller code. */
  ghost predicate Abut(sibs: seq<Sib>, k: nat)
    requires 0 < k < |sibs|
  {
    sibs[k - 1].right == sibs[k].left && sibs[k - 1].code < sibs[k].code
  }

  /** A group of depth d + 1: a non-empty range of keys whose first key
      reaches depth d, and every key of which that reaches depth d has the
      group's code. */
  ghost predicate Group(keys: seq<seq<byte>>, d: nat, g: Sib)
  {
    g.depth == d + 1 && g.left < g.right <= |keys|
    && |keys[g.left]| >= d && Code(keys[g.left], d) == g.code
    && forall i :: g.left <= i < g.right && |keys[i]| >= d ==> Code(keys[i], d) == g.code
  }

  /** The siblings `fetch` returns for a parent at depth d over [left,
      right): groups inside the parent's range that follow one another
      with strictly increasing codes. */
  ghost predicate Grouped(keys: seq<seq<byte>>, d: nat, sibs: seq<Sib>, left: nat, right: nat)
  {
    right <= |keys|
    && (forall k :: 0 <= k < |sibs| ==> Group(keys, d, sibs[k]) && left <= sibs[k].left && sibs[k].right <= right)
    && (forall k :: 0 < k < |sibs| ==> Abut(sibs, k))
  }

  /** The keys with prefix w are exactly those in [left, right), and there
      is one. */
  ghost predicate Span(keys: seq<seq<byte>>, w: seq<byte>, left: nat, right: nat)
  {
    left < right <= |keys| && forall i :: 0 <= i < |keys| ==> (w <= keys[i] <==> left <= i < right)
  }

  /** sibs is what `fetch` gives for the trie node w: the keys with prefix w
      grouped by their code at depth |w|. */
  ghost predicate Fetched(keys: seq<seq<byte>>, w: seq<byte>, sibs: seq<Sib>)
  {
    |sibs| > 0 && Span(keys, w, sibs[0].left, sibs[|sibs| - 1].right)
    && Grouped(keys, |w|, sibs, sibs[0].left, sibs[|sibs| - 1].right)
  }

  /** The child of node w reached by code c. */
  function Child(w: seq<byte>, c: nat): (v: seq<byte>)
    requires 1 <= c <= 256
    ensures IsChild(v, w, c)
  {
    w + [(c - 1) as byte]
  }

  /** The longest key's length. */
  function Longest(keys: seq<seq<byte>>): (n: nat)
    ensures forall i :: 0 <= i < |keys| ==> |keys[i]| <= n
  {
    if keys == [] then 0
    else var m := Longest(keys[1..]); if |keys[0]| > m then |keys[0]| else m
  }

  /** `usize::max`. */
  function Max(a: nat, b: nat): (r: nat)
    ensures r >= a && r >= b && (r == a || r == b)
  {
    if a >= b then a else b
  }

  /** `Vec::resize(n, fill)`: the first n items, padded with fill. */
  function Resized<T>(v: seq<T>, n: nat, fill: T): (r: seq<T>)
    ensures |r| == n
    ensures forall x :: 0 <= x < n ==> r[x] == if x < |v| then v[x] else fill
  {
    if n <= |v| then v[..n] else v + seq(n - |v|, _ => fill)
  }

  /** Multiplying alloc by the larger of the two factors and rounding
      down gives the larger of the two rounded products. */
  lemma FactorOrder(alloc: nat, n: nat, q: nat)
    requires q > 0
    ensures 100 * n <= 105 * q ==> alloc * n / q <= alloc * 105 / 100
    ensures 100 * n > 105 * q ==> alloc * 105 / 100 <= alloc * n / q
  {
    if 100 * n <= 105 * q {
      MulLe(alloc, 100 * n, 105 * q);
      assert alloc * (100 * n) == (alloc * n) * 100 && alloc * (105 * q) == (alloc * 105) * q;
      DivLe(alloc * n, alloc * 105, q, 100);
    } else {
      MulLe(alloc, 105 * q, 100 * n);
      assert alloc * (105 * q) == (alloc * 105) * q && alloc * (100 * n) == (alloc * n) * 100;
      DivLe(alloc * 105, alloc * n, 100, q);
    }
  }

  /** x / q <= y / p when x * p <= y * q. */
  lemma DivLe(x: nat, y: nat, q: nat, p: nat)
    requires q > 0 && p > 0 && x * p <= y * q
    ensures x / q <= y / p
  {
    var a := x / q;
    assert a * q <= x by { DivFloor(x, q); }
    MulLe(p, a * q, x);
    assert (a * p) * q <= y * q by {
      assert p * (a * q) == (a * p) * q && p * x == x * p;
    }
    MulCancel(q, a * p, y);
    BelowDiv(a, y, p);
  }

  /** Dividing both sides of u * q <= v * q by q. */
  lemma MulCancel(q: nat, u: nat, v: nat)
    requires q > 0 && u * q <= v * q
    ensures u <= v
  {
  }

  /** a is at most y / p when a * p is at most y. */
  lemma BelowDiv(a: nat, y: nat, p: nat)
    requires p > 0 && a * p <= y
    ensures a <= y / p
  {
    DivFloor(y, p);
    var d := y / p;
    assert y < d * p + p == (d + 1) * p;
    assert a * p < (d + 1) * p;
    MulCancelLt(p, a, d + 1);
  }

  /** Dividing both sides of u * p < v * p by p. */
  lemma MulCancelLt(p: nat, u: nat, v: nat)
    requires p > 0 && u * p < v * p
    ensures u < v
  {
  }

  /** Rounding down: the quotient times the divisor is at most the
      dividend, by less than the divisor. */
  lemma DivFloor(x: nat, q: nat)
    requires q > 0
    ensures (x / q) * q <= x < (x / q) * q + q
  {
  }

  lemma MulLe(c: nat, x: nat, y: nat)
    requires x <= y
    ensures c * x <= c * y
  {
  }

  lemma MulLt(c: nat, x: nat, y: nat)
    requires c > 0 && x < y
    ensures c * x < c * y
  {
  }

  /** The size `insert` grows to when the last sibling's slot is not below
      `alloc_size`: `alloc_size` times the larger of 1.05 and the number of
      keys over `progress + 1`, rounded down. */
  function Grow(alloc: nat, n: nat, progress: nat): (r: nat)
    ensures r == Max(Scaled(alloc, 105, 100), Scaled(alloc, n, progress + 1))
    ensures r >= alloc
  {
    var grown, scaled := Scaled(alloc, 105, 100), Scaled(alloc, n, progress + 1);
    GrowChoice(alloc, n, progress + 1);
    if 100 * n <= 105 * (progress + 1) then grown else scaled
  }

  /** a times num / den, rounded down. */
  function Scaled(a: nat, num: nat, den: nat): nat
    requires den > 0
  {
    a * num / den
  }

  /** Which of the two factors `insert` grows by is the larger, and growing
      by 1.05 never shrinks. */
  lemma GrowChoice(alloc: nat, n: nat, q: nat)
    requires q > 0
    ensures var grown, scaled := Scaled(alloc, 105, 100), Scaled(alloc, n, q);
      Max(grown, scaled) == (if 100 * n <= 105 * q then grown else scaled) && grown >= alloc
  {
    FactorOrder(alloc, n, q);
    BelowDiv(alloc, alloc * 105, 100);
  }

  /** The `all` over the siblings after the first in `insert`: whether the
      slot `begin + code` of each sibling from k on is empty, in order; None
      when a slot lies past the end of `check`, where the source panics. */
  function SlotsFree(check: seq<int>, begin: nat, sibs: seq<Sib>, k: nat): (r: Option<bool>)
    decreases |sibs| - k
    ensures r == Some(true) <==>
              forall j :: k <= j < |sibs| ==> begin + sibs[j].code < |check| && check[begin + sibs[j].code] == 0
    ensures r == None ==> exists j :: k <= j < |sibs| && begin + sibs[j].code >= |check|
    ensures r == Some(false) ==>
              exists j :: k <= j < |sibs| && begin + sibs[j].code < |check| && check[begin + sibs[j].code] != 0
  {
    if k >= |sibs| then Some(true)
    else if begin + sibs[k].code >= |check| then None
    else if check[begin + sibs[k].code] != 0 then Some(false)
    else SlotsFree(check, begin, sibs, k + 1)
  }

  /** Sibling codes ascend, so the first is the least and the last the
      greatest. */
  lemma {:induction false} CodesIncreasing(sibs: seq<Sib>, j: nat, k: nat)
    requires forall t :: 0 < t < |sibs| ==> Abut(sibs, t)
    requires j < k < |sibs|
    ensures sibs[j].code < sibs[k].code
    decreases k - j
  {
    if j + 1 < k {
      CodesIncreasing(sibs, j, k - 1);
    }
    assert Abut(sibs, k);
  }

  lemma CodesBetween(sibs: seq<Sib>)
    requires |sibs| > 0 && forall t :: 0 < t < |sibs| ==> Abut(sibs, t)
    ensures forall k :: 0 <= k < |sibs| ==> sibs[0].code <= sibs[k].code <= sibs[|sibs| - 1].code
  {
    forall k | 0 < k < |sibs| - 1 ensures sibs[0].code <= sibs[k].code <= sibs[|sibs| - 1].code {
      CodesIncreasing(sibs, 0, k);
      CodesIncreasing(sibs, k, |sibs| - 1);
    }
    if |sibs| > 1 {
      CodesIncreasing(sibs, 0, |sibs| - 1);
    }
  }

  /** Each key of a node's span lies in one sibling's range. */
  lemma Cover(keys: seq<seq<byte>>, w: seq<byte>, sibs: seq<Sib>, i: nat) returns (k: nat)
    requires Fetched(keys, w, sibs) && sibs[0].left <= i < sibs[|sibs| - 1].right
    ensures k < |sibs| && sibs[k].left <= i < sibs[k].right && Code(keys[i], |w|) == sibs[k].code
  {
    k := 0;
    while sibs[k].right <= i
      invariant k < |sibs| && sibs[k].left <= i
      decreases |sibs| - k
    {
      assert Abut(sibs, k + 1);
      k := k + 1;
    }
  }

  /** Every code of the node w is the code of one of its siblings. */
  lemma CodeIsSib(keys: seq<seq<byte>>, w: seq<byte>, sibs: seq<Sib>, c: int) returns (k: nat)
    requires Fetched(keys, w, sibs) && HasCode(keys, w, c)
    ensures k < |sibs| && sibs[k].code == c
  {
    var i :| 0 <= i < |keys| && w <= keys[i] && Code(keys[i], |w|) == c;
    k := Cover(keys, w, sibs, i);
  }

  /** The range of a sibling with a non-zero code spans exactly the keys
      with the child's prefix. */
  lemma ChildSpan(keys: seq<seq<byte>>, w: seq<byte>, sibs: seq<Sib>, k: nat)
    requires Fetched(keys, w, sibs) && k < |sibs| && sibs[k].code > 0
    ensures Span(keys, Child(w, sibs[k].code), sibs[k].left, sibs[k].right)
  {
    var v := Child(w, sibs[k].code);
    forall i | 0 <= i < |keys| ensures v <= keys[i] <==> sibs[k].left <= i < sibs[k].right {
      if sibs[k].left <= i < sibs[k].right {
        assert keys[i][..|w| + 1] == v;
      }
      if v <= keys[i] {
        assert w <= keys[i];
        var k' := Cover(keys, w, sibs, i);
        if k' < k {
          CodesIncreasing(sibs, k', k);
        } else if k < k' {
          CodesIncreasing(sibs, k, k');
        }
      }
    }
  }

  /** The range of a sibling with code 0 holds only keys equal to w. */
  lemma EndSpan(keys: seq<seq<byte>>, w: seq<byte>, sibs: seq<Sib>, k: nat)
    requires Fetched(keys, w, sibs) && k < |sibs| && sibs[k].code == 0
    ensures forall i :: sibs[k].left <= i < sibs[k].right ==> |keys[i]| == |w|
  {
  }

  /** What `fetch` returns for parent: the groups, nothing exactly when no
      key of the range reaches the parent's depth, and ranges that run from
      the first such key to the parent's end. */
  ghost predicate FetchOf(keys: seq<seq<byte>>, parent: Sib, sibs: seq<Sib>)
  {
    parent.right <= |keys| && Grouped(keys, parent.depth, sibs, parent.left, parent.right)
    && ((sibs == []) == (forall i :: parent.left <= i < parent.right ==> |keys[i]| < parent.depth))
    && (sibs != [] ==> sibs[|sibs| - 1].right == parent.right
                       && forall i :: parent.left <= i < sibs[0].left ==> |keys[i]| < parent.depth)
  }

  /** `fetch` on the span of node w gives the siblings of w. */
  lemma FetchedSpan(keys: seq<seq<byte>>, w: seq<byte>, parent: Sib, sibs: seq<Sib>)
    requires Span(keys, w, parent.left, parent.right) && parent.depth == |w| && FetchOf(keys, parent, sibs)
    ensures Fetched(keys, w, sibs) && sibs[0].left == parent.left
  {
    assert w <= keys[parent.left];
  }

  /** `siblings.last_mut().map(|last| last.right = r)`: the range of the
      last sibling, if any, closed at r. */
  function Closed(sibs: seq<Sib>, r: nat): (c: seq<Sib>)
    ensures |c| == |sibs|
    ensures forall k :: 0 <= k < |sibs| - 1 ==> c[k] == sibs[k]
    ensures sibs != [] ==> c[|sibs| - 1] == sibs[|sibs| - 1].(right := r)
  {
    if sibs == [] then [] else sibs[|sibs| - 1 := sibs[|sibs| - 1].(right := r)]
  }

  /** No key in [lo, hi) reaches depth d. */
  ghost predicate Short(keys: seq<seq<byte>>, d: nat, lo: nat, hi: nat)
    requires hi <= |keys|
  {
    forall j :: lo <= j < hi ==> |keys[j]| < d
  }

  /** The state of `fetch` after the keys in [parent.left, i): the groups
      so far, the last one open at i, prev the code of the last key that
      reached the parent's depth (at index last). */
  ghost predicate Fetching(keys: seq<seq<byte>>, parent: Sib, sibs: seq<Sib>, i: nat, prev: nat, last: nat)
  {
    var d := parent.depth;
    parent.left <= i <= parent.right <= |keys|
    && (sibs == [] <==> Short(keys, d, parent.left, i))
    && (sibs == [] ==> prev == 0)
    && (sibs != [] ==>
          Grouped(keys, d, Closed(sibs, i), parent.left, i)
          && Short(keys, d, parent.left, sibs[0].left)
          && parent.left <= last < i && |keys[last]| >= d && Code(keys[last], d) == prev
          && prev == sibs[|sibs| - 1].code)
  }

  /** A key with the last group's code, or one that does not reach depth d,
      extends the last group. */
  lemma ExtendKeeps(keys: seq<seq<byte>>, d: nat, sibs: seq<Sib>, left: nat, i: nat, next: nat)
    requires i < |keys| && sibs != [] && Grouped(keys, d, Closed(sibs, i), left, i) && next == i + 1
    requires |keys[i]| >= d ==> Code(keys[i], d) == sibs[|sibs| - 1].code
    ensures Grouped(keys, d, Closed(sibs, next), left, next)
  {
    var c, c' := Closed(sibs, i), Closed(sibs, next);
    var m := |sibs| - 1;
    forall k | 0 <= k < |c'|
      ensures Group(keys, d, c'[k]) && left <= c'[k].left && c'[k].right <= next
    {
      if k < m {
        assert c'[k] == c[k];
      } else {
        assert c'[k] == c[k].(right := next);
        assert Group(keys, d, c[k]);
      }
    }
    forall k | 0 < k < |c'|
      ensures Abut(c', k)
    {
      assert Abut(c, k);
    }
  }

  /** A key that reaches depth d with a code above the last group's opens
      a new group, closing the last at i. */
  lemma PushKeeps(keys: seq<seq<byte>>, d: nat, sibs: seq<Sib>, left: nat, i: nat, n: Sib, next: nat)
    requires left <= i < |keys| && Grouped(keys, d, Closed(sibs, i), left, i) && next == i + 1
    requires |keys[i]| >= d && n == Sib(Code(keys[i], d), d + 1, i, 0)
    requires sibs != [] ==> sibs[|sibs| - 1].code < n.code
    ensures Grouped(keys, d, Closed(Closed(sibs, i) + [n], next), left, next)
  {
    var c := Closed(sibs, i);
    var c' := Closed(c + [n], next);
    var m := |c|;
    assert c'[m] == n.(right := next);
    forall k | 0 <= k < |c'|
      ensures Group(keys, d, c'[k]) && left <= c'[k].left && c'[k].right <= next
    {
      if k < m {
        assert c'[k] == c[k];
      }
    }
    forall k | 0 < k < |c'|
      ensures Abut(c', k)
    {
      if k < m {
        assert Abut(c, k);
      }
    }
  }

  /** `fetch` skips a key that does not reach the parent's depth. */
  lemma FetchSkip(keys: seq<seq<byte>>, parent: Sib, sibs: seq<Sib>, i: nat, prev: nat, last: nat, next: nat)
    requires Fetching(keys, parent, sibs, i, prev, last) && i < parent.right && |keys[i]| < parent.depth
    requires next == i + 1
    ensures Fetching(keys, parent, sibs, next, prev, last)
  {
    if sibs != [] {
      ExtendKeeps(keys, parent.depth, sibs, parent.left, i, next);
    }
  }

  /** `fetch` adds a key with the last group's code cur to that group. */
  lemma FetchSame(keys: seq<seq<byte>>, parent: Sib, sibs: seq<Sib>, i: nat, prev: nat, last: nat, cur: nat, next: nat)
    requires Fetching(keys, parent, sibs, i, prev, last) && i < parent.right && sibs != []
    requires |keys[i]| >= parent.depth && Code(keys[i], parent.depth) == cur == prev && next == i + 1
    ensures Fetching(keys, parent, sibs, next, cur, i)
  {
    ExtendKeeps(keys, parent.depth, sibs, parent.left, i, next);
  }

  /** `fetch` opens a new group n for a key with a code cur above the last
      group's, or for the first key that reaches the parent's depth. */
  lemma FetchPush(keys: seq<seq<byte>>, parent: Sib, sibs: seq<Sib>, i: nat, prev: nat, last: nat, cur: nat, n: Sib, next: nat)
    requires Fetching(keys, parent, sibs, i, prev, last) && i < parent.right && |keys[i]| >= parent.depth
    requires cur == Code(keys[i], parent.depth) && n == Sib(cur, parent.depth + 1, i, 0) && (sibs == [] || cur > prev)
    requires next == i + 1
    ensures Fetching(keys, parent, Closed(sibs, i) + [n], next, cur, i)
  {
    PushKeeps(keys, parent.depth, sibs, parent.left, i, n, next);
    var s' := Closed(sibs, i) + [n];
    if sibs == [] {
      assert s'[0].left == i;
    } else {
      assert s'[0] == Closed(sibs, i)[0];
    }
  }

  /** The assertion of `fetch` holds for sorted codes: the last code seen
      is at most the next key's. */
  lemma FetchAscends(keys: seq<seq<byte>>, parent: Sib, sibs: seq<Sib>, i: nat, prev: nat, last: nat)
    requires Fetching(keys, parent, sibs, i, prev, last) && i < parent.right && |keys[i]| >= parent.depth
    requires Ascending(keys, parent.depth, parent.left, parent.right)
    ensures prev <= Code(keys[i], parent.depth)
  {
    if sibs != [] {
      assert CodesInOrder(keys, parent.depth, last, i);
    }
  }

  /** When `fetch` has seen the whole range, closing the last group at the
      parent's end gives what it returns. */
  lemma FetchDone(keys: seq<seq<byte>>, parent: Sib, sibs: seq<Sib>, i: nat, prev: nat, last: nat)
    requires Fetching(keys, parent, sibs, i, prev, last) && i >= parent.right
    ensures FetchOf(keys, parent, Closed(sibs, parent.right))
  {
    assert i == parent.right;
  }

  /** How a round of the search in `insert` ends: the position or the
      begin is taken, the block fits, or a sibling's slot lies past the end
      of `check` (the source's panic). */
  datatype Try = Taken | Fits | Overflows

  /** The allocated size after the growth step of `insert` from alloc,
      when the last sibling's slot is top: unchanged when top is below
      alloc, else the growth (at least top + 1 with fix). */
  function Grown(alloc: nat, top: nat, n: nat, progress: nat, fix: bool): (r: nat)
    ensures r >= alloc && (top < alloc ==> r == alloc)
    ensures alloc <= top ==> r >= Scaled(alloc, 105, 100) && r >= Scaled(alloc, n, progress + 1)
    ensures fix ==> top < r
  {
    if alloc <= top then
      var g := Grow(alloc, n, progress);
      Max(alloc, if fix then Max(g, top + 1) else g)
    else alloc
  }

  /** Every begin handed out is below the used size and marked used, and
      the blocks are placed, owned and, when done, linked. */
  ghost predicate Blocks(keys: seq<seq<byte>>, base: seq<int>, check: seq<int>, used: seq<bool>,
                         nodeAt: map<int, seq<byte>>, done: set<int>, maxSize: nat)
  {
    (forall b :: b in nodeAt ==> 1 <= b < maxSize && b < |used| && used[b])
    && done <= nodeAt.Keys
    && Placed(keys, check, nodeAt, maxSize) && Owned(keys, check, nodeAt) && Linked(keys, base, nodeAt, done)
  }

  /** The arrays b1, c1, u1 extend b0, c0, u0 with zero, unchecked and
      unused slots. */
  ghost predicate Extended(b0: seq<int>, c0: seq<int>, u0: seq<bool>, b1: seq<int>, c1: seq<int>, u1: seq<bool>)
  {
    |b0| <= |b1| && |c0| <= |c1| && |u0| <= |u1|
    && (forall x :: 0 <= x < |b0| ==> b1[x] == b0[x])
    && (forall x :: 0 <= x < |c0| ==> c1[x] == c0[x])
    && (forall x :: 0 <= x < |u0| ==> u1[x] == u0[x])
    && (forall x :: |b0| <= x < |b1| ==> b1[x] == 0)
    && (forall x :: |c0| <= x < |c1| ==> c1[x] == 0)
    && (forall x :: |u0| <= x < |u1| ==> !u1[x])
  }

  /** No slot from b on is checked or used. */
  ghost predicate ClearFrom(check: seq<int>, used: seq<bool>, b: nat)
  {
    (forall x :: b <= x < |check| ==> check[x] == 0) && (forall x :: b <= x < |used| ==> !used[x])
  }

  /** Growing keeps the clear slots clear. */
  lemma ExtendedClear(b0: seq<int>, c0: seq<int>, u0: seq<bool>, b1: seq<int>, c1: seq<int>, u1: seq<bool>, b: nat)
    requires Extended(b0, c0, u0, b1, c1, u1) && ClearFrom(c0, u0, b)
    ensures ClearFrom(c1, u1, b)
  {
  }

  /** When every slot from begin on is unchecked, the siblings' slots from
      k on are free unless one lies past the end, which happens exactly
      when the last one does. */
  lemma {:induction false} SlotsClear(check: seq<int>, begin: nat, sibs: seq<Sib>, k: nat)
    requires (forall t :: 0 < t < |sibs| ==> Abut(sibs, t)) && k < |sibs|
    requires forall x :: begin <= x < |check| ==> check[x] == 0
    ensures SlotsFree(check, begin, sibs, k) != Some(false)
    ensures SlotsFree(check, begin, sibs, k) == None <==> begin + sibs[|sibs| - 1].code >= |check|
    decreases |sibs| - k
  {
    if k < |sibs| - 1 {
      CodesIncreasing(sibs, k, |sibs| - 1);
      if begin + sibs[k].code < |check| {
        SlotsClear(check, begin, sibs, k + 1);
      }
    }
  }

  /** When the last sibling's slot is in range, so are all the others'. */
  lemma {:induction false} SlotsInRange(check: seq<int>, begin: nat, sibs: seq<Sib>, k: nat)
    requires (forall t :: 0 < t < |sibs| ==> Abut(sibs, t)) && 0 < |sibs|
    requires begin + sibs[|sibs| - 1].code < |check|
    ensures SlotsFree(check, begin, sibs, k) != None
    decreases |sibs| - k
  {
    if k < |sibs| - 1 {
      CodesIncreasing(sibs, k, |sibs| - 1);
      SlotsInRange(check, begin, sibs, k + 1);
    }
  }

  /** Growing the arrays keeps the blocks. */
  lemma ExtendedBlocks(keys: seq<seq<byte>>, b0: seq<int>, c0: seq<int>, u0: seq<bool>, b1: seq<int>, c1: seq<int>, u1: seq<bool>,
                       nodeAt: map<int, seq<byte>>, done: set<int>, maxSize: nat)
    requires Blocks(keys, b0, c0, u0, nodeAt, done, maxSize) && Extended(b0, c0, u0, b1, c1, u1)
    ensures Blocks(keys, b1, c1, u1, nodeAt, done, maxSize)
  {
  }

  /** Extension is transitive. */
  lemma ExtendedTrans(b0: seq<int>, c0: seq<int>, u0: seq<bool>, b1: seq<int>, c1: seq<int>, u1: seq<bool>,
                      b2: seq<int>, c2: seq<int>, u2: seq<bool>)
    requires Extended(b0, c0, u0, b1, c1, u1) && Extended(b1, c1, u1, b2, c2, u2)
    ensures Extended(b0, c0, u0, b2, c2, u2)
  {
  }

  /** Each sibling's code is a code of the node w. */
  lemma SibHasCode(keys: seq<seq<byte>>, w: seq<byte>, sibs: seq<Sib>, k: nat)
    requires Fetched(keys, w, sibs) && k < |sibs|
    ensures HasCode(keys, w, sibs[k].code)
  {
    assert Group(keys, |w|, sibs[k]);
    assert w <= keys[sibs[k].left];
  }

  /** The slots checked in c0 keep their check in c1, and their base in
      b1 unless they belong to the block at skip. */
  ghost predicate Kept(b0: seq<int>, c0: seq<int>, b1: seq<int>, c1: seq<int>, skip: int)
  {
    |b0| == |c0| <= |c1| == |b1|
    && forall x :: 0 <= x < |c0| && c0[x] != 0 ==> c1[x] == c0[x] && (c0[x] != skip ==> b1[x] == b0[x])
  }

  /** Growing keeps every slot. */
  lemma ExtendedKept(b0: seq<int>, c0: seq<int>, u0: seq<bool>, b1: seq<int>, c1: seq<int>, u1: seq<bool>)
    requires Extended(b0, c0, u0, b1, c1, u1) && |b0| == |c0| && |b1| == |c1|
    ensures Kept(b0, c0, b1, c1, 0)
  {
  }

  /** Keeping composes when no slot checked at the start belongs to the
      block the second step skips. */
  lemma KeptTrans(b0: seq<int>, c0: seq<int>, b1: seq<int>, c1: seq<int>, b2: seq<int>, c2: seq<int>, skip: int)
    requires Kept(b0, c0, b1, c1, 0) && Kept(b1, c1, b2, c2, skip)
    requires forall x :: 0 <= x < |c0| ==> c0[x] != skip || c0[x] == 0
    ensures Kept(b0, c0, b2, c2, 0)
  {
  }

  /** The check slots written when a block is claimed at begin for the
      node w: slots checked before keep their value, and every changed
      slot now holds begin and lies at a code of w. */
  ghost predicate Marked(keys: seq<seq<byte>>, c0: seq<int>, c1: seq<int>, begin: nat, w: seq<byte>)
  {
    |c1| == |c0|
    && (forall x :: 0 <= x < |c0| && c0[x] != 0 ==> c1[x] == c0[x])
    && (forall x :: 0 <= x < |c0| && c1[x] != c0[x] ==> c1[x] == begin && begin <= x && HasCode(keys, w, x - begin))
  }

  /** The slots of the first k siblings are checked with begin, the
      others still free. */
  ghost predicate MarkedUpTo(check: seq<int>, begin: nat, sibs: seq<Sib>, k: nat)
  {
    (forall j :: 0 <= j < |sibs| ==> begin + sibs[j].code < |check|)
    && (forall j :: 0 <= j < |sibs| ==> check[begin + sibs[j].code] == if j < k then begin else 0)
  }

  /** Checking the slot of sibling k extends the marking by one. */
  lemma MarkStep(keys: seq<seq<byte>>, c0: seq<int>, c: seq<int>, begin: nat, w: seq<byte>, sibs: seq<Sib>, k: nat, next: nat)
    requires Fetched(keys, w, sibs) && k < |sibs| && next == k + 1
    requires Marked(keys, c0, c, begin, w) && MarkedUpTo(c, begin, sibs, k)
    ensures Marked(keys, c0, c[begin + sibs[k].code := begin], begin, w)
    ensures MarkedUpTo(c[begin + sibs[k].code := begin], begin, sibs, next)
  {
    var x := begin + sibs[k].code;
    SibHasCode(keys, w, sibs, k);
    forall j | 0 <= j < |sibs| && j != k
      ensures begin + sibs[j].code != x
    {
      if j < k {
        CodesIncreasing(sibs, j, k);
      } else {
        CodesIncreasing(sibs, k, j);
      }
    }
  }

  /** Claiming a free block at begin for node w, with all its slots marked,
      keeps the blocks. */
  lemma ClaimBlocks(keys: seq<seq<byte>>, base: seq<int>, c0: seq<int>, u0: seq<bool>, c1: seq<int>,
                    nodeAt: map<int, seq<byte>>, done: set<int>, m0: nat, m1: nat, begin: nat, w: seq<byte>, sibs: seq<Sib>)
    requires Blocks(keys, base, c0, u0, nodeAt, done, m0) && Fetched(keys, w, sibs)
    requires 1 <= begin < |u0| && !u0[begin] && m0 <= m1 && begin + sibs[|sibs| - 1].code < m1
    requires Marked(keys, c0, c1, begin, w)
    requires forall k :: 0 <= k < |sibs| ==> begin + sibs[k].code < |c1| && c1[begin + sibs[k].code] == begin
    ensures Blocks(keys, base, c1, u0[begin := true], nodeAt[begin := w], done, m1)
  {
    var n := nodeAt[begin := w];
    assert begin !in nodeAt;
    forall b, x | InBlock(keys, n, b, x)
      ensures 0 <= x < m1 && x < |c1| && c1[x] == b
    {
      if b == begin {
        var k := CodeIsSib(keys, w, sibs, x - b);
        CodesBetween(sibs);
      } else {
        assert InBlock(keys, nodeAt, b, x);
      }
    }
    forall x | 0 <= x < |c1| && c1[x] != 0
      ensures InBlock(keys, n, c1[x], x)
    {
      if c1[x] == c0[x] {
        assert InBlock(keys, nodeAt, c0[x], x);
      }
    }
    forall b, x | b in done && InBlock(keys, n, b, x)
      ensures 0 <= x < |base| && (x == b ==> base[b] < 0)
              && (x != b ==> base[x] in done && base[x] in n && IsChild(n[base[x]], n[b], x - b))
    {
      assert InBlock(keys, nodeAt, b, x);
    }
  }

  /** The slot of code c in the block at b of the node w has its base:
      negative for the end of a key, the begin of the done block of the
      child otherwise. */
  ghost predicate Wired(base: seq<int>, nodeAt: map<int, seq<byte>>, done: set<int>, b: nat, w: seq<byte>, c: nat)
  {
    b + c < |base|
    && (c == 0 ==> base[b] < 0)
    && (c != 0 ==> base[b + c] in done && base[b + c] in nodeAt && IsChild(nodeAt[base[b + c]], w, c))
  }

  /** Writing the base of a slot whose block is not done keeps the
      blocks. */
  lemma BaseWriteKeeps(keys: seq<seq<byte>>, base: seq<int>, check: seq<int>, used: seq<bool>,
                       nodeAt: map<int, seq<byte>>, done: set<int>, m: nat, b: int, x: nat, v: int)
    requires Blocks(keys, base, check, used, nodeAt, done, m) && x < |base| && x < |check| && check[x] == b && b !in done
    ensures Blocks(keys, base[x := v], check, used, nodeAt, done, m)
  {
    forall b', y | b' in done && InBlock(keys, nodeAt, b', y)
      ensures y != x
    {
    }
  }

  /** A block all of whose siblings' slots are wired can join done. */
  lemma BlockDone(keys: seq<seq<byte>>, base: seq<int>, check: seq<int>, used: seq<bool>,
                  nodeAt: map<int, seq<byte>>, done: set<int>, m: nat, b: nat, w: seq<byte>, sibs: seq<Sib>)
    requires Blocks(keys, base, check, used, nodeAt, done, m) && b in nodeAt && nodeAt[b] == w && Fetched(keys, w, sibs)
    requires forall k :: 0 <= k < |sibs| ==> Wired(base, nodeAt, done, b, w, sibs[k].code)
    ensures Blocks(keys, base, check, used, nodeAt, done + {b}, m)
  {
    forall b', x | b' in done + {b} && InBlock(keys, nodeAt, b', x)
      ensures 0 <= x < |base| && (x == b' ==> base[b'] < 0)
              && (x != b' ==> base[x] in done + {b} && base[x] in nodeAt && IsChild(nodeAt[base[x]], nodeAt[b'], x - b'))
    {
      if b' == b {
        var k := CodeIsSib(keys, w, sibs, x - b);
        assert Wired(base, nodeAt, done, b, w, sibs[k].code);
      }
    }
  }

  /** The range of a sibling of the node w passes the assertion of
      `fetch` one level down. */
  lemma ChildAscending(keys: seq<seq<byte>>, w: seq<byte>, sibs: seq<Sib>, k: nat)
    requires Sorted(keys) && Fetched(keys, w, sibs) && k < |sibs|
    ensures sibs[k].left <= sibs[k].right <= |keys| && Ascending(keys, sibs[k].depth, sibs[k].left, sibs[k].right)
  {
    assert Group(keys, |w|, sibs[k]);
    if sibs[k].code == 0 {
      EndSpan(keys, w, sibs, k);
    } else {
      ChildSpan(keys, w, sibs, k);
      SpanAscending(keys, Child(w, sibs[k].code), sibs[k].left, sibs[k].right);
    }
  }

  /** One level down, `fetch` finds nothing exactly for the end of a key,
      and otherwise the siblings of the child. */
  lemma ChildFetch(keys: seq<seq<byte>>, w: seq<byte>, sibs: seq<Sib>, k: nat, news: seq<Sib>)
    requires Fetched(keys, w, sibs) && k < |sibs| && FetchOf(keys, sibs[k], news)
    ensures news == [] <==> sibs[k].code == 0
    ensures news != [] ==> Fetched(keys, Child(w, sibs[k].code), news) && |w| + 1 <= Longest(keys)
  {
    var n := sibs[k];
    assert Group(keys, |w|, n);
    if n.code == 0 {
      EndSpan(keys, w, sibs, k);
    } else {
      var v := Child(w, n.code);
      ChildSpan(keys, w, sibs, k);
      assert v <= keys[n.left];
      FetchedSpan(keys, v, n, news);
    }
  }

  /** Marking a block keeps every slot, its base untouched. */
  lemma MarkedKept(keys: seq<seq<byte>>, base: seq<int>, c0: seq<int>, c1: seq<int>, begin: nat, w: seq<byte>)
    requires Marked(keys, c0, c1, begin, w) && |base| == |c0|
    ensures Kept(base, c0, base, c1, 0)
  {
  }

  /** Two steps that each skip the block at skip or none keep all but
      that block. */
  lemma KeptThen(b0: seq<int>, c0: seq<int>, b1: seq<int>, c1: seq<int>, b2: seq<int>, c2: seq<int>,
                 skip1: int, skip2: int, skip: int)
    requires Kept(b0, c0, b1, c1, skip1) && Kept(b1, c1, b2, c2, skip2)
    requires (skip1 == 0 || skip1 == skip) && (skip2 == 0 || skip2 == skip)
    ensures Kept(b0, c0, b2, c2, skip)
  {
  }

  /** Wired slots stay wired when their slots keep their base and the
      nodes and done blocks only grow. */
  lemma WiredKept(b0: seq<int>, c0: seq<int>, n0: map<int, seq<byte>>, d0: set<int>,
                  b1: seq<int>, c1: seq<int>, n1: map<int, seq<byte>>, d1: set<int>,
                  begin: nat, w: seq<byte>, sibs: seq<Sib>, k: nat)
    requires Kept(b0, c0, b1, c1, 0) && d0 <= d1 && begin >= 1 && k <= |sibs|
    requires forall b :: b in n0 ==> b in n1 && n1[b] == n0[b]
    requires forall j :: 0 <= j < k ==> Wired(b0, n0, d0, begin, w, sibs[j].code) && c0[begin + sibs[j].code] == begin
    ensures forall j :: 0 <= j < k ==> Wired(b1, n1, d1, begin, w, sibs[j].code)
  {
    forall j | 0 <= j < k
      ensures Wired(b1, n1, d1, begin, w, sibs[j].code)
    {
      assert Wired(b0, n0, d0, begin, w, sibs[j].code);
    }
  }

  /** Cutting the arrays to the used size keeps the blocks, all done, as
      an encoding of the trie. */
  lemma CutEncodes(keys: seq<seq<byte>>, base: seq<int>, check: seq<int>, used: seq<bool>,
                   nodeAt: map<int, seq<byte>>, m: nat)
    requires Blocks(keys, base, check, used, nodeAt, nodeAt.Keys, m) && |base| == |check| && m <= |check|
    ensures Encodes(DATrie(Resized(base, m, 0), Resized(check, m, 0)), keys, nodeAt)
  {
    var d := DATrie(Resized(base, m, 0), Resized(check, m, 0));
    forall x | 0 <= x < |d.check| && d.check[x] != 0
      ensures InBlock(keys, nodeAt, d.check[x], x)
    {
      assert d.check[x] == check[x];
    }
  }

  /** `Builder`: the keys, the growing arrays, the first slot to try, the
      allocated and the used size, and the number of keys placed.  nodeAt
      names the trie node whose block begins at each begin handed out so
      far; done holds those whose children have all been placed. */
  class Builder {
    const keys: seq<seq<byte>>
    var base: seq<int>
    var check: seq<int>
    var used: seq<bool>
    var nextCheck: nat
    var allocSize: nat
    var maxSize: nat
    var progress: nat
    ghost var nodeAt: map<int, seq<byte>>
    ghost var done: set<int>

    /** The arrays agree in length, the root's state is 1, every begin is
        marked used, and the blocks are placed, owned and, when done,
        linked. */
    ghost predicate Valid()
      reads this
    {
      Shape() && Blocks(keys, base, check, used, nodeAt, done, maxSize)
    }

    /** The arrays agree in length, the used size is within the allocated
        one, and the root's state is 1. */
    ghost predicate Shape()
      reads this
    {
      |base| == |check| == |used| == allocSize && 0 < maxSize <= allocSize && nextCheck < allocSize
      && base[0] == 1 && check[0] == 0
    }

    /** No slot is checked and no begin is used yet. */
    ghost predicate Fresh()
      reads this
    {
      ClearFrom(check, used, 0)
    }

    /** `Builder::new`. */
    constructor (keys: seq<seq<byte>>)
      ensures Valid() && Fresh() && this.keys == keys && nodeAt == map[] && done == {}
      ensures nextCheck == 0 && allocSize == 1 && maxSize == 1 && progress == 0
    {
      this.keys := keys;
      base := [1];
      check := [0];
      used := [false];
      nextCheck := 0;
      allocSize := 1;
      maxSize := 1;
      progress := 0;
      nodeAt := map[];
      done := {};
    }

    /** `fetch`: the keys of parent's range that reach its depth, grouped by
        their code there.  The source asserts that the codes never go
        down, which the caller guarantees. */
    method Fetch(parent: Sib) returns (sibs: seq<Sib>)
      requires parent.left <= parent.right <= |keys|
      requires Ascending(keys, parent.depth, parent.left, parent.right)
      ensures FetchOf(keys, parent, sibs)
    {
      var d := parent.depth;
      var prev: nat := 0;
      ghost var last: nat := 0;
      sibs := [];
      var i := parent.left;
      while i < parent.right
        invariant Fetching(keys, parent, sibs, i, prev, last)
      {
        var key := keys[i];
        var next := i + 1;
        if |key| >= d {
          var cur := Code(key, d);
          FetchAscends(keys, parent, sibs, i, prev, last);
          assert cur >= prev;
          if cur > prev || sibs == [] {
            var n := Sib(cur, d + 1, i, 0);
            FetchPush(keys, parent, sibs, i, prev, last, cur, n, next);
            sibs := Closed(sibs, i) + [n];
          } else {
            FetchSame(keys, parent, sibs, i, prev, last, cur, next);
          }
          prev := cur;
          last := i;
        } else {
          FetchSkip(keys, parent, sibs, i, prev, last, next);
        }
        i := next;
      }
      FetchDone(keys, parent, sibs, i, prev, last);
      sibs := Closed(sibs, parent.right);
    }

    /** `resize`: a size below the allocated one changes nothing; otherwise
        the three arrays are padded to newSize with 0 and false. */
    method Resize(newSize: nat)
      requires Shape()
      modifies this
      ensures Shape() && allocSize == Max(old(allocSize), newSize)
      ensures Extended(old(base), old(check), old(used), base, check, used)
      ensures nextCheck == old(nextCheck) && maxSize == old(maxSize) && progress == old(progress)
      ensures nodeAt == old(nodeAt) && done == old(done)
    {
      if newSize < allocSize {
        return;
      }
      base := Resized(base, newSize, 0);
      check := Resized(check, newSize, 0);
      used := Resized(used, newSize, false);
      allocSize := newSize;
    }

    /** The second half of a round of the search loop of `insert`, at
        begin: the arrays grow when the last sibling's slot is not below the
        allocated size, and the round fits when begin is unused and every
        other sibling's slot is free.  The growth is the source's factor,
        or with fixGrowth at least enough for the last slot; without that, a
        slot past the end is the source's panic.  When no slot from begin
        on is in use (clear), the round is never taken. */
    method Place(sibs: seq<Sib>, begin: nat, fixGrowth: bool, ghost clear: bool) returns (t: Try)
      requires Shape() && 0 < |sibs| && (forall k :: 0 < k < |sibs| ==> Abut(sibs, k))
      requires begin + sibs[0].code < allocSize && check[begin + sibs[0].code] == 0
      requires clear ==> ClearFrom(check, used, begin)
      modifies this
      ensures Shape() && Extended(old(base), old(check), old(used), base, check, used)
      ensures nextCheck == old(nextCheck) && maxSize == old(maxSize) && progress == old(progress)
      ensures nodeAt == old(nodeAt) && done == old(done)
      ensures t != Taken ==> !used[begin]
      ensures t == Fits ==> forall k :: 0 <= k < |sibs| ==>
                begin + sibs[k].code < allocSize && check[begin + sibs[k].code] == 0
      ensures fixGrowth ==> t != Overflows
      ensures clear ==> t != Taken
      ensures allocSize == Grown(old(allocSize), begin + sibs[|sibs| - 1].code, |keys|, progress, fixGrowth)
      ensures clear ==> (t == Overflows <==> begin + sibs[|sibs| - 1].code >= allocSize)
    {
      var top := begin + sibs[|sibs| - 1].code;
      ghost var b0, c0, u0 := base, check, used;
      Widen(top, fixGrowth);
      if clear {
        ExtendedClear(b0, c0, u0, base, check, used, begin);
        assert !used[begin];
        if |sibs| > 1 {
          SlotsClear(check, begin, sibs, 1);
        }
      }
      if top < allocSize {
        SlotsInRange(check, begin, sibs, 1);
      }
      if used[begin] {
        return Taken;
      }
      var free := SlotsFree(check, begin, sibs, 1);
      t := match free
        case None => Overflows
        case Some(ok) => if ok then Fits else Taken;
    }

    /** The growth step of `insert` when the last sibling's slot top is not
        below the allocated size: the source's factor, or with fix at least
        top + 1. */
    method Widen(top: nat, fix: bool)
      requires Shape()
      modifies this
      ensures Shape() && Extended(old(base), old(check), old(used), base, check, used)
      ensures nextCheck == old(nextCheck) && maxSize == old(maxSize) && progress == old(progress)
      ensures nodeAt == old(nodeAt) && done == old(done)
      ensures allocSize == Grown(old(allocSize), top, |keys|, progress, fix)
      ensures fix ==> top < allocSize
    {
      if allocSize <= top {
        var g := Grow(allocSize, |keys|, progress);
        Resize(if fix then Max(g, top + 1) else g);
      }
    }

    /** One round of the search loop of `insert` at position pos (already
        advanced): grow to hold pos; an occupied slot counts as a hit;
        otherwise the first free position seen becomes `next_check`, begin
        is pos less the first code, and the rest of the round is Place. */
    method Probe(sibs: seq<Sib>, pos: nat, more: bool, fixGrowth: bool, ghost clear: bool)
        returns (t: Try, begin: nat, hit: bool, more': bool)
      requires Shape() && 0 < |sibs| && (forall k :: 0 < k < |sibs| ==> Abut(sibs, k)) && sibs[0].code < pos
      requires more ==> nextCheck < pos
      requires clear ==> ClearFrom(check, used, pos - sibs[0].code)
      modifies this
      ensures Shape() && old(allocSize) <= allocSize && pos < allocSize
      ensures Extended(old(base), old(check), old(used), base, check, used)
      ensures maxSize == old(maxSize) && progress == old(progress) && nodeAt == old(nodeAt) && done == old(done)
      ensures hit == (check[pos] != 0) && (hit ==> t == Taken)
      ensures more' == (more || !hit) && nextCheck == (if more || hit then old(nextCheck) else pos)
      ensures begin == pos - sibs[0].code && (t != Taken ==> !used[begin])
      ensures t == Fits ==> forall k :: 0 <= k < |sibs| ==>
                begin + sibs[k].code < allocSize && check[begin + sibs[k].code] == 0
      ensures fixGrowth ==> t != Overflows
      ensures clear ==> t != Taken
      ensures clear ==> allocSize == Grown(Max(old(allocSize), pos + 1), begin + sibs[|sibs| - 1].code, |keys|, progress, fixGrowth)
      ensures clear ==> (t == Overflows <==> begin + sibs[|sibs| - 1].code >= allocSize)
    {
      more' := more;
      hit := false;
      begin := pos - sibs[0].code;
      ghost var b0, c0, u0 := base, check, used;
      if allocSize <= pos {
        Resize(pos + 1);
      }
      if check[pos] != 0 {
        hit := true;
        return Taken, begin, hit, more';
      } else if !more {
        nextCheck := pos;
        more' := true;
      }
      ghost var b1, c1, u1 := base, check, used;
      if clear {
        ExtendedClear(b0, c0, u0, b1, c1, u1, begin);
      }
      t := Place(sibs, begin, fixGrowth, clear);
      ExtendedTrans(b0, c0, u0, b1, c1, u1, base, check, used);
    }

    /** The search loop of `insert`, with the growth corrected: from the
        larger of `next_check` and the first code plus one, the first
        position pos whose round fits, with begin = pos less the first code
        and the number of occupied positions seen on the way. */
    method Search(sibs: seq<Sib>) returns (begin: nat, pos: nat, nonzero: nat)
      requires Shape() && |sibs| > 0 && forall k :: 0 < k < |sibs| ==> Abut(sibs, k)
      modifies this
      ensures Shape() && Extended(old(base), old(check), old(used), base, check, used)
      ensures maxSize == old(maxSize) && progress == old(progress) && nodeAt == old(nodeAt) && done == old(done)
      ensures begin == pos - sibs[0].code && 1 <= begin < allocSize && !used[begin] && nextCheck <= pos
      ensures forall k :: 0 <= k < |sibs| ==> begin + sibs[k].code < allocSize && check[begin + sibs[k].code] == 0
      ensures old(Fresh()) ==> Fresh() && pos == Max(old(nextCheck), sibs[0].code + 1)
    {
      var code0 := sibs[0].code;
      pos := Max(nextCheck, code0 + 1) - 1;
      nonzero := 0;
      var more := false;
      ghost var alloc0, b0, c0, u0 := allocSize, base, check, used;
      ghost var pos0 := pos;
      ghost var clean := Fresh();
      while true
        invariant Shape() && Extended(b0, c0, u0, base, check, used) && code0 <= pos <= alloc0 + code0
        invariant maxSize == old(maxSize) && progress == old(progress) && nodeAt == old(nodeAt) && done == old(done)
        invariant ClearFrom(check, used, alloc0)
        invariant more ==> nextCheck <= pos
        invariant clean ==> Fresh() && pos == pos0
        decreases alloc0 + code0 - pos
      {
        pos := pos + 1;
        ghost var b1, c1, u1 := base, check, used;
        var t, hit;
        ghost var clear := clean || pos - code0 >= alloc0;
        t, begin, hit, more := Probe(sibs, pos, more, true, clear);
        ExtendedTrans(b0, c0, u0, b1, c1, u1, base, check, used);
        if clean {
          ExtendedClear(b1, c1, u1, base, check, used, 0);
        }
        if hit {
          nonzero := nonzero + 1;
        }
        if t == Fits {
          break;
        }
      }
    }

    /** The search loop of `insert` as written: the growth when the last
        sibling's slot is not below the allocated size is only the
        source's factor, which can leave that slot past the end; the check
        of the other siblings' slots then indexes out of range, a panic
        (None).  Otherwise the begin of the first position that fits. */
    method SearchAsWritten(sibs: seq<Sib>) returns (r: Option<nat>)
      requires Shape() && |sibs| > 0 && forall k :: 0 < k < |sibs| ==> Abut(sibs, k)
      modifies this
      ensures Shape() && Extended(old(base), old(check), old(used), base, check, used)
      ensures r.Some? ==> 1 <= r.value < allocSize && !used[r.value]
      ensures r.Some? ==> forall k :: 0 <= k < |sibs| ==> r.value + sibs[k].code < allocSize && check[r.value + sibs[k].code] == 0
      ensures old(Fresh()) ==>
                var pos := Max(old(nextCheck), sibs[0].code + 1);
                var top := pos - sibs[0].code + sibs[|sibs| - 1].code;
                (r == None <==> top >= Grown(Max(old(allocSize), pos + 1), top, |keys|, old(progress), false))
    {
      var code0 := sibs[0].code;
      var pos: nat := Max(nextCheck, code0 + 1) - 1;
      var more := false;
      ghost var alloc0, b0, c0, u0 := allocSize, base, check, used;
      ghost var clean := Fresh();
      while true
        invariant Shape() && Extended(b0, c0, u0, base, check, used) && code0 <= pos <= alloc0 + code0
        invariant progress == old(progress) && ClearFrom(check, used, alloc0)
        invariant more ==> nextCheck <= pos
        invariant clean ==> Fresh() && allocSize == old(allocSize) && pos == Max(old(nextCheck), code0 + 1) - 1
        decreases alloc0 + code0 - pos
      {
        pos := pos + 1;
        ghost var b1, c1, u1 := base, check, used;
        var t, begin, hit;
        ghost var clear := clean || pos - code0 >= alloc0;
        t, begin, hit, more := Probe(sibs, pos, more, false, clear);
        ExtendedTrans(b0, c0, u0, b1, c1, u1, base, check, used);
        if t == Overflows {
          return None;
        }
        if t == Fits {
          return Some(begin);
        }
      }
    }

    /** The search of `insert` followed by its heuristic: `next_check`
        moves to the position found when at least 95% of the positions
        tried were occupied.  Returns begin, whose slots are all free. */
    method FindBegin(sibs: seq<Sib>) returns (begin: nat)
      requires Valid() && |sibs| > 0 && forall k :: 0 < k < |sibs| ==> Abut(sibs, k)
      modifies this
      ensures Valid() && 1 <= begin < allocSize && !used[begin]
      ensures forall k :: 0 <= k < |sibs| ==> begin + sibs[k].code < allocSize && check[begin + sibs[k].code] == 0
      ensures Extended(old(base), old(check), old(used), base, check, used)
      ensures maxSize == old(maxSize) && progress == old(progress) && nodeAt == old(nodeAt) && done == old(done)
      ensures old(Fresh()) ==> Fresh() && begin == Max(old(nextCheck), sibs[0].code + 1) - sibs[0].code
    {
      var pos, nonzero;
      begin, pos, nonzero := Search(sibs);
      if nonzero * 100 >= 95 * (pos - nextCheck + 1) {
        nextCheck := pos;
      }
      ExtendedBlocks(keys, old(base), old(check), old(used), base, check, used, nodeAt, done, maxSize);
    }

    /** The loop of `insert` that checks every sibling's slot with begin,
        for the node w. */
    method Mark(begin: nat, sibs: seq<Sib>, ghost w: seq<byte>)
      requires Shape() && Fetched(keys, w, sibs) && 1 <= begin
      requires forall k :: 0 <= k < |sibs| ==> begin + sibs[k].code < |check| && check[begin + sibs[k].code] == 0
      modifies this`check
      ensures Shape() && Marked(keys, old(check), check, begin, w)
      ensures forall k :: 0 <= k < |sibs| ==> check[begin + sibs[k].code] == begin
    {
      ghost var c0 := check;
      var k := 0;
      while k < |sibs|
        invariant k <= |sibs| && Shape() && Marked(keys, c0, check, begin, w) && MarkedUpTo(check, begin, sibs, k)
      {
        var x := begin + sibs[k].code;
        var next := k + 1;
        MarkStep(keys, c0, check, begin, w, sibs, k, next);
        check := check[x := begin];
        k := next;
      }
    }

    /** `insert` after the search: begin is marked used, the used size
        covers the last sibling's slot, and every sibling's slot is checked
        with begin, which becomes the block of the node w. */
    method Claim(begin: nat, sibs: seq<Sib>, ghost w: seq<byte>)
      requires Valid() && Fetched(keys, w, sibs) && 1 <= begin < allocSize && !used[begin]
      requires forall k :: 0 <= k < |sibs| ==> begin + sibs[k].code < allocSize && check[begin + sibs[k].code] == 0
      modifies this`used, this`maxSize, this`check, this`nodeAt
      ensures Valid() && begin !in old(nodeAt) && nodeAt == old(nodeAt)[begin := w]
      ensures used == old(used)[begin := true] && maxSize == Max(old(maxSize), begin + sibs[|sibs| - 1].code + 1)
      ensures Marked(keys, old(check), check, begin, w)
      ensures forall k :: 0 <= k < |sibs| ==> check[begin + sibs[k].code] == begin
    {
      ghost var c0, u0, m0 := check, used, maxSize;
      used := used[begin := true];
      maxSize := Max(maxSize, begin + sibs[|sibs| - 1].code + 1);
      Mark(begin, sibs, w);
      ClaimBlocks(keys, base, c0, u0, check, nodeAt, done, m0, maxSize, begin, w, sibs);
      nodeAt := nodeAt[begin := w];
    }

    /** One round of the loop of `insert` over the siblings once their
        slots are claimed: a sibling whose range holds no longer key is the
        end of a key, and its slot's base becomes -1 - left (one more key
        placed); any other is the child w + [code - 1], inserted in turn,
        and its slot's base becomes the child's begin. */
    method PlaceChild(begin: nat, sibs: seq<Sib>, k: nat, ghost w: seq<byte>, ghost next: nat)
      requires Valid() && Sorted(keys) && Fetched(keys, w, sibs) && |w| <= Longest(keys) && k < |sibs| && next == k + 1
      requires begin in nodeAt && nodeAt[begin] == w && begin !in done
      requires forall j :: 0 <= j < |sibs| ==> begin + sibs[j].code < |check| && check[begin + sibs[j].code] == begin
      requires forall j :: 0 <= j < k ==> Wired(base, nodeAt, done, begin, w, sibs[j].code)
      modifies this
      decreases Longest(keys) - |w|, 1
      ensures Valid() && begin in nodeAt && nodeAt[begin] == w && begin !in done
      ensures forall j :: 0 <= j < |sibs| ==> begin + sibs[j].code < |check| && check[begin + sibs[j].code] == begin
      ensures forall j :: 0 <= j < next ==> Wired(base, nodeAt, done, begin, w, sibs[j].code)
      ensures forall b :: b in old(nodeAt) ==> b in nodeAt && nodeAt[b] == old(nodeAt)[b]
      ensures old(done) <= done && nodeAt.Keys - done == old(nodeAt.Keys - done)
      ensures Kept(old(base), old(check), base, check, begin)
    {
      var n := sibs[k];
      ChildAscending(keys, w, sibs, k);
      var news := Fetch(n);
      ChildFetch(keys, w, sibs, k, news);
      if news == [] {
        EndKey(begin, sibs, k, w, next);
      } else {
        PlaceInner(begin, sibs, k, w, next, news);
      }
    }

    /** An inner sibling in `insert`: the child w + [code - 1] is
        inserted with its siblings news, and the slot's base becomes the
        child's begin. */
    method PlaceInner(begin: nat, sibs: seq<Sib>, k: nat, ghost w: seq<byte>, ghost next: nat, news: seq<Sib>)
      requires Valid() && Sorted(keys) && Fetched(keys, w, sibs) && k < |sibs| && next == k + 1 && sibs[k].code != 0
      requires Fetched(keys, Child(w, sibs[k].code), news) && |w| + 1 <= Longest(keys)
      requires begin in nodeAt && nodeAt[begin] == w && begin !in done
      requires forall j :: 0 <= j < |sibs| ==> begin + sibs[j].code < |check| && check[begin + sibs[j].code] == begin
      requires forall j :: 0 <= j < k ==> Wired(base, nodeAt, done, begin, w, sibs[j].code)
      modifies this
      decreases Longest(keys) - |w|, 0
      ensures Valid() && begin in nodeAt && nodeAt[begin] == w && begin !in done
      ensures forall j :: 0 <= j < |sibs| ==> begin + sibs[j].code < |check| && check[begin + sibs[j].code] == begin
      ensures forall j :: 0 <= j < next ==> Wired(base, nodeAt, done, begin, w, sibs[j].code)
      ensures forall b :: b in old(nodeAt) ==> b in nodeAt && nodeAt[b] == old(nodeAt)[b]
      ensures old(done) <= done && nodeAt.Keys - done == old(nodeAt.Keys - done)
      ensures Kept(old(base), old(check), base, check, begin)
    {
      ghost var b1, c1, n1, d1 := base, check, nodeAt, done;
      var h := Insert(news, Child(w, sibs[k].code));
      WiredKept(b1, c1, n1, d1, base, check, nodeAt, done, begin, w, sibs, k);
      ghost var b2, c2 := base, check;
      SetBase(begin, sibs, k, w, next, h);
      KeptThen(b1, c1, b2, c2, base, check, 0, begin, begin);
    }

    /** The end of a key in `insert`: the slot's base becomes -1 - left,
        and one more key is placed. */
    method EndKey(begin: nat, sibs: seq<Sib>, k: nat, ghost w: seq<byte>, ghost next: nat)
      requires Valid() && Fetched(keys, w, sibs) && k < |sibs| && next == k + 1 && sibs[k].code == 0
      requires begin in nodeAt && nodeAt[begin] == w && begin !in done
      requires forall j :: 0 <= j < |sibs| ==> begin + sibs[j].code < |check| && check[begin + sibs[j].code] == begin
      requires forall j :: 0 <= j < k ==> Wired(base, nodeAt, done, begin, w, sibs[j].code)
      modifies this`base, this`progress
      ensures Valid() && base == old(base)[begin := -1 - sibs[k].left] && progress == old(progress) + 1
      ensures Kept(old(base), check, base, check, begin)
      ensures forall j :: 0 <= j < next ==> Wired(base, nodeAt, done, begin, w, sibs[j].code)
    {
      SetBase(begin, sibs, k, w, next, -1 - sibs[k].left);
      progress := progress + 1;
    }

    /** The write of a sibling's base in `insert`: v, negative for the end
        of a key, the begin of the done block of the child otherwise. */
    method SetBase(begin: nat, sibs: seq<Sib>, k: nat, ghost w: seq<byte>, ghost next: nat, v: int)
      requires Valid() && Fetched(keys, w, sibs) && k < |sibs| && next == k + 1
      requires begin in nodeAt && nodeAt[begin] == w && begin !in done
      requires forall j :: 0 <= j < |sibs| ==> begin + sibs[j].code < |check| && check[begin + sibs[j].code] == begin
      requires forall j :: 0 <= j < k ==> Wired(base, nodeAt, done, begin, w, sibs[j].code)
      requires sibs[k].code == 0 ==> v < 0
      requires sibs[k].code != 0 ==> v in done && v in nodeAt && nodeAt[v] == Child(w, sibs[k].code)
      modifies this`base
      ensures Valid() && base == old(base)[begin + sibs[k].code := v]
      ensures Kept(old(base), check, base, check, begin)
      ensures forall j :: 0 <= j < next ==> Wired(base, nodeAt, done, begin, w, sibs[j].code)
    {
      var x := begin + sibs[k].code;
      forall j | 0 <= j < k
        ensures begin + sibs[j].code != x
      {
        CodesIncreasing(sibs, j, k);
      }
      BaseWriteKeeps(keys, base, check, used, nodeAt, done, maxSize, begin, x, v);
      base := base[x := v];
    }

    /** The loop of `insert` over the siblings once their slots are
        claimed, one PlaceChild each; the block of w is then done. */
    method PlaceChildren(begin: nat, sibs: seq<Sib>, ghost w: seq<byte>)
      requires Valid() && Sorted(keys) && Fetched(keys, w, sibs) && |w| <= Longest(keys)
      requires begin in nodeAt && nodeAt[begin] == w && begin !in done
      requires forall k :: 0 <= k < |sibs| ==> begin + sibs[k].code < |check| && check[begin + sibs[k].code] == begin
      modifies this
      decreases Longest(keys) - |w|, 2
      ensures Valid() && begin in done && old(done) <= done
      ensures forall b :: b in old(nodeAt) ==> b in nodeAt && nodeAt[b] == old(nodeAt)[b]
      ensures nodeAt.Keys - done == old(nodeAt.Keys - done) - {begin}
      ensures Kept(old(base), old(check), base, check, begin)
    {
      ghost var b0, c0, n0, d0 := base, check, nodeAt, done;
      var k := 0;
      while k < |sibs|
        invariant k <= |sibs| && Valid() && begin in nodeAt && nodeAt[begin] == w && begin !in done
        invariant forall j :: 0 <= j < |sibs| ==> begin + sibs[j].code < |check| && check[begin + sibs[j].code] == begin
        invariant forall j :: 0 <= j < k ==> Wired(base, nodeAt, done, begin, w, sibs[j].code)
        invariant Kept(b0, c0, base, check, begin)
        invariant forall b :: b in n0 ==> b in nodeAt && nodeAt[b] == n0[b]
        invariant d0 <= done && nodeAt.Keys - done == n0.Keys - d0
      {
        var next := k + 1;
        ghost var b1, c1 := base, check;
        PlaceChild(begin, sibs, k, w, next);
        KeptThen(b0, c0, b1, c1, base, check, begin, begin, begin);
        k := next;
      }
      BlockDone(keys, base, check, used, nodeAt, done, maxSize, begin, w, sibs);
      done := done + {begin};
    }

    /** `insert`: the block of the node w is searched for, claimed, and
        its children placed; returns begin. */
    method Insert(sibs: seq<Sib>, ghost w: seq<byte>) returns (begin: nat)
      requires Valid() && Sorted(keys) && Fetched(keys, w, sibs) && |w| <= Longest(keys)
      modifies this
      decreases Longest(keys) - |w|, 3
      ensures Valid() && begin !in old(nodeAt) && begin in nodeAt && nodeAt[begin] == w && begin in done
      ensures forall b :: b in old(nodeAt) ==> b in nodeAt && nodeAt[b] == old(nodeAt)[b]
      ensures old(done) <= done && nodeAt.Keys - done == old(nodeAt.Keys - done)
      ensures Kept(old(base), old(check), base, check, 0)
      ensures old(Fresh()) ==> begin == Max(old(nextCheck), sibs[0].code + 1) - sibs[0].code
    {
      ghost var b0, c0, n0 := base, check, nodeAt;
      begin := FindBegin(sibs);
      ExtendedKept(b0, c0, old(used), base, check, used);
      ghost var b1, c1 := base, check;
      Claim(begin, sibs, w);
      MarkedKept(keys, base, c1, check, begin, w);
      KeptTrans(b0, c0, b1, c1, base, check, 0);
      ghost var b2, c2 := base, check;
      PlaceChildren(begin, sibs, w);
      forall x | 0 <= x < |c0|
        ensures c0[x] != begin || c0[x] == 0
      {
        if c0[x] != 0 {
          assert InBlock(keys, n0, c0[x], x);
        }
      }
      KeptTrans(b0, c0, b2, c2, base, check, begin);
    }

    /** `into_datrie`: base and check cut to the used size, once every
        block is done. */
    function IntoDatrie(): (d: DATrie)
      reads this
      requires Valid() && done == nodeAt.Keys
      ensures Encodes(d, keys, nodeAt) && |d.base| > 0 && d.base[0] == base[0]
    {
      CutEncodes(keys, base, check, used, nodeAt, maxSize);
      DATrie(Resized(base, maxSize, 0), Resized(check, maxSize, 0))
    }
  }

  /** `build`: the siblings of the root are fetched and inserted from a
      fresh builder, whose block therefore begins at 1, the root state in
      `base[0]`; the result is the trie cut to its used size.  With no keys
      the root has no siblings and `insert` panics reading the first one
      (None).  The search uses the corrected growth (FindBegin). */
  method Build(keys: seq<seq<byte>>) returns (r: Option<DATrie>)
    requires Sorted(keys)
    ensures r == None <==> keys == []
    ensures r.Some? ==> forall key :: Lookup(r.value, key) == Answer(key in keys)
  {
    var b := new Builder(keys);
    var root := Sib(0, 0, 0, |keys|);
    SpanAscending(keys, [], 0, |keys|);
    var sibs := b.Fetch(root);
    assert keys != [] ==> |keys[0]| >= 0;
    if sibs == [] {
      return None;
    }
    assert Span(keys, [], 0, |keys|);
    FetchedSpan(keys, [], root, sibs);
    var begin := b.Insert(sibs, []);
    assert b.nodeAt.Keys - b.done == {};
    assert b.done == b.nodeAt.Keys;
    var d := b.IntoDatrie();
    forall key
      ensures Lookup(d, key) == Answer(key in keys)
    {
      WalkFinds(d, keys, b.nodeAt, 1, key);
      assert [] + key == key;
    }
    r := Some(d);
  }

  /** The keys "0" and "z". */
  function ZeroZedKeys(): (keys: seq<seq<byte>>)
    ensures Sorted(keys)
  {
    [[48], [122]]
  }

  /** Groups start at least one key apart. */
  lemma {:induction false} GroupedLefts(keys: seq<seq<byte>>, d: nat, sibs: seq<Sib>, left: nat, right: nat, k: nat)
    requires Grouped(keys, d, sibs, left, right) && k < |sibs|
    ensures left + k <= sibs[k].left
    decreases k
  {
    if k > 0 {
      GroupedLefts(keys, d, sibs, left, right, k - 1);
      assert Abut(sibs, k);
      assert Group(keys, d, sibs[k - 1]);
    }
  }

  /** The root of "0" and "z" has two siblings, codes 49 and 123. */
  lemma ZeroZedSiblings(sibs: seq<Sib>)
    requires FetchOf(ZeroZedKeys(), Sib(0, 0, 0, 2), sibs)
    ensures |sibs| == 2 && sibs[0].code == 49 && sibs[1].code == 123
  {
    var keys := ZeroZedKeys();
    assert |keys[0]| >= 0 && |keys[1]| >= 0;
    assert Code(keys[0], 0) == 49 && Code(keys[1], 0) == 123;
    assert Group(keys, 0, sibs[0]);
    var m := |sibs| - 1;
    GroupedLefts(keys, 0, sibs, 0, 2, m);
    assert Group(keys, 0, sibs[m]);
    assert Abut(sibs, 1);
    assert Group(keys, 0, sibs[1]);
  }

  /** On a fresh builder for "0" and "z", the search as written grows to 51
      for position 50, then only to 102, while the last sibling's slot is
      124: `insert` panics. */
  lemma ZeroZedAsWritten(sibs: seq<Sib>)
    requires FetchOf(ZeroZedKeys(), Sib(0, 0, 0, 2), sibs)
    ensures |sibs| == 2
    ensures var pos := Max(0, sibs[0].code + 1);
            var top := pos - sibs[0].code + sibs[|sibs| - 1].code;
            top == 124 && Grown(Max(1, pos + 1), top, 2, 0, false) == 102
  {
    ZeroZedSiblings(sibs);
  }

  /** The corrected growth reaches past the last slot for "0" and "z", and
      the built trie holds exactly those two keys. */
  method ZeroZed() returns (d: DATrie)
    ensures Lookup(d, [48]) == Answer(true) && Lookup(d, [122]) == Answer(true)
    ensures Lookup(d, [49]) == Answer(false) && Lookup(d, []) == Answer(false)
  {
    var r := Build(ZeroZedKeys());
    d := r.value;
  }

  /** Key k - 1 comes strictly before key k. */
  ghost predicate Rising(keys: seq<seq<byte>>, k: nat)
    requires 0 < k < |keys|
  {
    LexLess(keys[k - 1], keys[k])
  }

  /** Keys each strictly after the one before are sorted. */
  lemma RisingSorted(keys: seq<seq<byte>>)
    requires forall k :: 0 < k < |keys| ==> Rising(keys, k)
    ensures Sorted(keys)
  {
    forall i, j | 0 <= i < j < |keys|
      ensures LexLe(keys[i], keys[j])
    {
      RisingChain(keys, i, j);
    }
  }

  lemma {:induction false} RisingChain(keys: seq<seq<byte>>, i: nat, j: nat)
    requires forall k :: 0 < k < |keys| ==> Rising(keys, k)
    requires i < j < |keys|
    ensures LexLess(keys[i], keys[j])
    decreases j - i
  {
    assert Rising(keys, j);
    if i + 1 < j {
      RisingChain(keys, i, j - 1);
      LexLessTransitive(keys[i], keys[j - 1], keys[j]);
    }
  }

  /** The dictionary of the source's test, sorted: "AC", "ACE", "ACFF",
      "AD", "CD", "CF", "ZQ". */
  function SampleKeys(): (keys: seq<seq<byte>>)
    ensures Sorted(keys)
  {
    var keys := [[65, 67], [65, 67, 69], [65, 67, 70, 70], [65, 68], [67, 68], [67, 70], [90, 81]];
    assert Rising(keys, 1) && Rising(keys, 2) && Rising(keys, 3) && Rising(keys, 4);
    assert Rising(keys, 5) && Rising(keys, 6);
    RisingSorted(keys);
    keys
  }

  /** The source's test: the trie of the sample dictionary holds "ACFF"
      and not "ZZZ". */
  method BuildSample() returns (d: DATrie)
    ensures Lookup(d, [65, 67, 70, 70]) == Answer(true)
    ensures Lookup(d, [90, 90, 90]) == Answer(false)
  {
    var r := Build(SampleKeys());
    d := r.value;
    assert SampleKeys()[2] == [65, 67, 70, 70];
  }
}
