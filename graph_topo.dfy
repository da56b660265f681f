/** regular/src/graph/topo.rs: topological sorting by Kahn's algorithm and
    by depth-first search. */
module Topo {
  import opened Base
  import opened Graphs

  /** A closed walk of at least one edge. */
  ghost predicate HasCycle(adj: Adj)
  {
    exists p :: IsPath(adj, p) && |p| >= 2 && p[0] == p[|p| - 1]
  }

  /** Every in-neighbour of the vertex at position i occurs before i. */
  ghost predicate PredsBefore(adj: Adj, t: seq<nat>)
  {
    forall i: nat, x: nat :: i < |t| && Edge(adj, x, t[i]) ==> x in t[..i]
  }

  /** w has an in-neighbour that t leaves out. */
  ghost predicate FedFromOutside(adj: Adj, t: seq<nat>, w: nat)
  {
    exists x: nat :: x < |adj| && x !in t && Edge(adj, x, w)
  }

  /** Every vertex that t leaves out has an in-neighbour that t leaves
      out. */
  ghost predicate OutsideClosed(adj: Adj, t: seq<nat>)
  {
    forall w: nat {:trigger FedFromOutside(adj, t, w)} :: w < |adj| && w !in t ==> FedFromOutside(adj, t, w)
  }

  // Counting facts

  lemma {:induction false} OccAtMost(s: seq<nat>, j: nat, w: nat)
    requires j <= |s|
    ensures Occ(s, j, w) <= Count(s, w)
    decreases |s| - j
  {
    if j < |s| {
      OccAtMost(s, j + 1, w);
    }
  }

  /** A value counted at most once sits at one position only. */
  lemma {:induction false} CountedOnce(s: seq<nat>, a: nat, b: nat)
    requires a < |s| && b < |s| && s[a] == s[b] && Count(s, s[a]) <= 1
    ensures a == b
  {
    if a < b {
      OccAtMost(s, b + 1, s[a]);
      OccGrows(s, a + 1, b, s[a]);
    } else if b < a {
      OccAtMost(s, a + 1, s[a]);
      OccGrows(s, b + 1, a, s[a]);
    }
  }

  lemma {:induction false} OccGrows(s: seq<nat>, i: nat, j: nat, w: nat)
    requires 1 <= i <= j <= |s| && s[i - 1] == w
    ensures Occ(s, j, w) >= 1
    decreases j
  {
    if j > i {
      OccGrows(s, i, j - 1, w);
    }
  }

  /** The counts of the values below n, summed. */
  function Total(s: seq<nat>, n: nat): nat
  {
    if n == 0 then 0 else Total(s, n - 1) + Count(s, n - 1)
  }

  lemma {:induction false} TotalSnoc(s: seq<nat>, x: nat, n: nat)
    ensures Total(s + [x], n) == Total(s, n) + if x < n then 1 else 0
  {
    if n > 0 {
      TotalSnoc(s, x, n - 1);
      CountAppend(s, [x], n - 1);
      CountOne(x, n - 1);
    }
  }

  lemma {:induction false} TotalLength(s: seq<nat>, n: nat)
    requires forall i :: 0 <= i < |s| ==> s[i] < n
    ensures Total(s, n) == |s|
  {
    if s == [] {
      assert Total([], n) == 0 by {
        TotalEmpty(n);
      }
    } else {
      var r := s[..|s| - 1];
      assert s == r + [s[|s| - 1]];
      TotalLength(r, n);
      TotalSnoc(r, s[|s| - 1], n);
    }
  }

  lemma {:induction false} TotalEmpty(n: nat)
    ensures Total([], n) == 0
  {
    if n > 0 {
      TotalEmpty(n - 1);
    }
  }

  lemma {:induction false} TotalAtMost(s: seq<nat>, n: nat)
    requires forall w: nat :: Count(s, w) <= 1
    ensures Total(s, n) <= n
  {
    if n > 0 {
      TotalAtMost(s, n - 1);
    }
  }

  /** A sequence of values below n, none repeated, has at most n entries. */
  lemma CountBound(s: seq<nat>, n: nat)
    requires forall i :: 0 <= i < |s| ==> s[i] < n
    requires forall w: nat :: Count(s, w) <= 1
    ensures |s| <= n
  {
    TotalLength(s, n);
    TotalAtMost(s, n);
  }

  // Cycles

  /** If every vertex outside t has an in-neighbour outside t, and some
      vertex is outside t, then walking back from it must close a cycle:
      p is the walk so far, without repeats, ending at a vertex outside t. */
  lemma {:induction false} WalkBack(adj: Adj, t: seq<nat>, p: seq<nat>)
    requires OutsideClosed(adj, t)
    requires IsPath(adj, p) && forall i :: 0 <= i < |p| ==> p[i] < |adj| && p[i] !in t
    requires forall w: nat :: Count(p, w) <= 1
    ensures HasCycle(adj)
    decreases |adj| - |p|
  {
    assert FedFromOutside(adj, t, p[0]);
    var x: nat :| x < |adj| && x !in t && Edge(adj, x, p[0]);
    if x in p {
      var k :| 0 <= k < |p| && p[k] == x;
      var c := [x] + p[..k + 1];
      forall i | 0 <= i < |c| - 1 ensures StepAt(adj, c, i) {
        if i > 0 {
          assert StepAt(adj, p, i - 1);
        }
      }
      assert IsPath(adj, c) && c[|c| - 1] == p[k];
    } else {
      var p' := [x] + p;
      forall w: nat ensures Count(p', w) <= 1 {
        CountAppend([x], p, w);
        CountOne(x, w);
        CountPositive(p, x);
      }
      forall i | 0 <= i < |p'| - 1 ensures StepAt(adj, p', i) {
        if i > 0 {
          assert StepAt(adj, p, i - 1);
        }
      }
      CountBound(p', |adj|);
      WalkBack(adj, t, p');
    }
  }

  /** A graph where every vertex left out of t has an in-neighbour left
      out of t, and some vertex is left out, has a cycle. */
  lemma StuckHasCycle(adj: Adj, t: seq<nat>, w: nat)
    requires OutsideClosed(adj, t)
    requires w < |adj| && w !in t
    ensures HasCycle(adj)
  {
    forall v: nat ensures Count([w], v) <= 1 {
      CountOne(w, v);
    }
    WalkBack(adj, t, [w]);
  }

  /** Along a path whose vertices all lie in t, when every in-neighbour of a
      vertex comes before it in t, the first vertex occurs before position i
      of the last. */
  lemma {:induction false} PathGoesBack(adj: Adj, t: seq<nat>, p: seq<nat>, i: nat)
    requires PredsBefore(adj, t) && IsPath(adj, p) && |p| >= 2
    requires forall k :: 0 <= k < |p| ==> p[k] < |adj|
    requires i < |t| && t[i] == p[|p| - 1]
    ensures exists m :: 0 <= m < i && t[m] == p[0]
    decreases |p|
  {
    var n := |p|;
    assert StepAt(adj, p, n - 2);
    assert p[n - 2] in t[..i];
    var m :| 0 <= m < i && t[..i][m] == p[n - 2];
    if n > 2 {
      var r := p[..n - 1];
      assert forall k :: 0 <= k < |r| - 1 ==> StepAt(adj, r, k) by {
        forall k | 0 <= k < |r| - 1 ensures StepAt(adj, r, k) {
          assert StepAt(adj, p, k);
        }
      }
      PathGoesBack(adj, t, r, m);
    }
  }

  /** An order in which every vertex occurs exactly once and every
      in-neighbour comes first leaves no room for a cycle. */
  lemma OrderedNoCycle(adj: Adj, t: seq<nat>)
    requires PredsBefore(adj, t) && Closed(adj)
    requires forall w: nat :: w < |adj| ==> w in t
    requires forall w: nat :: Count(t, w) <= 1
    ensures !HasCycle(adj)
  {
    if HasCycle(adj) {
      var p :| IsPath(adj, p) && |p| >= 2 && p[0] == p[|p| - 1];
      forall k | 0 <= k < |p| ensures p[k] < |adj| {
        if k + 1 < |p| {
          assert StepAt(adj, p, k);
        } else {
          assert StepAt(adj, p, k - 1);
        }
      }
      assert p[0] in t;
      var i :| 0 <= i < |t| && t[i] == p[|p| - 1];
      PathGoesBack(adj, t, p, i);
      var m :| 0 <= m < i && t[m] == p[0];
      CountedOnce(t, m, i);
    }
  }

  // Kahn's algorithm

  /** The number of edges into w from the vertices below k that are not in
      t, counted with multiplicity. */
  ghost function Rest(adj: Adj, t: seq<nat>, k: nat, w: nat): nat
    requires k <= |adj|
  {
    if k == 0 then 0 else Rest(adj, t, k - 1, w) + if k - 1 in t then 0 else Count(adj[k - 1], w)
  }

  lemma {:induction false} RestNone(adj: Adj, k: nat, w: nat)
    requires k <= |adj|
    ensures Rest(adj, [], k, w) == InDegBelow(adj, k, w)
  {
    if k > 0 {
      RestNone(adj, k - 1, w);
    }
  }

  /** Moving u into t takes u's edges out of the count. */
  lemma {:induction false} RestAdd(adj: Adj, t: seq<nat>, u: nat, k: nat, w: nat)
    requires k <= |adj| && u < |adj| && u !in t
    ensures Rest(adj, t + [u], k, w) + (if u < k then Count(adj[u], w) else 0) == Rest(adj, t, k, w)
  {
    if k > 0 {
      RestAdd(adj, t, u, k - 1, w);
      assert k - 1 in t + [u] <==> k - 1 in t || k - 1 == u;
    }
  }

  lemma {:induction false} RestZero(adj: Adj, t: seq<nat>, k: nat, w: nat, x: nat)
    requires k <= |adj| && Rest(adj, t, k, w) == 0 && x < k && x !in t
    ensures Count(adj[x], w) == 0
  {
    if x < k - 1 {
      RestZero(adj, t, k - 1, w, x);
    }
  }

  lemma {:induction false} RestPositive(adj: Adj, t: seq<nat>, k: nat, w: nat)
    requires k <= |adj| && Rest(adj, t, k, w) > 0
    ensures exists x: nat :: x < k && x !in t && Edge(adj, x, w)
  {
    if Rest(adj, t, k - 1, w) > 0 {
      RestPositive(adj, t, k - 1, w);
    } else {
      CountPositive(adj[k - 1], w);
      assert Edge(adj, k - 1, w);
    }
  }

  /** The state of `toposort_kahn` while u's edges are being relaxed: t is
      the output so far, ending with u, q the queue; d[w] counts the edges
      into w from vertices not yet output, plus u's edges not yet relaxed;
      output and queue hold vertices without repeats; and d[w] is zero
      exactly for the vertices output or queued. */
  ghost predicate Relaxing(adj: Adj, d: seq<nat>, t: seq<nat>, q: seq<nat>, u: nat, j: nat)
  {
    u < |adj| && |d| == |adj| && j <= |adj[u]| &&
    (forall w :: 0 <= w < |adj| ==> d[w] + Occ(adj[u], j, w) == Rest(adj, t, |adj|, w) + Count(adj[u], w)) &&
    (forall i :: 0 <= i < |t + q| ==> (t + q)[i] < |adj|) &&
    (forall w: nat :: Count(t + q, w) <= 1) &&
    (forall w :: 0 <= w < |adj| ==> (d[w] == 0 <==> w in t + q))
  }

  /** The state of `toposort_kahn` between rounds: d[w] counts the edges
      into w from vertices not yet output. */
  ghost predicate Settled(adj: Adj, d: seq<nat>, t: seq<nat>, q: seq<nat>)
  {
    |d| == |adj| &&
    (forall w :: 0 <= w < |adj| ==> d[w] == Rest(adj, t, |adj|, w)) &&
    (forall i :: 0 <= i < |t + q| ==> (t + q)[i] < |adj|) &&
    (forall w: nat :: Count(t + q, w) <= 1) &&
    (forall w :: 0 <= w < |adj| ==> (d[w] == 0 <==> w in t + q))
  }

  /** Popping the queue's front and outputting it starts a round. */
  lemma StartRound(adj: Adj, d: seq<nat>, t: seq<nat>, q: seq<nat>)
    requires Settled(adj, d, t, q) && q != []
    ensures q[0] < |adj| && q[0] !in t && d[q[0]] == 0
    ensures Relaxing(adj, d, t + [q[0]], q[1..], q[0], 0)
  {
    var u := q[0];
    assert t + q == (t + [u]) + q[1..];
    assert (t + q)[|t|] == u;
    CountAppend(t, q, u);
    CountAppend([u], q[1..], u);
    assert q == [u] + q[1..];
    CountOne(u, u);
    CountPositive(t, u);
    forall w | 0 <= w < |adj| ensures d[w] + Occ(adj[u], 0, w) == Rest(adj, t + [u], |adj|, w) + Count(adj[u], w) {
      RestAdd(adj, t, u, |adj|, w);
    }
  }

  /** Relaxing u's last edge ends the round. */
  lemma EndRound(adj: Adj, d: seq<nat>, t: seq<nat>, q: seq<nat>, u: nat)
    requires u < |adj| && Relaxing(adj, d, t, q, u, |adj[u]|)
    ensures Settled(adj, d, t, q)
  {
  }

  /** Relaxing u's j-th edge, to v: v is neither output nor queued, its
      count is at least one, and after the decrement it is queued exactly
      when the count reached zero. */
  lemma RelaxStep(adj: Adj, d: seq<nat>, t: seq<nat>, q: seq<nat>, u: nat, j: nat)
    requires Relaxing(adj, d, t, q, u, j) && j < |adj[u]| && Closed(adj)
    ensures adj[u][j] < |d| && d[adj[u][j]] >= 1 && adj[u][j] !in t + q
    ensures var v := adj[u][j];
      Relaxing(adj, d[v := d[v] - 1], t, if d[v] == 1 then q + [v] else q, u, j + 1)
  {
    var v := adj[u][j];
    OccAtMost(adj[u], j + 1, v);
    assert d[v] >= 1;
    var d' := d[v := d[v] - 1];
    var q' := if d[v] == 1 then q + [v] else q;
    assert t + (q + [v]) == (t + q) + [v];
    CountPositive(t + q, v);
    forall w: nat ensures Count(t + q', w) <= 1 {
      if d[v] == 1 {
        CountAppend(t + q, [v], w);
        CountOne(v, w);
      }
    }
  }

  /** Relaxes u's edges in order, as the inner loop of `toposort_kahn`
      does: each edge lowers its head's count, and a head whose count
      reaches zero is queued. */
  method Relax(g: Graph, d: array<nat>, u: nat, ghost t: seq<nat>, q: seq<nat>) returns (q': seq<nat>)
    requires g.Valid() && Closed(g.adj) && d.Length == g.vs
    requires Relaxing(g.adj, d[..], t, q, u, 0)
    modifies d
    ensures Relaxing(g.adj, d[..], t, q', u, |g.adj[u]|)
    ensures |q| <= |q'| && q'[..|q|] == q
  {
    q' := q;
    for j := 0 to |g.adj[u]|
      invariant Relaxing(g.adj, d[..], t, q', u, j)
      invariant |q| <= |q'| && q'[..|q|] == q
    {
      var v := g.adj[u][j];
      RelaxStep(g.adj, d[..], t, q', u, j);
      d[v] := d[v] - 1;
      if d[v] == 0 {
        q' := q' + [v];
      }
    }
  }

  /** Outputting u, whose in-neighbours were all output already, keeps
      every in-neighbour before its vertex. */
  lemma PredsExtend(adj: Adj, t: seq<nat>, u: nat)
    requires PredsBefore(adj, t) && u < |adj| && u !in t && Rest(adj, t, |adj|, u) == 0
    ensures PredsBefore(adj, t + [u])
  {
    var t' := t + [u];
    forall i: nat, x: nat | i < |t'| && Edge(adj, x, t'[i]) ensures x in t'[..i] {
      if i < |t| {
        assert t'[..i] == t[..i] && t'[i] == t[i];
      } else {
        assert t'[..i] == t;
        if x !in t {
          RestZero(adj, t, |adj|, u, x);
          CountPositive(adj[x], u);
        }
      }
    }
  }

  /** The queue `toposort_kahn` starts from: the vertices of in-degree
      zero, in increasing order. */
  method ZeroInDegrees(d: array<nat>) returns (q: seq<nat>)
    ensures forall i :: 0 <= i < |q| ==> q[i] < d.Length
    ensures forall w: nat :: Count(q, w) == if w < d.Length && d[w] == 0 then 1 else 0
  {
    q := [];
    for v := 0 to d.Length
      invariant forall i :: 0 <= i < |q| ==> q[i] < v
      invariant forall w: nat :: Count(q, w) == if w < v && d[w] == 0 then 1 else 0
    {
      if d[v] == 0 {
        forall w: nat ensures Count(q + [v], w) == Count(q, w) + if w == v then 1 else 0 {
          CountAppend(q, [v], w);
          CountOne(v, w);
        }
        q := q + [v];
      }
    }
  }

  /** `toposort_kahn(g)`: the output lists vertices without repeats, and
      every in-neighbour of a listed vertex is listed before it. A vertex
      left out has an in-neighbour that is left out too, so the output
      lists every vertex exactly when the graph has no cycle. */
  method Kahn(g: Graph) returns (topo: seq<nat>)
    requires g.Valid() && Closed(g.adj)
    ensures forall i :: 0 <= i < |topo| ==> topo[i] < g.vs
    ensures forall w: nat :: Count(topo, w) <= 1
    ensures PredsBefore(g.adj, topo)
    ensures OutsideClosed(g.adj, topo)
    ensures (forall w: nat :: w < g.vs ==> w in topo) <==> !HasCycle(g.adj)
  {
    var d := g.InDegs();
    var q := ZeroInDegrees(d);
    topo := [];
    forall w | 0 <= w < g.vs ensures d[w] == Rest(g.adj, [], g.vs, w) {
      RestNone(g.adj, g.vs, w);
    }
    forall w | 0 <= w < g.vs ensures d[w] == 0 <==> w in [] + q {
      CountPositive(q, w);
    }
    assert [] + q == q;
    while q != []
      invariant Settled(g.adj, d[..], topo, q) && PredsBefore(g.adj, topo)
      invariant |topo| <= g.vs
      decreases g.vs - |topo|
    {
      CountBound(topo + q, g.vs);
      var u := q[0];
      StartRound(g.adj, d[..], topo, q);
      PredsExtend(g.adj, topo, u);
      q := q[1..];
      topo := topo + [u];
      q := Relax(g, d, u, topo, q);
      EndRound(g.adj, d[..], topo, q, u);
    }
    assert topo + [] == topo;
    forall w: nat | w < g.vs && w !in topo ensures FedFromOutside(g.adj, topo, w) {
      RestPositive(g.adj, topo, g.vs, w);
    }
    if forall w: nat :: w < g.vs ==> w in topo {
      OrderedNoCycle(g.adj, topo);
    } else {
      var w: nat :| w < g.vs && w !in topo;
      StuckHasCycle(g.adj, topo, w);
    }
  }

  // Depth-first topological sort

  /** Every out-neighbour of the vertex at position i occurs before i. */
  ghost predicate SuccsBefore(adj: Adj, t: seq<nat>)
  {
    forall i: nat, y: nat :: i < |t| && Edge(adj, t[i], y) ==> y in t[..i]
  }

  /** The colouring of `toposort_dfs`: 0 for unvisited, 1 for the vertices
      of the current search path gray, 2 for the finished vertices, which
      are those of topo, each once, every one after all its out-neighbours;
      and gray is a path. */
  ghost predicate Colored(adj: Adj, vis: seq<int>, topo: seq<nat>, gray: seq<nat>)
  {
    |vis| == |adj| &&
    (forall x :: 0 <= x < |adj| ==> 0 <= vis[x] <= 2) &&
    (forall x :: 0 <= x < |adj| ==> (vis[x] == 1 <==> x in gray) && (vis[x] == 2 <==> x in topo)) &&
    (forall i :: 0 <= i < |topo| ==> topo[i] < |adj|) &&
    (forall i :: 0 <= i < |gray| ==> gray[i] < |adj|) &&
    (forall w: nat :: Count(topo, w) <= 1) &&
    SuccsBefore(adj, topo) &&
    (gray != [] ==> IsPath(adj, gray))
  }

  /** The number of unvisited vertices. */
  function Unseen(vis: seq<int>): nat
  {
    if vis == [] then 0 else Unseen(vis[..|vis| - 1]) + if vis[|vis| - 1] == 0 then 1 else 0
  }

  lemma {:induction false} UnseenShrinks(s: seq<int>, t: seq<int>, k: nat)
    requires |s| == |t| && forall i :: 0 <= i < |s| && s[i] != 0 ==> t[i] != 0
    ensures Unseen(t) <= Unseen(s)
    ensures k < |s| && s[k] == 0 && t[k] != 0 ==> Unseen(t) < Unseen(s)
  {
    if s != [] {
      UnseenShrinks(s[..|s| - 1], t[..|t| - 1], k);
    }
  }

  /** Marking u as on the path extends the path by u. */
  lemma GrayPush(adj: Adj, vis: seq<int>, topo: seq<nat>, gray: seq<nat>, u: nat)
    requires Colored(adj, vis, topo, gray) && u < |adj| && vis[u] == 0
    requires gray != [] ==> Edge(adj, gray[|gray| - 1], u)
    ensures u !in gray && Colored(adj, vis[u := 1], topo, gray + [u])
  {
    var p := gray + [u];
    forall i | 0 <= i < |p| - 1 ensures StepAt(adj, p, i) {
      if i < |gray| - 1 {
        assert StepAt(adj, gray, i);
      }
    }
  }

  /** Finishing u, all of whose out-neighbours are finished, takes it off
      the path and appends it to topo. */
  lemma Finish(adj: Adj, vis: seq<int>, topo: seq<nat>, gray: seq<nat>, u: nat)
    requires Closed(adj) && Colored(adj, vis, topo, gray + [u]) && u < |adj| && u !in gray
    requires forall i :: 0 <= i < |adj[u]| ==> vis[adj[u][i]] == 2
    ensures Colored(adj, vis[u := 2], topo + [u], gray)
  {
    var t := topo + [u];
    CountPositive(topo, u);
    forall w: nat ensures Count(t, w) <= 1 {
      CountAppend(topo, [u], w);
      CountOne(u, w);
    }
    forall i: nat, y: nat | i < |t| && Edge(adj, t[i], y) ensures y in t[..i] {
      if i < |topo| {
        assert t[i] == topo[i] && t[..i] == topo[..i];
      } else {
        assert t[..i] == topo;
        var k :| 0 <= k < |adj[u]| && adj[u][k] == y;
      }
    }
    var vis' := vis[u := 2];
    forall x | 0 <= x < |adj| ensures (vis'[x] == 1 <==> x in gray) && (vis'[x] == 2 <==> x in t) {
      assert x in gray + [u] <==> x in gray || x == u;
    }
    if gray != [] {
      forall i | 0 <= i < |gray| - 1 ensures StepAt(adj, gray, i) {
        assert StepAt(adj, gray + [u], i);
      }
    }
    forall i | 0 <= i < |gray| ensures gray[i] < |adj| {
      assert gray[i] == (gray + [u])[i];
    }
  }

  /** An edge from the end of the path back to a vertex on it closes a
      cycle. */
  lemma CycleFound(adj: Adj, path: seq<nat>, v: nat)
    requires path != [] && IsPath(adj, path) && v in path && Edge(adj, path[|path| - 1], v)
    ensures HasCycle(adj)
  {
    var k :| 0 <= k < |path| && path[k] == v;
    var c := path[k..] + [v];
    forall i | 0 <= i < |c| - 1 ensures StepAt(adj, c, i) {
      if i < |path| - k - 1 {
        assert StepAt(adj, path, k + i);
      }
    }
    assert IsPath(adj, c) && c[0] == v;
  }

  /** `toposort_dfs_recur(topo, g, visited, u)` for an unvisited u whose
      caller is the last vertex of the search path gray: false means the
      search met a vertex on the path again, so the graph has a cycle; true
      means u and everything it reaches are finished and appended to topo,
      every vertex after all its out-neighbours. */
  method DfsTopoRecur(g: Graph, vis: array<int>, u: nat, topo: seq<nat>, ghost gray: seq<nat>)
    returns (ok: bool, topo': seq<nat>)
    requires g.Valid() && Closed(g.adj) && vis.Length == g.vs && u < g.vs
    requires Colored(g.adj, vis[..], topo, gray) && vis[u] == 0
    requires gray != [] ==> Edge(g.adj, gray[|gray| - 1], u)
    modifies vis
    ensures ok ==> Colored(g.adj, vis[..], topo', gray) && vis[u] == 2
    ensures ok ==> forall x :: 0 <= x < g.vs && old(vis[x]) != 0 ==> vis[x] == old(vis[x])
    ensures !ok ==> HasCycle(g.adj)
    decreases Unseen(vis[..])
  {
    ghost var v0 := vis[..];
    GrayPush(g.adj, vis[..], topo, gray, u);
    vis[u] := 1;
    ghost var path := gray + [u];
    topo' := topo;
    for j := 0 to |g.adj[u]|
      invariant Colored(g.adj, vis[..], topo', path) && vis[u] == 1
      invariant forall x :: 0 <= x < g.vs && v0[x] != 0 ==> vis[x] == v0[x]
      invariant forall i :: 0 <= i < j ==> vis[g.adj[u][i]] == 2
    {
      var v := g.adj[u][j];
      if vis[v] == 1 {
        CycleFound(g.adj, path, v);
        return false, topo';
      }
      if vis[v] != 0 {
        continue;
      }
      UnseenShrinks(v0, vis[..], u);
      var r;
      r, topo' := DfsTopoRecur(g, vis, v, topo', path);
      if !r {
        return false, topo';
      }
    }
    Finish(g.adj, vis[..], topo', gray, u);
    vis[u] := 2;
    topo' := topo' + [u];
    ok := true;
  }

  lemma {:induction false} CountReversed(s: seq<nat>, w: nat)
    ensures Count(Reversed(s), w) == Count(s, w)
  {
    if s != [] {
      var r := s[..|s| - 1];
      var x := s[|s| - 1];
      assert s == r + [x];
      assert Reversed(s) == [x] + Reversed(r);
      CountReversed(r, w);
      CountAppend([x], Reversed(r), w);
      CountAppend(r, [x], w);
    }
  }

  /** Reversing an order that lists every vertex once, after all its
      out-neighbours, gives one that lists every vertex after all its
      in-neighbours. */
  lemma SuccsToPreds(adj: Adj, t: seq<nat>)
    requires SuccsBefore(adj, t) && forall w: nat :: Count(t, w) <= 1
    requires forall x: nat :: x < |adj| ==> x in t
    ensures PredsBefore(adj, Reversed(t))
  {
    var r := Reversed(t);
    var n := |t|;
    forall i: nat, x: nat | i < |r| && Edge(adj, x, r[i]) ensures x in r[..i] {
      var y := t[n - 1 - i];
      assert x in t;
      var k :| 0 <= k < n && t[k] == x;
      assert y in t[..k];
      var m :| 0 <= m < k && t[..k][m] == y;
      CountedOnce(t, m, n - 1 - i);
      assert r[n - 1 - k] == x;
    }
  }

  /** `toposort_dfs(g)`: None when the search meets a cycle; otherwise
      every vertex exactly once, each after all its in-neighbours. So the
      result is present exactly when the graph has no cycle. */
  method DfsTopo(g: Graph) returns (r: Option<seq<nat>>)
    requires g.Valid() && Closed(g.adj)
    ensures r.None? ==> HasCycle(g.adj)
    ensures r.Some? ==> forall w: nat :: Count(r.value, w) == if w < g.vs then 1 else 0
    ensures r.Some? ==> PredsBefore(g.adj, r.value)
    ensures r.Some? <==> !HasCycle(g.adj)
  {
    var topo: seq<nat> := [];
    var vis := new int[g.vs](_ => 0);
    for u := 0 to g.vs
      invariant Colored(g.adj, vis[..], topo, [])
      invariant forall x :: 0 <= x < u ==> vis[x] != 0
    {
      if vis[u] != 0 {
        continue;
      }
      var ok;
      ok, topo := DfsTopoRecur(g, vis, u, topo, []);
      if !ok {
        return None;
      }
    }
    forall x: nat | x < g.vs ensures x in topo {
      assert vis[x] == 2;
    }
    SuccsToPreds(g.adj, topo);
    var order := Reversed(topo);
    forall w: nat ensures Count(order, w) == (if w < g.vs then 1 else 0) && (w < g.vs ==> w in order) {
      CountReversed(topo, w);
      CountPositive(topo, w);
      CountPositive(order, w);
    }
    OrderedNoCycle(g.adj, order);
    r := Some(order);
  }
}
