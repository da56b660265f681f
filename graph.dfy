/** regular/src/graph.rs: a directed graph on the vertices 0..vs kept as
    adjacency lists, with in-degrees, the transpose, depth-first and
    breadth-first search. The callback `f` of the searches is modelled by the
    sequence of vertices it is called with, in call order. */
module Graphs {

  /** adj[v] lists the heads of the edges out of v, in insertion order; an
      edge added twice is listed twice. */
  type Adj = seq<seq<nat>>

  /** Every edge ends at a vertex of the graph. `add_edge` does not check
      this; the operations that index by an edge's head panic without it. */
  ghost predicate Closed(adj: Adj)
  {
    forall v, j :: 0 <= v < |adj| && 0 <= j < |adj[v]| ==> adj[v][j] < |adj|
  }

  ghost predicate Edge(adj: Adj, u: nat, w: nat)
  {
    u < |adj| && w in adj[u]
  }

  /** The step from p[i] to p[i + 1] is an edge. */
  ghost predicate StepAt(adj: Adj, p: seq<nat>, i: nat)
    requires i + 1 < |p|
  {
    Edge(adj, p[i], p[i + 1])
  }

  ghost predicate IsPath(adj: Adj, p: seq<nat>)
  {
    |p| >= 1 && forall i :: 0 <= i < |p| - 1 ==> StepAt(adj, p, i)
  }

  ghost predicate PathFrom(adj: Adj, p: seq<nat>, u: nat, w: nat)
  {
    IsPath(adj, p) && p[0] == u && p[|p| - 1] == w
  }

  /** w can be reached from u by following zero or more edges. */
  ghost predicate Reachable(adj: Adj, u: nat, w: nat)
  {
    exists p :: PathFrom(adj, p, u, w)
  }

  lemma ReachSelf(adj: Adj, u: nat)
    ensures Reachable(adj, u, u)
  {
    assert PathFrom(adj, [u], u, u);
  }

  /** An edge followed by a path is a path. */
  lemma ReachStep(adj: Adj, u: nat, w: nat, x: nat)
    requires Edge(adj, u, w) && Reachable(adj, w, x)
    ensures Reachable(adj, u, x)
  {
    var p :| PathFrom(adj, p, w, x);
    var q := [u] + p;
    forall i | 0 <= i < |q| - 1 ensures StepAt(adj, q, i) {
      if i > 0 {
        assert StepAt(adj, p, i - 1);
      }
    }
    assert PathFrom(adj, q, u, x);
  }

  lemma {:induction false} ReachTrans(adj: Adj, u: nat, w: nat, x: nat)
    requires Reachable(adj, u, w) && Reachable(adj, w, x)
    ensures Reachable(adj, u, x)
  {
    var p :| PathFrom(adj, p, u, w);
    var q :| PathFrom(adj, q, w, x);
    var r := p + q[1..];
    forall i | 0 <= i < |r| - 1 ensures StepAt(adj, r, i) {
      if i < |p| - 1 {
        assert StepAt(adj, p, i);
      } else {
        assert StepAt(adj, q, i - |p| + 1);
      }
    }
    assert PathFrom(adj, r, u, x);
  }

  /** The vertices u can be reached from stay inside any set that holds u and
      holds the heads of the edges out of each of its members. */
  lemma ClosedHoldsReachable(adj: Adj, s: seq<bool>, u: nat, w: nat)
    requires |s| == |adj| && u < |s| && s[u]
    requires forall x, j :: 0 <= x < |s| && s[x] && 0 <= j < |adj[x]| ==> adj[x][j] < |s| && s[adj[x][j]]
    requires Reachable(adj, u, w)
    ensures w < |s| && s[w]
  {
    var p :| PathFrom(adj, p, u, w);
    var i := 0;
    while i < |p| - 1
      invariant 0 <= i < |p| && p[i] < |s| && s[p[i]]
    {
      assert StepAt(adj, p, i);
      var j :| 0 <= j < |adj[p[i]]| && adj[p[i]][j] == p[i + 1];
      i := i + 1;
    }
  }

  /** How often w occurs among the first j entries of s. */
  function Occ(s: seq<nat>, j: nat, w: nat): nat
    requires j <= |s|
  {
    if j == 0 then 0 else Occ(s, j - 1, w) + if s[j - 1] == w then 1 else 0
  }

  /** How often w occurs in s. */
  function Count(s: seq<nat>, w: nat): nat
  {
    Occ(s, |s|, w)
  }

  lemma {:induction false} OccPrefix(s: seq<nat>, t: seq<nat>, j: nat, v: nat)
    requires j <= |s| && j <= |t| && forall i :: 0 <= i < j ==> s[i] == t[i]
    ensures Occ(s, j, v) == Occ(t, j, v)
  {
    if j > 0 {
      OccPrefix(s, t, j - 1, v);
    }
  }

  lemma {:induction false} OccAppend(a: seq<nat>, b: seq<nat>, j: nat, v: nat)
    requires j <= |b|
    ensures Occ(a + b, |a| + j, v) == Count(a, v) + Occ(b, j, v)
  {
    if j == 0 {
      OccPrefix(a + b, a, |a|, v);
    } else {
      OccAppend(a, b, j - 1, v);
    }
  }

  lemma CountAppend(a: seq<nat>, b: seq<nat>, v: nat)
    ensures Count(a + b, v) == Count(a, v) + Count(b, v)
  {
    OccAppend(a, b, |b|, v);
  }

  lemma CountOne(u: nat, x: nat)
    ensures Count([u], x) == if x == u then 1 else 0
  {
    assert Occ([u], 1, x) == Occ([u], 0, x) + if u == x then 1 else 0;
  }

  /** w is listed in s exactly when it is counted there. */
  lemma {:induction false} OccPositive(s: seq<nat>, j: nat, w: nat)
    requires j <= |s|
    ensures Occ(s, j, w) > 0 <==> w in s[..j]
  {
    if j > 0 {
      OccPositive(s, j - 1, w);
      assert s[..j] == s[..j - 1] + [s[j - 1]];
    }
  }

  lemma CountPositive(s: seq<nat>, w: nat)
    ensures Count(s, w) > 0 <==> w in s
  {
    OccPositive(s, |s|, w);
    assert s[..|s|] == s;
  }

  /** c copies of v. */
  function Rep(c: nat, v: nat): (r: seq<nat>)
    ensures |r| == c
  {
    if c == 0 then [] else Rep(c - 1, v) + [v]
  }

  lemma {:induction false} RepCount(c: nat, x: nat, v: nat)
    ensures Count(Rep(c, x), v) == if v == x then c else 0
  {
    if c > 0 {
      RepCount(c - 1, x, v);
      OccAppend(Rep(c - 1, x), [x], 1, v);
    }
  }

  /** The number of edges into w from the vertices below k, counted with
      multiplicity. */
  ghost function InDegBelow(adj: Adj, k: nat, w: nat): nat
    requires k <= |adj|
  {
    if k == 0 then 0 else InDegBelow(adj, k - 1, w) + Count(adj[k - 1], w)
  }

  ghost function InDeg(adj: Adj, w: nat): nat
  {
    InDegBelow(adj, |adj|, w)
  }

  /** The tails of the edges into w from the vertices below k, in the order
      `transpose` adds them: by tail, an edge listed twice giving two
      entries. */
  ghost function Sources(adj: Adj, k: nat, w: nat): seq<nat>
    requires k <= |adj|
  {
    if k == 0 then [] else Sources(adj, k - 1, w) + Rep(Count(adj[k - 1], w), k - 1)
  }

  /** The adjacency lists of the transpose. */
  ghost function Transposed(adj: Adj): Adj
  {
    seq(|adj|, w requires 0 <= w < |adj| => Sources(adj, |adj|, w))
  }

  /** `transpose` reverses every edge with its multiplicity: v is listed in
      the transpose's row w as often as w is listed in row v. */
  lemma {:induction false} SourcesCount(adj: Adj, k: nat, w: nat, v: nat)
    requires k <= |adj|
    ensures Count(Sources(adj, k, w), v) == if v < k then Count(adj[v], w) else 0
  {
    if k > 0 {
      var c := Count(adj[k - 1], w);
      SourcesCount(adj, k - 1, w, v);
      RepCount(c, k - 1, v);
      OccAppend(Sources(adj, k - 1, w), Rep(c, k - 1), c, v);
    }
  }

  /** The transpose's row w is as long as w's in-degree. */
  lemma {:induction false} SourcesLength(adj: Adj, k: nat, w: nat)
    requires k <= |adj|
    ensures |Sources(adj, k, w)| == InDegBelow(adj, k, w)
  {
    if k > 0 {
      SourcesLength(adj, k - 1, w);
    }
  }

  /** An edge of the transpose is a reversed edge of the graph. */
  lemma TransposedEdge(adj: Adj, u: nat, w: nat)
    requires Closed(adj)
    ensures Edge(Transposed(adj), u, w) <==> Edge(adj, w, u)
  {
    if u < |adj| {
      SourcesCount(adj, |adj|, u, w);
      CountPositive(Transposed(adj)[u], w);
      if w < |adj| {
        CountPositive(adj[w], u);
      }
    }
  }

  /** Transposing twice gives back every edge with its multiplicity. */
  lemma TransposeTwice(adj: Adj, v: nat, w: nat)
    requires v < |adj| && w < |adj|
    ensures Count(Transposed(Transposed(adj))[v], w) == Count(adj[v], w)
  {
    SourcesCount(Transposed(adj), |adj|, v, w);
    SourcesCount(adj, |adj|, w, v);
  }

  /** Every edge of the transpose ends at a vertex of the graph. */
  lemma TransposedClosed(adj: Adj)
    ensures Closed(Transposed(adj))
  {
    var t := Transposed(adj);
    forall v, j | 0 <= v < |t| && 0 <= j < |t[v]| ensures t[v][j] < |t| {
      CountPositive(t[v], t[v][j]);
      SourcesCount(adj, |adj|, v, t[v][j]);
    }
  }

  /** A path of the graph read backwards is a path of the transpose, so w
      reaches u in the transpose exactly when u reaches w in the graph. */
  lemma TransposedReach(adj: Adj, u: nat, w: nat)
    requires Closed(adj)
    ensures Reachable(Transposed(adj), w, u) <==> Reachable(adj, u, w)
  {
    if Reachable(adj, u, w) {
      var p :| PathFrom(adj, p, u, w);
      ReversedPath(adj, p);
    }
    if Reachable(Transposed(adj), w, u) {
      var p :| PathFrom(Transposed(adj), p, w, u);
      ReversedPathBack(adj, p);
    }
  }

  lemma ReversedPath(adj: Adj, p: seq<nat>)
    requires Closed(adj) && IsPath(adj, p)
    ensures PathFrom(Transposed(adj), Reversed(p), p[|p| - 1], p[0])
  {
    var r := Reversed(p);
    forall i | 0 <= i < |r| - 1 ensures StepAt(Transposed(adj), r, i) {
      assert StepAt(adj, p, |p| - 2 - i);
      TransposedEdge(adj, p[|p| - 1 - i], p[|p| - 2 - i]);
    }
  }

  lemma ReversedPathBack(adj: Adj, p: seq<nat>)
    requires Closed(adj) && IsPath(Transposed(adj), p)
    ensures PathFrom(adj, Reversed(p), p[|p| - 1], p[0])
  {
    var r := Reversed(p);
    forall i | 0 <= i < |r| - 1 ensures StepAt(adj, r, i) {
      assert StepAt(Transposed(adj), p, |p| - 2 - i);
      TransposedEdge(adj, p[|p| - 2 - i], p[|p| - 1 - i]);
    }
  }

  function Reversed(p: seq<nat>): (r: seq<nat>)
    ensures |r| == |p| && forall i :: 0 <= i < |p| ==> r[i] == p[|p| - 1 - i]
  {
    seq(|p|, i requires 0 <= i < |p| => p[|p| - 1 - i])
  }

  /** No element occurs twice. */
  ghost predicate Distinct(s: seq<nat>)
  {
    forall i, j :: 0 <= i < j < |s| ==> s[i] != s[j]
  }

  lemma DistinctJoin(s: seq<nat>, t: seq<nat>)
    requires Distinct(s) && Distinct(t) && forall x :: x in t ==> x !in s
    ensures Distinct(s + t)
  {
    forall i, j | 0 <= i < j < |s + t| ensures (s + t)[i] != (s + t)[j] {
      if i < |s| && j >= |s| {
        assert (s + t)[j] in t;
      }
    }
  }

  /** The number of unvisited vertices. */
  function Unvisited(s: seq<bool>): nat
  {
    if s == [] then 0 else Unvisited(s[..|s| - 1]) + if s[|s| - 1] then 0 else 1
  }

  /** Marking more vertices never adds unvisited ones, and marking one
      unvisited vertex removes one. */
  lemma {:induction false} UnvisitedShrinks(s: seq<bool>, t: seq<bool>, k: nat)
    requires |s| == |t| && forall i :: 0 <= i < |s| && s[i] ==> t[i]
    ensures Unvisited(t) <= Unvisited(s)
    ensures k < |s| && !s[k] && t[k] ==> Unvisited(t) < Unvisited(s)
  {
    if s != [] {
      UnvisitedShrinks(s[..|s| - 1], t[..|t| - 1], k);
    }
  }

  /** After `add_edge(v, w)`, w has one more incoming edge and every other
      in-degree is the same. */
  lemma {:induction false} AddedInDeg(adj: Adj, v: nat, w: nat, k: nat, y: nat)
    requires v < |adj| && k <= |adj|
    ensures InDegBelow(adj[v := adj[v] + [w]], k, y) == InDegBelow(adj, k, y) + if v < k && y == w then 1 else 0
  {
    if k > 0 {
      AddedInDeg(adj, v, w, k - 1, y);
      if k - 1 == v {
        OccAppend(adj[v], [w], 1, y);
      }
    }
  }

  /** `Graph`: vs vertices and one adjacency list per vertex. */
  class Graph {
    var vs: nat
    var adj: Adj

    ghost predicate Valid()
      reads this
    {
      |adj| == vs
    }

    /** `Graph::new(vs)`: vs vertices and no edges. */
    constructor (vs: nat)
      ensures Valid() && this.vs == vs
      ensures forall v :: 0 <= v < vs ==> adj[v] == []
    {
      this.vs := vs;
      adj := seq(vs, _ => []);
    }

    /** `add_edge(v, w)`: w is appended to v's list and nothing else
        changes; v must be a vertex, otherwise the source panics. */
    method AddEdge(v: nat, w: nat)
      requires Valid() && v < vs
      modifies this
      ensures Valid() && vs == old(vs)
      ensures adj == old(adj)[v := old(adj)[v] + [w]]
    {
      adj := adj[v := adj[v] + [w]];
    }

    /** `in_degs`: entry w counts the edges into w, with multiplicity. */
    method InDegs() returns (d: array<nat>)
      requires Valid() && Closed(adj)
      ensures fresh(d) && d.Length == vs
      ensures forall w :: 0 <= w < vs ==> d[w] == InDeg(adj, w)
    {
      d := new nat[vs](_ => 0);
      for v := 0 to vs
        invariant forall w :: 0 <= w < vs ==> d[w] == InDegBelow(adj, v, w)
      {
        for j := 0 to |adj[v]|
          invariant forall w :: 0 <= w < vs ==> d[w] == InDegBelow(adj, v, w) + Occ(adj[v], j, w)
        {
          d[adj[v][j]] := d[adj[v][j]] + 1;
        }
      }
    }

    /** `transpose`: a new graph with the same vertices whose row w lists
        the tail of every edge into w, by tail and with multiplicity. */
    method Transpose() returns (t: Graph)
      requires Valid() && Closed(adj)
      ensures fresh(t) && t.Valid() && t.vs == vs
      ensures t.adj == Transposed(adj)
    {
      t := new Graph(vs);
      for v := 0 to vs
        invariant t.Valid() && t.vs == vs
        invariant forall w :: 0 <= w < vs ==> t.adj[w] == Sources(adj, v, w)
      {
        for j := 0 to |adj[v]|
          invariant t.Valid() && t.vs == vs
          invariant forall w :: 0 <= w < vs ==> t.adj[w] == Sources(adj, v, w) + Rep(Occ(adj[v], j, w), v)
        {
          TransposeStep(adj, v, j, t.adj);
          t.AddEdge(adj[v][j], v);
        }
      }
    }
  }

  /** One edge v -> adj[v][j] taken by `transpose`: appending v to the row
      of the edge's head extends the rows built so far by that edge. */
  lemma TransposeStep(adj: Adj, v: nat, j: nat, t: Adj)
    requires Closed(adj) && v < |adj| && j < |adj[v]| && |t| == |adj|
    requires forall w :: 0 <= w < |adj| ==> t[w] == Sources(adj, v, w) + Rep(Occ(adj[v], j, w), v)
    ensures forall w :: 0 <= w < |adj| ==>
      t[adj[v][j] := t[adj[v][j]] + [v]][w] == Sources(adj, v, w) + Rep(Occ(adj[v], j + 1, w), v)
  {
  }

  /** Every vertex marked in s is marked in t. */
  ghost predicate Grows(s: seq<bool>, t: seq<bool>)
  {
    |s| == |t| && forall u :: 0 <= u < |s| && s[u] ==> t[u]
  }

  /** trace lists v and exactly the vertices marked in t but not in s. */
  ghost predicate NewlyMarked(s: seq<bool>, t: seq<bool>, trace: seq<nat>, v: nat)
  {
    |s| == |t| && v < |t| && t[v] && (forall u :: u in trace ==> u < |t|) &&
    forall u: nat :: u < |t| ==> (u in trace <==> u == v || (t[u] && !s[u]))
  }

  /** Every edge out of a vertex of the trace ends at a marked vertex. */
  ghost predicate Finished(adj: Adj, t: seq<bool>, trace: seq<nat>)
  {
    forall u, i :: u in trace && u < |adj| && 0 <= i < |adj[u]| ==> adj[u][i] < |t| && t[adj[u][i]]
  }

  /** Every vertex of the trace is reachable from v. */
  ghost predicate Reaches(adj: Adj, v: nat, trace: seq<nat>)
  {
    forall u :: u in trace ==> Reachable(adj, v, u)
  }

  /** The state of `dfs_recur(g, v, ...)` while it runs: since its start
      (marks s0) it has marked v and exactly the vertices after v in its
      trace, each once, all reachable from v, and every edge out of them
      ends at a marked vertex. */
  ghost predicate Searching(adj: Adj, s0: seq<bool>, s: seq<bool>, trace: seq<nat>, v: nat)
  {
    Grows(s0, s) && |trace| >= 1 && trace[0] == v && Distinct(trace) &&
    NewlyMarked(s0, s, trace, v) && Reaches(adj, v, trace) && Finished(adj, s, trace[1..])
  }

  /** A search that starts at an unmarked successor w = adj[v][j] of v, run
      while v is being searched, adds to v's search exactly what it marks,
      and leaves the first j + 1 successors of v marked. */
  lemma DfsJoin(adj: Adj, s0: seq<bool>, s1: seq<bool>, s2: seq<bool>, trace: seq<nat>, t: seq<nat>, v: nat, j: nat)
    requires v < |adj| && j < |adj[v]| && adj[v][j] < |s1| && !s1[adj[v][j]]
    requires forall i :: 0 <= i < j ==> adj[v][i] < |s1| && s1[adj[v][i]]
    requires Searching(adj, s0, s1, trace, v) && Searching(adj, s1, s2, t, adj[v][j]) && Finished(adj, s2, t)
    ensures Searching(adj, s0, s2, trace + t, v)
    ensures forall i :: 0 <= i <= j ==> adj[v][i] < |s2| && s2[adj[v][i]]
  {
    var w := adj[v][j];
    assert (trace + t)[1..] == trace[1..] + t;
    DistinctJoin(trace, t);
    forall u | u in t ensures Reachable(adj, v, u) {
      ReachStep(adj, v, w, u);
    }
  }

  /** `dfs_recur(g, v, visited, f)`: the trace lists v first and then, in
      visiting order, every vertex this call marks. The marked vertices are
      reachable from v, and at return the heads of every traced vertex's
      edges are marked. */
  method DfsRecur(g: Graph, v: nat, visited: array<bool>) returns (trace: seq<nat>)
    requires g.Valid() && Closed(g.adj) && visited.Length == g.vs && v < g.vs
    modifies visited
    ensures Searching(g.adj, old(visited[..]), visited[..], trace, v)
    ensures Finished(g.adj, visited[..], trace)
    decreases Unvisited(visited[..]), if visited[v] then 1 else 0
  {
    ghost var s0 := visited[..];
    visited[v] := true;
    trace := [v];
    ReachSelf(g.adj, v);
    for j := 0 to |g.adj[v]|
      invariant Searching(g.adj, s0, visited[..], trace, v)
      invariant forall i :: 0 <= i < j ==> g.adj[v][i] < visited.Length && visited[g.adj[v][i]]
    {
      var w := g.adj[v][j];
      if !visited[w] {
        ghost var s1 := visited[..];
        UnvisitedShrinks(s0, s1, v);
        UnvisitedShrinks(s1, s1[w := true], w);
        var t := DfsRecur(g, w, visited);
        DfsJoin(g.adj, s0, s1, visited[..], trace, t, v, j);
        trace := trace + t;
      }
    }
    assert trace == [v] + trace[1..];
  }

  /** `dfs(g, v, f)`: f is called once for each vertex reachable from v, v
      first; v must be a vertex, otherwise the source panics. */
  method Dfs(g: Graph, v: nat) returns (trace: seq<nat>)
    requires g.Valid() && Closed(g.adj) && v < g.vs
    ensures |trace| >= 1 && trace[0] == v && Distinct(trace)
    ensures forall u: nat :: u in trace <==> u < g.vs && Reachable(g.adj, v, u)
  {
    var visited := new bool[g.vs](_ => false);
    ghost var s0 := visited[..];
    trace := DfsRecur(g, v, visited);
    SearchedAll(g.adj, s0, visited[..], trace, v);
  }

  /** A search from v that started with nothing marked marks exactly the
      vertices reachable from v, and traces each of them. */
  lemma SearchedAll(adj: Adj, s0: seq<bool>, s: seq<bool>, trace: seq<nat>, v: nat)
    requires Closed(adj) && |s0| == |adj| && forall x :: 0 <= x < |s0| ==> !s0[x]
    requires Searching(adj, s0, s, trace, v) && Finished(adj, s, trace)
    ensures forall u: nat :: u < |adj| ==> (s[u] <==> Reachable(adj, v, u))
    ensures forall u: nat :: u in trace <==> u < |adj| && Reachable(adj, v, u)
  {
    forall u: nat | u < |adj| && Reachable(adj, v, u) ensures s[u] && u in trace {
      ClosedHoldsReachable(adj, s, v, u);
    }
  }

  /** The number of queue entries that are already marked. */
  function Marked(q: seq<nat>, s: seq<bool>): nat
  {
    if q == [] then 0
    else Marked(q[..|q| - 1], s) + if q[|q| - 1] < |s| && s[q[|q| - 1]] then 1 else 0
  }

  lemma {:induction false} MarkedFront(q: seq<nat>, s: seq<bool>)
    requires q != []
    ensures Marked(q, s) == Marked(q[1..], s) + if q[0] < |s| && s[q[0]] then 1 else 0
  {
    if |q| > 1 {
      MarkedFront(q[..|q| - 1], s);
      assert q[..|q| - 1][1..] == q[1..][..|q| - 2];
    }
  }

  /** Every queued vertex is a vertex reachable from v. */
  ghost predicate QueuedReachable(adj: Adj, v: nat, q: seq<nat>)
  {
    forall x :: x in q ==> x < |adj| && Reachable(adj, v, x)
  }

  /** Every edge out of a marked vertex ends at a marked or a queued vertex. */
  ghost predicate Covered(adj: Adj, s: seq<bool>, q: seq<nat>)
  {
    forall u, i :: 0 <= u < |s| && u < |adj| && s[u] && 0 <= i < |adj[u]| ==> adj[u][i] < |s| && (s[adj[u][i]] || adj[u][i] in q)
  }

  /** The inner loop of `bfs`: the heads of u's edges that are not marked
      are queued, in edge order. */
  method Expand(g: Graph, visited: array<bool>, u: nat, q: seq<nat>) returns (q': seq<nat>)
    requires g.Valid() && Closed(g.adj) && visited.Length == g.vs && u < g.vs
    ensures |q| <= |q'| && q'[..|q|] == q
    ensures forall k :: |q| <= k < |q'| ==> q'[k] in g.adj[u] && !visited[q'[k]]
    ensures forall i :: 0 <= i < |g.adj[u]| ==> visited[g.adj[u][i]] || g.adj[u][i] in q'
  {
    q' := q;
    for j := 0 to |g.adj[u]|
      invariant |q| <= |q'| && q'[..|q|] == q
      invariant forall k :: |q| <= k < |q'| ==> q'[k] in g.adj[u] && !visited[q'[k]]
      invariant forall i :: 0 <= i < j ==> visited[g.adj[u][i]] || g.adj[u][i] in q'
    {
      var w := g.adj[u][j];
      if !visited[w] {
        q' := q' + [w];
      }
    }
  }

  /** One round of `bfs`: taking u off the queue, marking it and queuing
      the unmarked heads of its edges keeps every queued vertex reachable
      and every edge out of a marked vertex covered. */
  lemma BfsRound(adj: Adj, v: nat, s: seq<bool>, q0: seq<nat>, q: seq<nat>)
    requires Closed(adj) && |s| == |adj| && q0 != [] && q0[0] < |s|
    requires QueuedReachable(adj, v, q0) && Covered(adj, s, q0)
    requires |q0| - 1 <= |q| && q[..|q0| - 1] == q0[1..]
    requires forall k :: |q0| - 1 <= k < |q| ==> q[k] in adj[q0[0]]
    requires forall i :: 0 <= i < |adj[q0[0]]| ==> s[q0[0] := true][adj[q0[0]][i]] || adj[q0[0]][i] in q
    ensures QueuedReachable(adj, v, q) && Covered(adj, s[q0[0] := true], q)
  {
    var u := q0[0];
    assert u in q0;
    forall x | x in q ensures x < |adj| && Reachable(adj, v, x) {
      var k :| 0 <= k < |q| && q[k] == x;
      if k < |q0| - 1 {
        assert x == q0[k + 1] && q0[k + 1] in q0;
      } else {
        assert Reachable(adj, v, u);
        ReachSelf(adj, x);
        ReachStep(adj, u, x, x);
        ReachTrans(adj, v, u, x);
      }
    }
    forall y | y in q0 && y != u ensures y in q {
      var k :| 0 <= k < |q0| && q0[k] == y;
      assert k > 0 && q[k - 1] == y;
    }
  }

  /** `bfs(g, v, f)`: f is called on every vertex reachable from v, at least
      once each, and on no other vertex, v first. A vertex is marked when it
      leaves the queue, so one that was queued twice is passed to f twice. */
  method Bfs(g: Graph, v: nat) returns (trace: seq<nat>)
    requires g.Valid() && Closed(g.adj) && v < g.vs
    ensures |trace| >= 1 && trace[0] == v
    ensures forall u: nat :: u in trace <==> u < g.vs && Reachable(g.adj, v, u)
  {
    var visited := new bool[g.vs](_ => false);
    var q: seq<nat> := [v];
    trace := [];
    ReachSelf(g.adj, v);
    while q != []
      invariant visited.Length == g.vs
      invariant QueuedReachable(g.adj, v, q) && Covered(g.adj, visited[..], q)
      invariant forall x :: 0 <= x < g.vs ==> (visited[x] <==> x in trace)
      invariant forall x :: x in trace ==> x < g.vs && Reachable(g.adj, v, x)
      invariant visited[v] || v in q
      invariant trace == [] ==> q == [v]
      invariant trace != [] ==> trace[0] == v
      decreases Unvisited(visited[..]), Marked(q, visited[..])
    {
      ghost var s0 := visited[..];
      ghost var q0 := q;
      var u := q[0];
      assert u in q0;
      MarkedFront(q0, s0);
      visited[u] := true;
      ghost var s1 := visited[..];
      assert s1 == s0[u := true];
      UnvisitedShrinks(s0, s1, u);
      if s0[u] {
        assert s1 == s0;
      }
      trace := trace + [u];
      q := Expand(g, visited, u, q[1..]);
      BfsRound(g.adj, v, s0, q0, q);
      MarkedTail(q, q0[1..], s1);
    }
    forall u: nat | u < g.vs && Reachable(g.adj, v, u) ensures u in trace {
      ClosedHoldsReachable(g.adj, visited[..], v, u);
    }
  }

  /** Appending unmarked entries to a queue leaves its marked count alone. */
  lemma {:induction false} MarkedTail(q: seq<nat>, p: seq<nat>, s: seq<bool>)
    requires |p| <= |q| && q[..|p|] == p
    requires forall k :: |p| <= k < |q| ==> q[k] < |s| && !s[q[k]]
    ensures Marked(q, s) == Marked(p, s)
  {
    if |q| > |p| {
      MarkedTail(q[..|q| - 1], p, s);
    } else {
      assert q == p;
    }
  }
}
