/** regular/src/graph/sc.rs: strong connectivity by two searches, and
    Tarjan's strongly connected components. */
module StrongConnect {
  import opened Graphs
  import opened TarjanInvariant

  /** `is_sc(g)`: true exactly when every vertex reaches every other. The
      source searches from vertex 0, so a graph without vertices panics. */
  method IsSc(g: Graph) returns (b: bool)
    requires g.Valid() && Closed(g.adj) && g.vs >= 1
    ensures b <==> forall u: nat, w: nat :: u < g.vs && w < g.vs ==> Reachable(g.adj, u, w)
  {
    var visited := new bool[g.vs](_ => false);
    ghost var s0 := visited[..];
    var trace := DfsRecur(g, 0, visited);
    SearchedAll(g.adj, s0, visited[..], trace, 0);
    if !(forall i | 0 <= i < g.vs :: visited[i]) {
      NotStronglyConnected(g.adj);
      return false;
    }
    var r := g.Transpose();
    TransposedClosed(g.adj);
    var back := new bool[g.vs](_ => false);
    ghost var t0 := back[..];
    trace := DfsRecur(r, 0, back);
    SearchedAll(r.adj, t0, back[..], trace, 0);
    b := forall i | 0 <= i < g.vs :: back[i];
    forall u: nat | u < g.vs ensures back[u] <==> Reachable(g.adj, u, 0) {
      TransposedReach(g.adj, u, 0);
    }
    if b {
      StronglyConnected(g.adj);
    } else {
      NotStronglyConnected(g.adj);
    }
  }

  /** Every vertex reaches every other exactly when vertex 0 reaches every
      vertex and every vertex reaches vertex 0. */
  lemma StronglyConnected(adj: Adj)
    requires |adj| >= 1
    requires forall u: nat :: u < |adj| ==> Reachable(adj, 0, u) && Reachable(adj, u, 0)
    ensures forall u: nat, w: nat :: u < |adj| && w < |adj| ==> Reachable(adj, u, w)
  {
    forall u: nat, w: nat | u < |adj| && w < |adj| ensures Reachable(adj, u, w) {
      ReachTrans(adj, u, 0, w);
    }
  }

  lemma NotStronglyConnected(adj: Adj)
    requires |adj| >= 1
    ensures (forall u: nat, w: nat :: u < |adj| && w < |adj| ==> Reachable(adj, u, w)) ==>
      forall u: nat :: u < |adj| ==> Reachable(adj, 0, u) && Reachable(adj, u, 0)
  {
  }

  /** `TarjanContext`: the DFS numbers, the low links, the stack of
      vertices not yet in a component, and the components found so far. */
  class TarjanContext {
    const g: Graph
    var dfnCnt: nat
    var dfn: seq<nat>
    var low: seq<nat>
    var stack: seq<nat>
    var inStack: seq<bool>
    var scc: seq<seq<nat>>
    /** For the proof only: for each vertex on the stack, the stack vertex
        whose number is its low link; which vertices are finished; and each
        emitted vertex's component index. */
    ghost var via: seq<nat>
    ghost var done: seq<bool>
    ghost var cid: seq<nat>

    ghost predicate Holds(pending: seq<nat>)
      reads this, g
    {
      g.Valid() && Closed(g.adj) && Inv(g.vs, dfnCnt, dfn, low, stack, inStack, scc, pending)
    }

    ghost predicate Valid()
      reads this, g
    {
      Holds([]) && Linked(g.adj, g.vs, dfn, low, stack, inStack, scc, via, done, cid)
    }

    /** The context `tarjan_scc` starts from: nothing numbered, an empty
        stack and no components. */
    constructor (g: Graph)
      requires g.Valid() && Closed(g.adj)
      ensures Valid() && this.g == g && stack == [] && scc == []
      ensures forall x :: 0 <= x < g.vs ==> dfn[x] == 0
    {
      this.g := g;
      dfnCnt := 0;
      dfn := seq(g.vs, _ => 0);
      low := seq(g.vs, _ => 0);
      stack := [];
      inStack := seq(g.vs, _ => false);
      scc := [];
      via := seq(g.vs, _ => 0);
      done := seq(g.vs, _ => false);
      cid := seq(g.vs, _ => 0);
    }

    /** One pass of the loop that closes a component: the top leaves the
        stack, is marked as no longer on it and is added to the component
        being built, which stays the popped part of s read top first; the
        loop goes on until u, at index k of s, has been popped. */
    method PopTop(u: nat, k: nat, ghost s: seq<nat>, ghost comp: seq<nat>) returns (top: nat)
      requires Holds(comp) && k < |stack| <= |s| && s[k] == u
      requires stack == s[..|stack|] && comp == Reversed(s[|stack|..])
      modifies this
      ensures |stack| == |old(stack)| - 1 && stack == s[..|stack|] && comp + [top] == Reversed(s[|stack|..])
      ensures Holds(comp + [top])
      ensures top == u ==> |stack| == k
      ensures top != u ==> k < |stack|
      ensures dfn == old(dfn) && low == old(low) && dfnCnt == old(dfnCnt) && scc == old(scc)
      ensures via == old(via) && done == old(done) && cid == old(cid)
    {
      ghost var m := |stack|;
      top := stack[|stack| - 1];
      PopKeeps(g.vs, dfnCnt, dfn, low, stack, inStack, scc, comp);
      PopShift(s, m, comp);
      stack := stack[..|stack| - 1];
      inStack := inStack[top := false];
      FirstAt(s, |stack|, k);
    }

    /** The loop that closes a component: the stack is popped down to u,
        which sits at index k, and the popped vertices, top first, become a
        new component. */
    method PopComponent(u: nat, k: nat)
      requires Holds([]) && k < |stack| && stack[k] == u
      modifies this
      ensures Holds([])
      ensures stack == old(stack)[..k]
      ensures scc == old(scc) + [Reversed(old(stack)[k..])]
      ensures dfn == old(dfn) && low == old(low) && dfnCnt == old(dfnCnt)
      ensures via == old(via) && done == old(done) && cid == old(cid)
    {
      ghost var s := stack;
      var comp: seq<nat> := [];
      var finished := false;
      while !finished
        invariant Holds(comp) && dfn == old(dfn) && low == old(low) && dfnCnt == old(dfnCnt) && scc == old(scc)
        invariant via == old(via) && done == old(done) && cid == old(cid)
        invariant k <= |stack| <= |s| && stack == s[..|stack|] && comp == Reversed(s[|stack|..])
        invariant finished ==> |stack| == k
        invariant !finished ==> k < |stack|
        decreases |stack|
      {
        var top := PopTop(u, k, s, comp);
        comp := comp + [top];
        finished := top == u;
      }
      EmitKeeps(g.vs, dfnCnt, dfn, low, stack, inStack, scc, comp);
      scc := scc + [comp];
    }

    /** The search from u with its first j edges followed, as Exploring
        and Rooted state it, in a valid context. */
    ghost predicate Following(u: nat, j: nat, bottom: nat, du: nat, s0: seq<nat>, d0: seq<nat>, l0: seq<nat>,
                              dn0: seq<bool>)
      reads this, g
    {
      Valid() && Exploring(g.vs, dfn, low, stack, u, bottom, s0, d0, l0) &&
      Rooted(g.adj, g.vs, dfn, low, inStack, done, stack, u, j, du, s0, d0, dn0)
    }

    /** `tarjan_scc_recur(ctx, u)` for an unnumbered u: u gets the next
        number and goes on the stack, its edges are followed, and when its
        low link equals its number the component rooted at u is popped;
        Searched states what that leaves against the state before. */
    method Recur(u: nat)
      requires Valid() && u < g.vs && dfn[u] == 0
      modifies this
      ensures Valid()
      ensures Searched(g.adj, g.vs, old(stack), old(dfn), old(low), old(done), dfn, low, done, inStack, stack,
                       u, old(dfnCnt) + 1)
      decreases Unnumbered(dfn), 1
    {
      ghost var s0, d0, l0, dn0 := stack, dfn, low, done;
      ghost var du := dfnCnt + 1;
      var base := |stack|;
      Enter(u);
      ghost var bottom := (s0 + [u])[0];
      for j := 0 to |g.adj[u]|
        invariant Following(u, j, bottom, du, s0, d0, l0, dn0)
      {
        UnnumberedShrinks(d0, dfn, u);
        Follow(u, j, bottom, du, s0, d0, l0, dn0);
      }
      Leave(u, base, bottom, du, s0, d0, l0, dn0);
    }

    /** The start of `tarjan_scc_recur`: u takes the next number as its
        number and its low link, and is pushed. */
    method Enter(u: nat)
      requires Valid() && u < g.vs && dfn[u] == 0
      modifies this
      ensures Following(u, 0, (old(stack) + [u])[0], old(dfnCnt) + 1, old(stack), old(dfn), old(low), old(done))
      ensures dfnCnt == old(dfnCnt) + 1 && dfn == old(dfn)[u := dfnCnt] && low == old(low)[u := dfnCnt]
      ensures stack == old(stack) + [u] && inStack == old(inStack)[u := true] && scc == old(scc)
    {
      var dfn2, low2, stack2, inStack2 := dfn[u := dfnCnt + 1], low[u := dfnCnt + 1], stack + [u], inStack[u := true];
      ghost var via2 := via[u := u];
      EnterStep(g.adj, g.vs, dfnCnt, dfn, low, stack, inStack, scc, via, done, cid, u, dfn2, low2, stack2, inStack2, via2);
      dfnCnt, dfn, low, stack, inStack, via := dfnCnt + 1, dfn2, low2, stack2, inStack2, via2;
    }

    /** The end of `tarjan_scc_recur`: u is finished; when its low link is
        its own number, u is the root of a component, which is popped;
        otherwise u stays on the stack. */
    method Leave(u: nat, base: nat, ghost bottom: nat, ghost du: nat, ghost s0: seq<nat>, ghost d0: seq<nat>,
                 ghost l0: seq<nat>, ghost dn0: seq<bool>)
      requires u < |g.adj| && Following(u, |g.adj[u]|, bottom, du, s0, d0, l0, dn0) && base == |s0|
      modifies this
      ensures Valid()
      ensures Searched(g.adj, g.vs, s0, d0, l0, dn0, dfn, low, done, inStack, stack, u, du)
    {
      FinishStep(g.adj, g.vs, dfnCnt, dfn, low, stack, inStack, scc, via, done, cid, u, bottom, du, s0, d0, l0, dn0);
      done := done[u := true];
      if dfn[u] == low[u] {
        ghost var st, ins, sc := stack, inStack, scc;
        PopComponent(u, base);
        CloseStep(g.adj, g.vs, dfnCnt, dfn, low, st, ins, sc, via, done, cid, u, bottom, du, s0, d0, l0, dn0, inStack);
        cid := Stamp(cid, st[base..], |sc|);
      }
    }

    /** One pass of the loop over u's edges, for its j-th edge, to v: an
        unnumbered v is searched (TreeEdge); a v still on the stack lends u
        its number as a low link; any other v changes nothing. */
    method Follow(u: nat, j: nat, ghost bottom: nat, ghost du: nat, ghost s0: seq<nat>, ghost d0: seq<nat>,
                  ghost l0: seq<nat>, ghost dn0: seq<bool>)
      requires Following(u, j, bottom, du, s0, d0, l0, dn0) && j < |g.adj[u]|
      modifies this
      ensures Following(u, j + 1, bottom, du, s0, d0, l0, dn0)
      decreases Unnumbered(dfn), 3
    {
      var v := g.adj[u][j];
      if dfn[v] == 0 {
        TreeEdge(u, j, bottom, du, s0, d0, l0, dn0);
      } else if inStack[v] {
        ghost var w := BackStep(g.adj, g.vs, dfnCnt, dfn, low, stack, inStack, scc, via, done, cid,
                                u, j, bottom, du, s0, d0, l0, dn0);
        low := low[u := Min(low[u], dfn[v])];
        via := via[u := w];
      } else {
        SkipStep(g.adj, g.vs, dfn, low, inStack, done, stack, u, j, du, s0, d0, dn0);
      }
    }

    /** The j-th edge of u leads to an unnumbered v: v is searched, and
        u's low link takes the smaller of its own and v's. */
    method TreeEdge(u: nat, j: nat, ghost bottom: nat, ghost du: nat, ghost s0: seq<nat>, ghost d0: seq<nat>,
                    ghost l0: seq<nat>, ghost dn0: seq<bool>)
      requires Following(u, j, bottom, du, s0, d0, l0, dn0) && j < |g.adj[u]| && dfn[g.adj[u][j]] == 0
      modifies this
      ensures Following(u, j + 1, bottom, du, s0, d0, l0, dn0)
      decreases Unnumbered(dfn), 2
    {
      var v := g.adj[u][j];
      ghost var dfn1, low1, st1, in1, done1, dv := dfn, low, stack, inStack, done, dfnCnt + 1;
      Recur(v);
      assert st1[|s0|] == u by {
        assert st1[..|s0| + 1][|s0|] == u;
      }
      ghost var w := TreeLower(g.adj, g.vs, dfnCnt, dfn, low, stack, inStack, scc, via, done, cid,
                               u, v, |s0|, dfn1, low1, done1, st1, dv);
      TreeFollowing(g.adj, g.vs, dfn, low, inStack, done, stack, u, j, bottom, du, s0, d0, l0, dn0,
                    dfn1, low1, st1, in1, done1, dv, Min(low[u], low[v]));
      low := low[u := Min(low[u], low[v])];
      via := via[u := w];
    }
  }

  /** `tarjan_scc(g)`: every vertex lies in exactly one of the returned
      components, none of them is empty, the members of a component reach
      each other, and two vertices that reach each other lie in the same
      component: the components are the strongly connected components. */
  method TarjanScc(g: Graph) returns (scc: seq<seq<nat>>)
    requires g.Valid() && Closed(g.adj)
    ensures forall x: nat :: Count(Flatten(scc), x) == if x < g.vs then 1 else 0
    ensures forall x: nat :: x in Flatten(scc) <==> x < g.vs
    ensures forall c :: c in scc ==> c != []
    ensures forall c, x, y :: c in scc && x in c && y in c ==> Reachable(g.adj, x, y)
    ensures forall i, j, x, y ::
      0 <= i < |scc| && 0 <= j < |scc| && x in scc[i] && y in scc[j] && Reachable(g.adj, x, y) && Reachable(g.adj, y, x)
      ==> i == j
  {
    var ctx := new TarjanContext(g);
    for u := 0 to g.vs
      invariant ctx.Valid() && ctx.g == g && ctx.stack == []
      invariant forall x :: 0 <= x < u ==> ctx.dfn[x] != 0
    {
      if ctx.dfn[u] != 0 {
        continue;
      }
      ctx.Recur(u);
    }
    scc := ctx.scc;
    assert Flatten(scc) + [] + [] == Flatten(scc);
    forall x: nat ensures x in Flatten(scc) <==> x < g.vs {
      CountPositive(Flatten(scc), x);
    }
    forall c, x, y | c in scc && x in c && y in c ensures Reachable(g.adj, x, y) {
      var i :| 0 <= i < |scc| && scc[i] == c;
    }
    ghost var cid := ctx.cid;
    assert forall x :: 0 <= x < g.vs ==> ctx.dfn[x] != 0 && !ctx.inStack[x];
    forall i, j, x, y | 0 <= i < |scc| && 0 <= j < |scc| && x in scc[i] && y in scc[j] &&
      Reachable(g.adj, x, y) && Reachable(g.adj, y, x)
      ensures i == j
    {
      var p :| PathFrom(g.adj, p, x, y);
      var q :| PathFrom(g.adj, q, y, x);
      IndexFalls(g.adj, cid, p);
      IndexFalls(g.adj, cid, q);
    }
  }
}
