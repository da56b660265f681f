/** The invariants of Tarjan's search and how each step keeps them. */
module TarjanInvariant {
  import opened Graphs

  /** The concatenation of the components, in emission order. */
  function Flatten(ss: seq<seq<nat>>): seq<nat>
  {
    if ss == [] then [] else Flatten(ss[..|ss| - 1]) + ss[|ss| - 1]
  }

  /** The number of vertices without a DFS number. */
  function Unnumbered(dfn: seq<nat>): nat
  {
    if dfn == [] then 0 else Unnumbered(dfn[..|dfn| - 1]) + if dfn[|dfn| - 1] == 0 then 1 else 0
  }

  lemma {:induction false} UnnumberedShrinks(d: seq<nat>, e: seq<nat>, k: nat)
    requires |d| == |e| && forall i :: 0 <= i < |d| && d[i] != 0 ==> e[i] != 0
    ensures Unnumbered(e) <= Unnumbered(d)
    ensures k < |d| && d[k] == 0 && e[k] != 0 ==> Unnumbered(e) < Unnumbered(d)
  {
    if d != [] {
      UnnumberedShrinks(d[..|d| - 1], e[..|e| - 1], k);
    }
  }

  function Min(a: nat, b: nat): nat
  {
    if a <= b then a else b
  }

  /** The invariant of Tarjan's search over n vertices, with the vertices
      of `pending` popped from the stack but not yet emitted as a
      component: every numbered vertex occurs exactly once among the
      components, pending and the stack, and no other vertex occurs there;
      numbers are at most cnt; a low link is at most its vertex's number;
      `in_stack` mirrors the stack; no vertex on the stack has a smaller
      number than its bottom; and no component is empty. */
  ghost predicate Inv(n: nat, cnt: nat, dfn: seq<nat>, low: seq<nat>, stack: seq<nat>, inStack: seq<bool>,
                      scc: seq<seq<nat>>, pending: seq<nat>)
  {
    |dfn| == n && |low| == n && |inStack| == n &&
    (forall x: nat {:trigger Count(Flatten(scc) + pending + stack, x)} ::
       Count(Flatten(scc) + pending + stack, x) == if x < n && dfn[x] != 0 then 1 else 0) &&
    (forall x :: 0 <= x < n ==> dfn[x] <= cnt) &&
    (forall x :: 0 <= x < n && dfn[x] != 0 ==> low[x] <= dfn[x]) &&
    (forall x :: 0 <= x < n ==> (inStack[x] <==> x in stack)) &&
    (forall i :: 0 <= i < |stack| ==> stack[i] < n && dfn[stack[i]] != 0) &&
    (forall i :: 0 <= i < |stack| ==> dfn[stack[0]] <= dfn[stack[i]]) &&
    (forall c :: c in scc ==> c != [])
  }

  /** Appending an unnumbered u and numbering it keeps every numbered
      vertex counted once. */
  lemma PushCount(n: nat, all: seq<nat>, dfn: seq<nat>, u: nat, c: nat)
    requires |dfn| == n && u < n && dfn[u] == 0 && c != 0
    requires forall x: nat :: Count(all, x) == if x < n && dfn[x] != 0 then 1 else 0
    ensures forall x: nat :: Count(all + [u], x) == if x < n && dfn[u := c][x] != 0 then 1 else 0
  {
    forall x: nat ensures Count(all + [u], x) == if x < n && dfn[u := c][x] != 0 then 1 else 0 {
      CountAppend(all, [u], x);
      CountOne(u, x);
    }
  }

  /** Numbering an unnumbered u with cnt + 1 and pushing it keeps the
      invariant. */
  lemma PushKeeps(n: nat, cnt: nat, dfn: seq<nat>, low: seq<nat>, stack: seq<nat>, inStack: seq<bool>,
                  scc: seq<seq<nat>>, u: nat)
    requires Inv(n, cnt, dfn, low, stack, inStack, scc, []) && u < n && dfn[u] == 0
    ensures Inv(n, cnt + 1, dfn[u := cnt + 1], low[u := cnt + 1], stack + [u], inStack[u := true], scc, [])
  {
    var d := dfn[u := cnt + 1];
    assert Flatten(scc) + [] + (stack + [u]) == (Flatten(scc) + [] + stack) + [u];
    PushCount(n, Flatten(scc) + [] + stack, dfn, u, cnt + 1);
    var st := stack + [u];
    forall i | 0 <= i < |st| ensures d[st[0]] <= d[st[i]] {
      if stack != [] {
        assert st[0] == stack[0];
      }
      if i < |stack| {
        assert st[i] == stack[i] && st[0] == stack[0];
      }
    }
  }

  /** Lowering a low link keeps the invariant. */
  lemma LowerKeeps(n: nat, cnt: nat, dfn: seq<nat>, low: seq<nat>, stack: seq<nat>, inStack: seq<bool>,
                   scc: seq<seq<nat>>, u: nat, m: nat)
    requires Inv(n, cnt, dfn, low, stack, inStack, scc, []) && u < n && m <= low[u]
    ensures Inv(n, cnt, dfn, low[u := m], stack, inStack, scc, [])
  {
  }

  /** Popping the top of the stack onto the pending component keeps the
      invariant, and the top occurs nowhere else on the stack. */
  lemma PopKeeps(n: nat, cnt: nat, dfn: seq<nat>, low: seq<nat>, stack: seq<nat>, inStack: seq<bool>,
                 scc: seq<seq<nat>>, pending: seq<nat>)
    requires Inv(n, cnt, dfn, low, stack, inStack, scc, pending) && stack != []
    ensures var top := stack[|stack| - 1];
      top !in stack[..|stack| - 1] &&
      Inv(n, cnt, dfn, low, stack[..|stack| - 1], inStack[top := false], scc, pending + [top])
  {
    var f := Flatten(scc) + pending;
    var top := stack[|stack| - 1];
    var rest := stack[..|stack| - 1];
    assert Flatten(scc) + pending + stack == f + rest + [top];
    assert Flatten(scc) + (pending + [top]) + rest == f + [top] + rest;
    forall x: nat ensures Count(f + [top] + rest, x) == Count(f + rest + [top], x)
      && Count(f + rest + [top], x) == Count(f, x) + Count(rest, x) + Count([top], x)
    {
      CountAppend(f + [top], rest, x);
      CountAppend(f, [top], x);
      CountAppend(f + rest, [top], x);
      CountAppend(f, rest, x);
    }
    CountOne(top, top);
    CountPositive(rest, top);
    forall x | 0 <= x < n ensures inStack[top := false][x] <==> x in rest {
      assert x in stack <==> x in rest || x == top;
    }
  }

  /** A vertex on the stack has a number no smaller than the bottom's. */
  lemma AboveBottom(n: nat, cnt: nat, dfn: seq<nat>, low: seq<nat>, stack: seq<nat>, inStack: seq<bool>,
                    scc: seq<seq<nat>>, v: nat)
    requires Inv(n, cnt, dfn, low, stack, inStack, scc, []) && v < n && inStack[v]
    ensures stack != [] && dfn[stack[0]] <= dfn[v]
  {
    var i :| 0 <= i < |stack| && stack[i] == v;
  }

  /** Emitting the pending vertices as a new component keeps the
      invariant. */
  lemma EmitKeeps(n: nat, cnt: nat, dfn: seq<nat>, low: seq<nat>, stack: seq<nat>, inStack: seq<bool>,
                  scc: seq<seq<nat>>, comp: seq<nat>)
    requires Inv(n, cnt, dfn, low, stack, inStack, scc, comp) && comp != []
    ensures Inv(n, cnt, dfn, low, stack, inStack, scc + [comp], [])
  {
    assert (scc + [comp])[..|scc|] == scc;
    assert Flatten(scc + [comp]) + [] + stack == Flatten(scc) + comp + stack;
  }

  /** Numbers rise strictly from the bottom of the stack to its top. */
  ghost predicate Rising(dfn: seq<nat>, stack: seq<nat>)
  {
    (forall i :: 0 <= i < |stack| ==> stack[i] < |dfn|) &&
    forall i, k {:trigger dfn[stack[i]], dfn[stack[k]]} :: 0 <= i < k < |stack| ==> dfn[stack[i]] < dfn[stack[k]]
  }

  /** On a rising stack, comparing numbers is comparing positions. */
  lemma RisingLe(dfn: seq<nat>, stack: seq<nat>, i: nat, k: nat)
    requires Rising(dfn, stack) && i < |stack| && k < |stack|
    ensures dfn[stack[i]] <= dfn[stack[k]] <==> i <= k
  {
  }

  lemma ReversedHas(s: seq<nat>, x: nat)
    ensures x in Reversed(s) <==> x in s
  {
    var r := Reversed(s);
    if x in s {
      var i :| 0 <= i < |s| && s[i] == x;
      assert r[|s| - 1 - i] == x;
    }
    if x in r {
      var i :| 0 <= i < |r| && r[i] == x;
      assert s[|s| - 1 - i] == x;
    }
  }

  /** cid with every vertex of c given the component index k. */
  function Stamp(cid: seq<nat>, c: seq<nat>, k: nat): seq<nat>
  {
    seq(|cid|, x requires 0 <= x < |cid| => if x in c then k else cid[x])
  }

  /** Each vertex x on the stack reaches the stack vertex via[x], whose
      number is x's low link. */
  ghost predicate Witnessed(adj: Adj, n: nat, dfn: seq<nat>, low: seq<nat>, inStack: seq<bool>, via: seq<nat>)
  {
    |dfn| == n && |low| == n && |inStack| == n && |via| == n &&
    forall x {:trigger via[x]} :: 0 <= x < n && inStack[x] ==>
      via[x] < n && inStack[via[x]] && dfn[via[x]] == low[x] && Reachable(adj, x, via[x])
  }

  /** A finished vertex (done) is numbered, and each of its edges ends at a
      numbered vertex, numbered no lower than its low link while that
      vertex is on the stack. */
  ghost predicate Closing(adj: Adj, n: nat, dfn: seq<nat>, low: seq<nat>, inStack: seq<bool>, done: seq<bool>)
  {
    Closed(adj) && |adj| == n && |dfn| == n && |low| == n && |inStack| == n && |done| == n &&
    (forall x {:trigger done[x]} :: 0 <= x < n && done[x] ==> dfn[x] != 0) &&
    forall x, j :: 0 <= x < n && done[x] && 0 <= j < |adj[x]| ==>
      dfn[adj[x][j]] != 0 && (inStack[adj[x][j]] ==> low[x] <= dfn[adj[x][j]])
  }

  /** A member of component i is numbered, off the stack and has the index
      cid i; a numbered vertex off the stack has the index of an emitted
      component. */
  ghost predicate Labelled(n: nat, dfn: seq<nat>, inStack: seq<bool>, scc: seq<seq<nat>>, cid: seq<nat>)
  {
    |dfn| == n && |inStack| == n && |cid| == n &&
    (forall i, x {:trigger x in scc[i]} :: 0 <= i < |scc| && x in scc[i] ==>
       x < n && dfn[x] != 0 && !inStack[x] && cid[x] == i) &&
    forall x {:trigger cid[x]} :: 0 <= x < n && dfn[x] != 0 && !inStack[x] ==> cid[x] < |scc|
  }

  /** Each edge out of a numbered vertex off the stack ends at a numbered
      vertex off the stack whose index is no larger. */
  ghost predicate Downward(adj: Adj, n: nat, dfn: seq<nat>, inStack: seq<bool>, cid: seq<nat>)
  {
    Closed(adj) && |adj| == n && |dfn| == n && |inStack| == n && |cid| == n &&
    forall x, j :: 0 <= x < n && dfn[x] != 0 && !inStack[x] && 0 <= j < |adj[x]| ==>
      dfn[adj[x][j]] != 0 && !inStack[adj[x][j]] && cid[adj[x][j]] <= cid[x]
  }

  /** The members of each component reach each other. */
  ghost predicate Connected(adj: Adj, scc: seq<seq<nat>>)
  {
    forall i, x, y {:trigger x in scc[i], y in scc[i]} :: 0 <= i < |scc| && x in scc[i] && y in scc[i] ==>
      Reachable(adj, x, y)
  }

  /** What the search knows about paths of the graph adj, with the
      low-link witnesses via, the finished vertices done and the component
      indices cid. */
  ghost predicate Linked(adj: Adj, n: nat, dfn: seq<nat>, low: seq<nat>, stack: seq<nat>, inStack: seq<bool>,
                         scc: seq<seq<nat>>, via: seq<nat>, done: seq<bool>, cid: seq<nat>)
  {
    Rising(dfn, stack) && Witnessed(adj, n, dfn, low, inStack, via) && Closing(adj, n, dfn, low, inStack, done) &&
    Labelled(n, dfn, inStack, scc, cid) && Downward(adj, n, dfn, inStack, cid) && Connected(adj, scc)
  }

  /** `in_stack` mirrors the stack, whose vertices are below n. */
  ghost predicate Mirrors(n: nat, stack: seq<nat>, inStack: seq<bool>)
  {
    |inStack| == n && (forall i :: 0 <= i < |stack| ==> stack[i] < n) &&
    forall x :: 0 <= x < n ==> (inStack[x] <==> x in stack)
  }

  /** The stack from index b up is the part of the search below
      u = stack[b] still on the stack: u and finished vertices that u
      reaches, whose low links are no lower than u's and, above u, lower
      than their own numbers. */
  ghost predicate Subtree(adj: Adj, dfn: seq<nat>, low: seq<nat>, done: seq<bool>, stack: seq<nat>, b: nat)
  {
    b < |stack| && Rising(dfn, stack) && |low| == |dfn| && |done| == |dfn| &&
    forall i :: b <= i < |stack| ==>
      Reachable(adj, stack[b], stack[i]) && low[stack[b]] <= low[stack[i]] &&
      (b < i ==> done[stack[i]] && low[stack[i]] < dfn[stack[i]])
  }

  lemma PushWitnessed(adj: Adj, n: nat, dfn: seq<nat>, low: seq<nat>, inStack: seq<bool>, via: seq<nat>, u: nat, c: nat)
    requires Witnessed(adj, n, dfn, low, inStack, via) && u < n && !inStack[u]
    ensures Witnessed(adj, n, dfn[u := c], low[u := c], inStack[u := true], via[u := u])
  {
    ReachSelf(adj, u);
  }

  lemma PushClosing(adj: Adj, n: nat, dfn: seq<nat>, low: seq<nat>, inStack: seq<bool>, done: seq<bool>, u: nat, c: nat)
    requires Closing(adj, n, dfn, low, inStack, done) && u < n && dfn[u] == 0
    ensures Closing(adj, n, dfn[u := c], low[u := c], inStack[u := true], done)
  {
  }

  lemma PushLabelled(n: nat, dfn: seq<nat>, inStack: seq<bool>, scc: seq<seq<nat>>, cid: seq<nat>, u: nat, c: nat)
    requires Labelled(n, dfn, inStack, scc, cid) && u < n && dfn[u] == 0
    ensures Labelled(n, dfn[u := c], inStack[u := true], scc, cid)
  {
    forall i, x | 0 <= i < |scc| && x in scc[i] ensures x < n && x != u {
      assert x < n && dfn[x] != 0;
    }
  }

  lemma PushDownward(adj: Adj, n: nat, dfn: seq<nat>, inStack: seq<bool>, cid: seq<nat>, u: nat, c: nat)
    requires Downward(adj, n, dfn, inStack, cid) && u < n && dfn[u] == 0
    ensures Downward(adj, n, dfn[u := c], inStack[u := true], cid)
  {
  }

  /** Numbering an unnumbered u, off the stack, with cnt + 1 and pushing
      it, with itself as the witness of its low link, keeps what is known
      about paths. */
  lemma PushLinked(adj: Adj, n: nat, cnt: nat, dfn: seq<nat>, low: seq<nat>, stack: seq<nat>, inStack: seq<bool>,
                   scc: seq<seq<nat>>, via: seq<nat>, done: seq<bool>, cid: seq<nat>, u: nat)
    requires Linked(adj, n, dfn, low, stack, inStack, scc, via, done, cid)
    requires u < n && dfn[u] == 0 && !inStack[u] && u !in stack && forall x :: 0 <= x < n ==> dfn[x] <= cnt
    ensures Linked(adj, n, dfn[u := cnt + 1], low[u := cnt + 1], stack + [u], inStack[u := true], scc,
                   via[u := u], done, cid)
  {
    PushWitnessed(adj, n, dfn, low, inStack, via, u, cnt + 1);
    PushClosing(adj, n, dfn, low, inStack, done, u, cnt + 1);
    PushLabelled(n, dfn, inStack, scc, cid, u, cnt + 1);
    PushDownward(adj, n, dfn, inStack, cid, u, cnt + 1);
    var st := stack + [u];
    var d := dfn[u := cnt + 1];
    forall i, k | 0 <= i < k < |st| ensures d[st[i]] < d[st[k]] {
      assert st[i] == stack[i];
      if k < |stack| {
        assert st[k] == stack[k];
      }
    }
  }

  /** Lowering the low link of an unfinished u on the stack to the number of
      a stack vertex w that u reaches keeps what is known about paths. */
  lemma LowerLinked(adj: Adj, n: nat, dfn: seq<nat>, low: seq<nat>, stack: seq<nat>, inStack: seq<bool>,
                    scc: seq<seq<nat>>, via: seq<nat>, done: seq<bool>, cid: seq<nat>, u: nat, w: nat)
    requires Linked(adj, n, dfn, low, stack, inStack, scc, via, done, cid)
    requires u < n && inStack[u] && !done[u] && w < n && inStack[w] && Reachable(adj, u, w)
    ensures Linked(adj, n, dfn, low[u := dfn[w]], stack, inStack, scc, via[u := w], done, cid)
  {
    assert Witnessed(adj, n, dfn, low[u := dfn[w]], inStack, via[u := w]);
    assert Closing(adj, n, dfn, low[u := dfn[w]], inStack, done);
  }

  /** Marking u finished once each of its edges ends at a numbered vertex,
      numbered no lower than u's low link while on the stack, keeps what is
      known about paths. */
  lemma FinishLinked(adj: Adj, n: nat, dfn: seq<nat>, low: seq<nat>, stack: seq<nat>, inStack: seq<bool>,
                     scc: seq<seq<nat>>, via: seq<nat>, done: seq<bool>, cid: seq<nat>, u: nat)
    requires Linked(adj, n, dfn, low, stack, inStack, scc, via, done, cid) && u < n && dfn[u] != 0
    requires forall j :: 0 <= j < |adj[u]| ==> dfn[adj[u][j]] != 0 && (inStack[adj[u][j]] ==> low[u] <= dfn[adj[u][j]])
    ensures Linked(adj, n, dfn, low, stack, inStack, scc, via, done[u := true], cid)
  {
    assert Closing(adj, n, dfn, low, inStack, done[u := true]);
  }

  /** Every vertex of the stack from a root u = stack[b] up, whose low link
      is its own number, reaches u: its low-link witness lies lower on the
      stack, but not below u. */
  lemma {:induction false} ToRoot(adj: Adj, n: nat, dfn: seq<nat>, low: seq<nat>, stack: seq<nat>, inStack: seq<bool>,
                                  via: seq<nat>, done: seq<bool>, b: nat, k: nat)
    requires Witnessed(adj, n, dfn, low, inStack, via) && Mirrors(n, stack, inStack)
    requires Subtree(adj, dfn, low, done, stack, b) && low[stack[b]] == dfn[stack[b]] && b <= k < |stack|
    ensures Reachable(adj, stack[k], stack[b])
    decreases k
  {
    if k == b {
      ReachSelf(adj, stack[b]);
    } else {
      var x := stack[k];
      assert inStack[x];
      var w := via[x];
      var p :| 0 <= p < |stack| && stack[p] == w;
      RisingLe(dfn, stack, k, p);
      RisingLe(dfn, stack, b, p);
      ToRoot(adj, n, dfn, low, stack, inStack, via, done, b, p);
      ReachTrans(adj, x, w, stack[b]);
    }
  }

  /** Cutting a rising stack at b: a vertex is on the whole stack exactly
      when it is below the cut or in the part from the cut up, and never in
      both. */
  lemma SplitApart(n: nat, dfn: seq<nat>, stack: seq<nat>, inStack: seq<bool>, b: nat, inStack2: seq<bool>)
    requires Rising(dfn, stack) && Mirrors(n, stack, inStack) && b <= |stack| && Mirrors(n, stack[..b], inStack2)
    ensures forall x :: 0 <= x < n ==> (inStack[x] <==> inStack2[x] || x in stack[b..])
    ensures forall x :: 0 <= x < n && x in stack[b..] ==> !inStack2[x]
  {
    var top, rest := stack[b..], stack[..b];
    assert stack == rest + top;
    forall x | 0 <= x < n && x in top ensures x !in rest {
      var k :| 0 <= k < |top| && top[k] == x;
      forall i | 0 <= i < b ensures rest[i] != x {
        assert stack[b + k] == x && rest[i] == stack[i];
        RisingLe(dfn, stack, b + k, i);
      }
    }
  }

  lemma EmitWitnessed(adj: Adj, n: nat, dfn: seq<nat>, low: seq<nat>, stack: seq<nat>, inStack: seq<bool>,
                      via: seq<nat>, b: nat, inStack2: seq<bool>)
    requires Witnessed(adj, n, dfn, low, inStack, via) && Rising(dfn, stack) && Mirrors(n, stack, inStack)
    requires b <= |stack| && Mirrors(n, stack[..b], inStack2)
    requires forall x :: 0 <= x < n && inStack[x] ==> low[x] <= dfn[x]
    ensures Witnessed(adj, n, dfn, low, inStack2, via)
  {
    var rest := stack[..b];
    forall x | 0 <= x < n && inStack2[x] ensures inStack2[via[x]] {
      var i :| 0 <= i < b && rest[i] == x;
      var w := via[x];
      var p :| 0 <= p < |stack| && stack[p] == w;
      RisingLe(dfn, stack, p, i);
      assert rest[p] == w;
    }
  }

  lemma EmitLabelled(n: nat, dfn: seq<nat>, stack: seq<nat>, inStack: seq<bool>, scc: seq<seq<nat>>, cid: seq<nat>,
                     b: nat, inStack2: seq<bool>)
    requires Labelled(n, dfn, inStack, scc, cid) && Rising(dfn, stack) && Mirrors(n, stack, inStack)
    requires b <= |stack| && Mirrors(n, stack[..b], inStack2)
    requires forall i :: 0 <= i < |stack| ==> dfn[stack[i]] != 0
    ensures Labelled(n, dfn, inStack2, scc + [Reversed(stack[b..])], Stamp(cid, stack[b..], |scc|))
  {
    var top := stack[b..];
    var scc2 := scc + [Reversed(top)];
    var cid2 := Stamp(cid, top, |scc|);
    SplitApart(n, dfn, stack, inStack, b, inStack2);
    forall i, x | 0 <= i < |scc2| && x in scc2[i]
      ensures x < n && dfn[x] != 0 && !inStack2[x] && cid2[x] == i
    {
      if i < |scc| {
        assert scc2[i] == scc[i];
        assert x < n && !inStack[x];
        assert inStack[x] <==> inStack2[x] || x in top;
      } else {
        assert scc2[i] == Reversed(top);
        ReversedHas(top, x);
        var k :| 0 <= k < |top| && top[k] == x;
        assert stack[b + k] == x;
      }
    }
  }

  lemma EmitDownward(adj: Adj, n: nat, dfn: seq<nat>, low: seq<nat>, stack: seq<nat>, inStack: seq<bool>,
                     scc: seq<seq<nat>>, done: seq<bool>, cid: seq<nat>, b: nat, inStack2: seq<bool>)
    requires Downward(adj, n, dfn, inStack, cid) && Closing(adj, n, dfn, low, inStack, done)
    requires Labelled(n, dfn, inStack, scc, cid) && Mirrors(n, stack, inStack)
    requires Subtree(adj, dfn, low, done, stack, b) && done[stack[b]] && low[stack[b]] == dfn[stack[b]]
    requires Mirrors(n, stack[..b], inStack2)
    ensures Downward(adj, n, dfn, inStack2, Stamp(cid, stack[b..], |scc|))
  {
    var u, top := stack[b], stack[b..];
    var cid2 := Stamp(cid, top, |scc|);
    SplitApart(n, dfn, stack, inStack, b, inStack2);
    forall x, j | 0 <= x < n && dfn[x] != 0 && !inStack2[x] && 0 <= j < |adj[x]|
      ensures dfn[adj[x][j]] != 0 && !inStack2[adj[x][j]] && cid2[adj[x][j]] <= cid2[x]
    {
      var y := adj[x][j];
      if x in top {
        var k :| 0 <= k < |top| && top[k] == x;
        assert stack[b + k] == x;
        assert done[x] && dfn[u] <= low[x];
        if inStack[y] {
          var p :| 0 <= p < |stack| && stack[p] == y;
          RisingLe(dfn, stack, b, p);
          assert top[p - b] == y;
        }
      }
    }
  }

  lemma EmitConnected(adj: Adj, n: nat, dfn: seq<nat>, low: seq<nat>, stack: seq<nat>, inStack: seq<bool>,
                      scc: seq<seq<nat>>, via: seq<nat>, done: seq<bool>, b: nat)
    requires Connected(adj, scc) && Witnessed(adj, n, dfn, low, inStack, via) && Mirrors(n, stack, inStack)
    requires Subtree(adj, dfn, low, done, stack, b) && low[stack[b]] == dfn[stack[b]]
    ensures Connected(adj, scc + [Reversed(stack[b..])])
  {
    var u, top := stack[b], stack[b..];
    var scc2 := scc + [Reversed(top)];
    forall i, x, y | 0 <= i < |scc2| && x in scc2[i] && y in scc2[i] ensures Reachable(adj, x, y) {
      if i < |scc| {
        assert scc2[i] == scc[i];
      } else {
        assert scc2[i] == Reversed(top);
        ReversedHas(top, x);
        ReversedHas(top, y);
        var kx :| 0 <= kx < |top| && top[kx] == x;
        var ky :| 0 <= ky < |top| && top[ky] == y;
        ToRoot(adj, n, dfn, low, stack, inStack, via, done, b, b + kx);
        assert stack[b + ky] == y;
        ReachTrans(adj, x, u, y);
      }
    }
  }

  /** Popping the stack down to a root u = stack[b] whose low link is its
      own number, and emitting the popped vertices as component |scc|,
      keeps what is known about paths: the new component's members reach
      each other through u, and each edge out of it ends in it or in an
      earlier component. */
  lemma EmitLinked(adj: Adj, n: nat, cnt: nat, dfn: seq<nat>, low: seq<nat>, stack: seq<nat>, inStack: seq<bool>,
                   scc: seq<seq<nat>>, via: seq<nat>, done: seq<bool>, cid: seq<nat>, b: nat, inStack2: seq<bool>)
    requires Inv(n, cnt, dfn, low, stack, inStack, scc, []) && Linked(adj, n, dfn, low, stack, inStack, scc, via, done, cid)
    requires Subtree(adj, dfn, low, done, stack, b) && done[stack[b]] && low[stack[b]] == dfn[stack[b]]
    requires Mirrors(n, stack[..b], inStack2)
    ensures Linked(adj, n, dfn, low, stack[..b], inStack2, scc + [Reversed(stack[b..])], via, done,
                   Stamp(cid, stack[b..], |scc|))
  {
    assert Mirrors(n, stack, inStack);
    SplitApart(n, dfn, stack, inStack, b, inStack2);
    EmitWitnessed(adj, n, dfn, low, stack, inStack, via, b, inStack2);
    assert Closing(adj, n, dfn, low, inStack2, done);
    EmitLabelled(n, dfn, stack, inStack, scc, cid, b, inStack2);
    EmitDownward(adj, n, dfn, low, stack, inStack, scc, done, cid, b, inStack2);
    EmitConnected(adj, n, dfn, low, stack, inStack, scc, via, done, b);
    var rest := stack[..b];
    assert Rising(dfn, rest) by {
      forall i, k | 0 <= i < k < |rest| ensures dfn[rest[i]] < dfn[rest[k]] {
        assert rest[i] == stack[i] && rest[k] == stack[k];
      }
    }
  }

  /** Along a path of a closed graph whose every edge leads to a vertex with
      an index no larger, the index never grows. */
  lemma {:induction false} IndexFalls(adj: Adj, cid: seq<nat>, p: seq<nat>)
    requires Closed(adj) && |cid| == |adj| && IsPath(adj, p) && p[0] < |adj|
    requires forall x, j :: 0 <= x < |adj| && 0 <= j < |adj[x]| ==> cid[adj[x][j]] <= cid[x]
    ensures p[|p| - 1] < |adj| && cid[p[|p| - 1]] <= cid[p[0]]
    decreases |p|
  {
    if |p| > 1 {
      assert StepAt(adj, p, 0);
      var q := p[1..];
      forall i | 0 <= i < |q| - 1 ensures StepAt(adj, q, i) {
        assert StepAt(adj, p, i + 1);
      }
      var j :| 0 <= j < |adj[p[0]]| && adj[p[0]][j] == p[1];
      IndexFalls(adj, cid, q);
    }
  }

  /** An entry of s before index m is among its first m entries. */
  lemma FirstAt(s: seq<nat>, m: nat, k: nat)
    requires m <= |s| && k < |s|
    ensures k < m ==> s[k] in s[..m]
  {
    if k < m {
      assert s[..m][k] == s[k];
    }
  }

  /** Moving the last of the first m entries of s onto the reversed rest
      extends both by one. */
  lemma PopShift(s: seq<nat>, m: nat, comp: seq<nat>)
    requires 0 < m <= |s| && comp == Reversed(s[m..])
    ensures s[..m][..m - 1] == s[..m - 1]
    ensures comp + [s[..m][m - 1]] == Reversed(s[m - 1..])
  {
  }

  /** The state while u's edges are being followed: u is numbered, its
      low link lies between the number of the stack's bottom and its own,
      the numbers and low links d0 and l0 given before u was reached stay,
      and the stack is s0 with u above it, and maybe more above u. */
  ghost predicate Exploring(n: nat, dfn: seq<nat>, low: seq<nat>, stack: seq<nat>, u: nat, bottom: nat,
                            s0: seq<nat>, d0: seq<nat>, l0: seq<nat>)
  {
    |dfn| == n && |low| == n && |d0| == n && |l0| == n && u < n && d0[u] == 0 &&
    dfn[u] != 0 && bottom < n && dfn[bottom] != 0 && dfn[bottom] <= low[u] <= dfn[u] &&
    (forall x :: 0 <= x < n && d0[x] != 0 ==> dfn[x] == d0[x] && low[x] == l0[x]) &&
    |s0| < |stack| && stack[..|s0| + 1] == s0 + [u] && stack[0] == bottom
  }

  /** What the search from u has shown about paths once its first j edges
      are followed: u, numbered du, is not finished; the stack from u up is
      u's part of the search (Subtree); each followed edge ends at a
      numbered vertex, numbered no lower than u's low link while it is on
      the stack; and each vertex numbered before u was reached keeps its
      finished mark from dn0, and is on the stack only if it is in s0. */
  ghost predicate Rooted(adj: Adj, n: nat, dfn: seq<nat>, low: seq<nat>, inStack: seq<bool>, done: seq<bool>,
                         stack: seq<nat>, u: nat, j: nat, du: nat, s0: seq<nat>, d0: seq<nat>, dn0: seq<bool>)
  {
    Closed(adj) && |adj| == n && |dfn| == n && |low| == n && |inStack| == n && |done| == n &&
    |d0| == n && |dn0| == n && u < n && j <= |adj[u]| &&
    !done[u] && dfn[u] == du && Subtree(adj, dfn, low, done, stack, |s0|) &&
    (forall i :: 0 <= i < j ==>
       dfn[adj[u][i]] != 0 && (inStack[adj[u][i]] ==> low[u] <= dfn[adj[u][i]])) &&
    (forall x :: 0 <= x < n && d0[x] != 0 ==> done[x] == dn0[x] && (inStack[x] ==> x in s0))
  }

  /** What the search from an unnumbered u leaves behind, against the
      state before it (stack s0, numbers d0, low links l0, finished marks
      dn0): u is numbered du and finished; the numbers, low links and
      finished marks given before stay, and no vertex numbered before is
      on the stack unless it is in s0; s0 stays at the bottom of the stack;
      u's low link lies between the number of the stack's bottom and u's own;
      when they are equal u's component has been popped, and otherwise the
      stack from u up is u's part of the search. */
  ghost predicate Searched(adj: Adj, n: nat, s0: seq<nat>, d0: seq<nat>, l0: seq<nat>, dn0: seq<bool>,
                           dfn: seq<nat>, low: seq<nat>, done: seq<bool>, inStack: seq<bool>, stack: seq<nat>,
                           u: nat, du: nat)
  {
    |dfn| == n && |low| == n && |done| == n && |inStack| == n && |d0| == n && |l0| == n && |dn0| == n &&
    u < n && dfn[u] == du && done[u] &&
    (forall x :: 0 <= x < n && d0[x] != 0 ==>
       dfn[x] == d0[x] && low[x] == l0[x] && done[x] == dn0[x] && (inStack[x] ==> x in s0)) &&
    |s0| <= |stack| && stack[..|s0|] == s0 &&
    (s0 + [u])[0] < n && dfn[(s0 + [u])[0]] <= low[u] <= dfn[u] &&
    (low[u] == dfn[u] ==> stack == s0) &&
    (low[u] < dfn[u] ==> |s0| < |stack| && stack[|s0|] == u && Subtree(adj, dfn, low, done, stack, |s0|))
  }

  /** Entering an unnumbered u: numbering it cnt + 1, making that its low
      link and pushing it keeps both invariants and starts the search from
      u with none of its edges followed. */
  lemma EnterStep(adj: Adj, n: nat, cnt: nat, dfn: seq<nat>, low: seq<nat>, stack: seq<nat>, inStack: seq<bool>,
                  scc: seq<seq<nat>>, via: seq<nat>, done: seq<bool>, cid: seq<nat>, u: nat,
                  dfn2: seq<nat>, low2: seq<nat>, stack2: seq<nat>, inStack2: seq<bool>, via2: seq<nat>)
    requires Closed(adj) && |adj| == n
    requires Inv(n, cnt, dfn, low, stack, inStack, scc, []) && Linked(adj, n, dfn, low, stack, inStack, scc, via, done, cid)
    requires u < n && dfn[u] == 0
    requires dfn2 == dfn[u := cnt + 1] && low2 == low[u := cnt + 1] && stack2 == stack + [u]
    requires inStack2 == inStack[u := true] && via2 == via[u := u]
    ensures Inv(n, cnt + 1, dfn2, low2, stack2, inStack2, scc, [])
    ensures Linked(adj, n, dfn2, low2, stack2, inStack2, scc, via2, done, cid)
    ensures Exploring(n, dfn2, low2, stack2, u, stack2[0], stack, dfn, low)
    ensures Rooted(adj, n, dfn2, low2, inStack2, done, stack2, u, 0, cnt + 1, stack, dfn, done)
  {
    assert u !in stack;
    PushKeeps(n, cnt, dfn, low, stack, inStack, scc, u);
    PushLinked(adj, n, cnt, dfn, low, stack, inStack, scc, via, done, cid, u);
    ReachSelf(adj, u);
    var d, st := dfn[u := cnt + 1], stack + [u];
    assert st[..|stack| + 1] == stack + [u];
    assert d[st[0]] != 0 && d[st[0]] <= d[u] by {
      if stack != [] {
        assert st[0] == stack[0];
      }
    }
  }

  /** The tree edge from u = st1[b] to a v that was unnumbered: once the
      search from v is done (dfn1, low1, done1 and st1 are the state
      before it), u's low link takes the smaller m of its own and v's, with
      a witness w on the stack that u reaches, and both invariants hold. */
  lemma TreeLower(adj: Adj, n: nat, cnt: nat, dfn: seq<nat>, low: seq<nat>, stack: seq<nat>, inStack: seq<bool>,
                  scc: seq<seq<nat>>, via: seq<nat>, done: seq<bool>, cid: seq<nat>,
                  u: nat, v: nat, b: nat, dfn1: seq<nat>, low1: seq<nat>, done1: seq<bool>, st1: seq<nat>, dv: nat)
    returns (w: nat)
    requires Inv(n, cnt, dfn, low, stack, inStack, scc, []) && Linked(adj, n, dfn, low, stack, inStack, scc, via, done, cid)
    requires u < n && v < n && Edge(adj, u, v) && |dfn1| == n && |done1| == n
    requires b < |st1| && st1[b] == u && dfn1[u] != 0 && dfn1[u] < dv && !done1[u] && dfn1[v] == 0
    requires Searched(adj, n, st1, dfn1, low1, done1, dfn, low, done, inStack, stack, v, dv)
    ensures Inv(n, cnt, dfn, low[u := Min(low[u], low[v])], stack, inStack, scc, [])
    ensures Linked(adj, n, dfn, low[u := Min(low[u], low[v])], stack, inStack, scc, via[u := w], done, cid)
  {
    var m := Min(low[u], low[v]);
    assert stack[..|st1|] == st1;
    assert stack[b] == u && inStack[u];
    w := if low[v] < low[u] then via[v] else via[u];
    assert Reachable(adj, u, w) && inStack[w] && dfn[w] == m by {
      if low[v] < low[u] {
        assert stack[|st1|] == v;
        ReachStep(adj, u, v, w);
      }
    }
    LowerKeeps(n, cnt, dfn, low, stack, inStack, scc, u, m);
    LowerLinked(adj, n, dfn, low, stack, inStack, scc, via, done, cid, u, w);
  }

  /** After the tree edge j of u, with u's low link lowered to the smaller
      m of its own and v's, the search from u has followed j + 1 edges. */
  lemma TreeFollowing(adj: Adj, n: nat, dfn: seq<nat>, low: seq<nat>, inStack: seq<bool>, done: seq<bool>,
                      stack: seq<nat>, u: nat, j: nat, bottom: nat, du: nat, s0: seq<nat>, d0: seq<nat>, l0: seq<nat>,
                      dn0: seq<bool>, dfn1: seq<nat>, low1: seq<nat>, st1: seq<nat>, in1: seq<bool>, done1: seq<bool>,
                      dv: nat, m: nat)
    requires Rising(dfn, stack) && Mirrors(n, st1, in1)
    requires Exploring(n, dfn1, low1, st1, u, bottom, s0, d0, l0)
    requires Rooted(adj, n, dfn1, low1, in1, done1, st1, u, j, du, s0, d0, dn0)
    requires j < |adj[u]| && dfn1[adj[u][j]] == 0
    requires Searched(adj, n, st1, dfn1, low1, done1, dfn, low, done, inStack, stack, adj[u][j], dv) && dfn1[u] < dv
    requires m == Min(low[u], low[adj[u][j]])
    ensures Exploring(n, dfn, low[u := m], stack, u, bottom, s0, d0, l0)
    ensures Rooted(adj, n, dfn, low[u := m], inStack, done, stack, u, j + 1, du, s0, d0, dn0)
  {
    var v := adj[u][j];
    var b := |s0|;
    assert stack[..|st1|] == st1;
    assert stack[..b + 1] == st1[..b + 1];
    TreeSubtree(adj, n, dfn, low, done, inStack, stack, dfn1, low1, done1, st1, u, v, b, m, dv);
    TreeEdges(adj, n, dfn, inStack, dfn1, low1, in1, st1, u, j, m);
  }

  /** After the tree edge from u = st1[b] to v, the stack from u up stays
      u's part of the search once u's low link is lowered to m: the old
      part is unchanged, and v's part, if v stays on the stack, is reached
      through the edge. */
  lemma TreeSubtree(adj: Adj, n: nat, dfn: seq<nat>, low: seq<nat>, done: seq<bool>, inStack: seq<bool>,
                    stack: seq<nat>, dfn1: seq<nat>, low1: seq<nat>, done1: seq<bool>, st1: seq<nat>,
                    u: nat, v: nat, b: nat, m: nat, dv: nat)
    requires |dfn1| == n && |low1| == n && |done1| == n
    requires Subtree(adj, dfn1, low1, done1, st1, b) && st1[b] == u && dfn1[u] != 0 && dfn1[u] < dv
    requires v < n && Edge(adj, u, v) && dfn1[v] == 0
    requires Searched(adj, n, st1, dfn1, low1, done1, dfn, low, done, inStack, stack, v, dv)
    requires Rising(dfn, stack) && m <= low[u] && m <= low[v]
    ensures Subtree(adj, dfn, low[u := m], done, stack, b)
  {
    var low2 := low[u := m];
    assert stack[..|st1|] == st1;
    forall i | b <= i < |stack|
      ensures Reachable(adj, u, stack[i]) && m <= low2[stack[i]] &&
        (b < i ==> done[stack[i]] && low2[stack[i]] < dfn[stack[i]])
    {
      if i == b {
        assert stack[i] == st1[b];
        ReachSelf(adj, u);
      } else {
        assert stack[b] == st1[b];
        assert dfn[stack[b]] < dfn[stack[i]];
        if i < |st1| {
          assert st1[i] == stack[i];
          RisingLe(dfn1, st1, b, i);
        } else {
          assert low[v] < dfn[v];
          ReachStep(adj, u, v, stack[i]);
        }
      }
    }
  }

  /** After the tree edge j of u, every one of u's first j + 1 edges ends
      at a numbered vertex, numbered no lower than u's new low link m while
      on the stack. */
  lemma TreeEdges(adj: Adj, n: nat, dfn: seq<nat>, inStack: seq<bool>, dfn1: seq<nat>, low1: seq<nat>,
                  in1: seq<bool>, st1: seq<nat>, u: nat, j: nat, m: nat)
    requires Closed(adj) && |adj| == n && |dfn| == n && |inStack| == n && |dfn1| == n && |low1| == n
    requires Mirrors(n, st1, in1) && u < n && j < |adj[u]| && m <= low1[u]
    requires forall i :: 0 <= i < j ==>
      dfn1[adj[u][i]] != 0 && (in1[adj[u][i]] ==> low1[u] <= dfn1[adj[u][i]])
    requires forall x :: 0 <= x < n && dfn1[x] != 0 ==> dfn[x] == dfn1[x] && (inStack[x] ==> x in st1)
    requires dfn[adj[u][j]] != 0 && (inStack[adj[u][j]] ==> m <= dfn[adj[u][j]])
    ensures forall i :: 0 <= i < j + 1 ==>
      dfn[adj[u][i]] != 0 && (inStack[adj[u][i]] ==> m <= dfn[adj[u][i]])
  {
    forall i | 0 <= i < j + 1
      ensures dfn[adj[u][i]] != 0 && (inStack[adj[u][i]] ==> m <= dfn[adj[u][i]])
    {
      if i < j {
        var y := adj[u][i];
        assert dfn1[y] != 0 && dfn[y] == dfn1[y];
      }
    }
  }

  /** The edge j of u to a v still on the stack: u's low link takes the
      smaller of its own and v's number, with a witness that u reaches,
      and the search from u has followed j + 1 edges. */
  lemma BackStep(adj: Adj, n: nat, cnt: nat, dfn: seq<nat>, low: seq<nat>, stack: seq<nat>, inStack: seq<bool>,
                 scc: seq<seq<nat>>, via: seq<nat>, done: seq<bool>, cid: seq<nat>,
                 u: nat, j: nat, bottom: nat, du: nat, s0: seq<nat>, d0: seq<nat>, l0: seq<nat>, dn0: seq<bool>)
    returns (w: nat)
    requires Inv(n, cnt, dfn, low, stack, inStack, scc, []) && Linked(adj, n, dfn, low, stack, inStack, scc, via, done, cid)
    requires Exploring(n, dfn, low, stack, u, bottom, s0, d0, l0)
    requires Rooted(adj, n, dfn, low, inStack, done, stack, u, j, du, s0, d0, dn0)
    requires j < |adj[u]| && dfn[adj[u][j]] != 0 && inStack[adj[u][j]]
    ensures var m := Min(low[u], dfn[adj[u][j]]);
      Inv(n, cnt, dfn, low[u := m], stack, inStack, scc, []) &&
      Linked(adj, n, dfn, low[u := m], stack, inStack, scc, via[u := w], done, cid) &&
      Exploring(n, dfn, low[u := m], stack, u, bottom, s0, d0, l0) &&
      Rooted(adj, n, dfn, low[u := m], inStack, done, stack, u, j + 1, du, s0, d0, dn0)
  {
    var v := adj[u][j];
    var m := Min(low[u], dfn[v]);
    var b := |s0|;
    assert stack[..b + 1][b] == u;
    w := if dfn[v] < low[u] then v else via[u];
    assert Reachable(adj, u, w) by {
      ReachSelf(adj, v);
      ReachStep(adj, u, v, v);
    }
    AboveBottom(n, cnt, dfn, low, stack, inStack, scc, v);
    LowerKeeps(n, cnt, dfn, low, stack, inStack, scc, u, m);
    LowerLinked(adj, n, dfn, low, stack, inStack, scc, via, done, cid, u, w);
    forall i | b < i < |stack| ensures stack[i] != u {
      assert dfn[stack[b]] < dfn[stack[i]];
    }
  }

  /** The edge j of u to a numbered v off the stack changes nothing but
      the count of followed edges. */
  lemma SkipStep(adj: Adj, n: nat, dfn: seq<nat>, low: seq<nat>, inStack: seq<bool>, done: seq<bool>, stack: seq<nat>,
                 u: nat, j: nat, du: nat, s0: seq<nat>, d0: seq<nat>, dn0: seq<bool>)
    requires Rooted(adj, n, dfn, low, inStack, done, stack, u, j, du, s0, d0, dn0)
    requires j < |adj[u]| && dfn[adj[u][j]] != 0 && !inStack[adj[u][j]]
    ensures Rooted(adj, n, dfn, low, inStack, done, stack, u, j + 1, du, s0, d0, dn0)
  {
  }

  /** Finishing u once all its edges are followed keeps what is known
      about paths; the stack from u up stays u's part of the search; and
      when u's low link is below its number, the search from u is done. */
  lemma FinishStep(adj: Adj, n: nat, cnt: nat, dfn: seq<nat>, low: seq<nat>, stack: seq<nat>, inStack: seq<bool>,
                   scc: seq<seq<nat>>, via: seq<nat>, done: seq<bool>, cid: seq<nat>,
                   u: nat, bottom: nat, du: nat, s0: seq<nat>, d0: seq<nat>, l0: seq<nat>, dn0: seq<bool>)
    requires Inv(n, cnt, dfn, low, stack, inStack, scc, []) && Linked(adj, n, dfn, low, stack, inStack, scc, via, done, cid)
    requires Exploring(n, dfn, low, stack, u, bottom, s0, d0, l0)
    requires Rooted(adj, n, dfn, low, inStack, done, stack, u, |adj[u]|, du, s0, d0, dn0)
    ensures Linked(adj, n, dfn, low, stack, inStack, scc, via, done[u := true], cid)
    ensures stack[|s0|] == u && Subtree(adj, dfn, low, done[u := true], stack, |s0|)
    ensures forall x :: 0 <= x < n && d0[x] != 0 ==> done[u := true][x] == dn0[x] && (inStack[x] ==> x in s0)
    ensures low[u] < dfn[u] ==> Searched(adj, n, s0, d0, l0, dn0, dfn, low, done[u := true], inStack, stack, u, du)
  {
    var b := |s0|;
    assert stack[..b + 1][b] == u && stack[..b + 1][..b] == s0;
    FinishLinked(adj, n, dfn, low, stack, inStack, scc, via, done, cid, u);
    forall i | b < i < |stack| ensures stack[i] != u {
      assert dfn[stack[b]] < dfn[stack[i]];
    }
  }

  /** Popping the component rooted at a finished u whose low link is its
      number, down to s0, keeps what is known about paths, and the search
      from u is done. */
  lemma CloseStep(adj: Adj, n: nat, cnt: nat, dfn: seq<nat>, low: seq<nat>, stack: seq<nat>, inStack: seq<bool>,
                  scc: seq<seq<nat>>, via: seq<nat>, done: seq<bool>, cid: seq<nat>,
                  u: nat, bottom: nat, du: nat, s0: seq<nat>, d0: seq<nat>, l0: seq<nat>, dn0: seq<bool>,
                  inStack2: seq<bool>)
    requires Inv(n, cnt, dfn, low, stack, inStack, scc, []) && Linked(adj, n, dfn, low, stack, inStack, scc, via, done, cid)
    requires Exploring(n, dfn, low, stack, u, bottom, s0, d0, l0)
    requires stack[|s0|] == u && Subtree(adj, dfn, low, done, stack, |s0|) && done[u] && low[u] == dfn[u] && dfn[u] == du
    requires |dn0| == n && forall x :: 0 <= x < n && d0[x] != 0 ==> done[x] == dn0[x]
    requires Mirrors(n, stack[..|s0|], inStack2)
    ensures stack[..|s0|] == s0
    ensures Linked(adj, n, dfn, low, s0, inStack2, scc + [Reversed(stack[|s0|..])], via, done,
                   Stamp(cid, stack[|s0|..], |scc|))
    ensures Searched(adj, n, s0, d0, l0, dn0, dfn, low, done, inStack2, s0, u, du)
  {
    assert stack[..|s0| + 1][..|s0|] == s0;
    EmitLinked(adj, n, cnt, dfn, low, stack, inStack, scc, via, done, cid, |s0|, inStack2);
  }
}
