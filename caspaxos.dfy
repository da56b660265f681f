/** CASPaxos of switch/caspaxos/main.go: a register holding (value, state)
    that a proposer replaces only when the caller names the current state,
    with an in-memory acceptor per node.  Go's `int` is 64 bits and wraps
    on overflow; the model writes the wrap-around out.  Replies arrive in an
    order the network decides, given here as input sequences; a reply lost to
    an HTTP error is the `OK: false` reply the sender substitutes for it. */
module CasPaxos {
  import opened Base

  type i64 = x: int | -0x8000_0000_0000_0000 <= x < 0x8000_0000_0000_0000

  /** Two's-complement wrap-around of a 64-bit signed integer. */
  function Wrap(x: int): (r: i64)
    ensures -0x8000_0000_0000_0000 <= x < 0x8000_0000_0000_0000 ==> r == x
    ensures (r - x) % 0x1_0000_0000_0000_0000 == 0
  {
    (x + 0x8000_0000_0000_0000) % 0x1_0000_0000_0000_0000 - 0x8000_0000_0000_0000
  }

  datatype ValueType = ValueType(value: i64, state: i64)

  datatype Promise = Promise(ok: bool, ballotNum: i64, value: Option<ValueType>)
  datatype Propose = Propose(ballotNum: i64, value: Option<ValueType>)
  datatype AcceptReply = AcceptReply(ok: bool)

  datatype AcceptorState = AcceptorState(ballotNum: i64, vballot: i64, value: Option<ValueType>)

  /** onPrepare (main.go:51-66): refuse a ballot below the one promised
      (with ballot 0 and no value), otherwise promise it and report the
      accepted ballot and value. */
  function OnPrepare(s: AcceptorState, b: i64): (r: (AcceptorState, Promise))
    ensures r.1.ok <==> s.ballotNum <= b
    ensures !r.1.ok ==> r.0 == s && r.1 == Promise(false, 0, None)
    ensures r.1.ok ==> r.0 == s.(ballotNum := b) && r.1 == Promise(true, s.vballot, s.value)
  {
    if s.ballotNum > b then (s, Promise(false, 0, None))
    else (s.(ballotNum := b), Promise(true, s.vballot, s.value))
  }

  /** onAccept (main.go:77-92): refuse a ballot below the one promised,
      otherwise accept the value under that ballot. */
  function OnAccept(s: AcceptorState, p: Propose): (r: (AcceptorState, AcceptReply))
    ensures r.1.ok <==> s.ballotNum <= p.ballotNum
    ensures !r.1.ok ==> r.0 == s
    ensures r.1.ok ==> r.0 == AcceptorState(p.ballotNum, p.ballotNum, p.value)
  {
    if s.ballotNum > p.ballotNum then (s, AcceptReply(false))
    else (AcceptorState(p.ballotNum, p.ballotNum, p.value), AcceptReply(true))
  }

  class Acceptor {
    var ballotNum: i64
    var vballot: i64
    var value: Option<ValueType>

    function State(): AcceptorState
      reads this
    {
      AcceptorState(ballotNum, vballot, value)
    }

    /** The zero value of the Go struct. */
    constructor ()
      ensures State() == AcceptorState(0, 0, None)
    {
      ballotNum := 0;
      vballot := 0;
      value := None;
    }

    method HandlePrepare(b: i64) returns (r: Promise)
      modifies this
      ensures (State(), r) == OnPrepare(old(State()), b)
    {
      if ballotNum > b {
        return Promise(false, 0, None);
      }
      ballotNum := b;
      r := Promise(true, vballot, value);
    }

    method HandleAccept(p: Propose) returns (r: AcceptReply)
      modifies this
      ensures (State(), r) == OnAccept(old(State()), p)
    {
      if ballotNum > p.ballotNum {
        return AcceptReply(false);
      }
      ballotNum := p.ballotNum;
      vballot := p.ballotNum;
      value := p.value;
      r := AcceptReply(true);
    }
  }

  /** The ballot of the proposer's round `num` on node `id` (main.go:114),
      wrapping like Go's int. */
  function BallotFor(num: i64, id: i64): i64
  {
    Wrap(Wrap(num as int * 100) + id as int)
  }

  /** For rounds and ids where nothing wraps (ids 0..99), ballots of
      different (round, id) pairs differ and later rounds rank higher. */
  lemma BallotsDistinct(r1: i64, id1: i64, r2: i64, id2: i64)
    requires 0 <= id1 < 100 && 0 <= id2 < 100
    requires 0 <= r1 < 0x1_0000_0000_0000 && 0 <= r2 < 0x1_0000_0000_0000
    ensures BallotFor(r1, id1) == BallotFor(r2, id2) <==> r1 == r2 && id1 == id2
    ensures r1 < r2 ==> BallotFor(r1, id1) < BallotFor(r2, id2)
  {
    assert BallotFor(r1, id1) == r1 * 100 + id1;
    assert BallotFor(r2, id2) == r2 * 100 + id2;
    if r1 < r2 {
      assert r2 * 100 >= (r1 + 1) * 100;
    } else if r2 < r1 {
      assert r1 * 100 >= (r2 + 1) * 100;
    }
  }

  class Proposer {
    var ballotNum: i64
    const id: i64

    constructor (i: i64)
      ensures ballotNum == 0 && id == i
    {
      ballotNum := 0;
      id := i;
    }

    /** nextBallotNum (main.go:108-115). */
    method NextBallotNum() returns (b: i64)
      modifies this
      ensures ballotNum == Wrap(old(ballotNum) as int + 1)
      ensures b == BallotFor(ballotNum, id)
    {
      ballotNum := Wrap(ballotNum as int + 1);
      var num := ballotNum;
      b := Wrap(Wrap(num as int * 100) + id as int);
    }
  }

  // ---------------------------------------------------------------------------
  // The tallies.

  function Majority(n: nat): nat
  {
    n / 2 + 1
  }

  /** What the prepare loop holds after reading `rs`: promises counted, the
      highest ballot seen with a value, and that value. */
  datatype Tally = Tally(promised: nat, maxBallotNum: i64, value: Option<ValueType>)

  /** One iteration of the prepare loop (main.go:142-155): the first value
      seen is taken whatever its ballot, later ones only with a strictly
      higher ballot. */
  function Step(t: Tally, reply: Promise): Tally
  {
    if !reply.ok then t
    else if reply.value.Some? && (t.value.None? || reply.ballotNum > t.maxBallotNum)
    then Tally(t.promised + 1, reply.ballotNum, reply.value)
    else t.(promised := t.promised + 1)
  }

  function TallyOf(ballot: i64, rs: seq<Promise>): Tally
  {
    if |rs| == 0 then Tally(0, ballot, None) else Step(TallyOf(ballot, rs[..|rs| - 1]), rs[|rs| - 1])
  }

  /** prepare's answer: refused without a majority of promises, otherwise
      the highest ballot carrying a value and that value. */
  function PrepareResult(ballot: i64, rs: seq<Promise>): (bool, i64, Option<ValueType>)
  {
    var t := TallyOf(ballot, rs);
    if t.promised < Majority(|rs|) then (false, 0, None) else (true, t.maxBallotNum, t.value)
  }

  predicate Carries(p: Promise)
  {
    p.ok && p.value.Some?
  }

  function OkCount(rs: seq<Promise>): nat
  {
    if |rs| == 0 then 0 else OkCount(rs[..|rs| - 1]) + (if rs[|rs| - 1].ok then 1 else 0)
  }

  function AckCount(rs: seq<AcceptReply>): nat
  {
    if |rs| == 0 then 0 else AckCount(rs[..|rs| - 1]) + (if rs[|rs| - 1].ok then 1 else 0)
  }

  /** seen[j] carries t's value and ballot and nothing before it carries a
      ballot as high. */
  ghost predicate FirstHighest(t: Tally, seen: seq<Promise>, j: nat)
    requires j < |seen|
  {
    && Carries(seen[j]) && seen[j].ballotNum == t.maxBallotNum && seen[j].value == t.value
    && forall i :: 0 <= i < j && Carries(seen[i]) ==> seen[i].ballotNum < t.maxBallotNum
  }

  /** The prepare loop counts the ok promises and keeps the value of the
      highest ballot among those carrying one (the first when ballots tie);
      with no value seen it keeps its own ballot. */
  lemma {:induction false} TallyMeaning(ballot: i64, rs: seq<Promise>)
    ensures TallyOf(ballot, rs).promised == OkCount(rs)
    ensures TallyOf(ballot, rs).value.None? <==> forall i :: 0 <= i < |rs| ==> !Carries(rs[i])
    ensures TallyOf(ballot, rs).value.None? ==> TallyOf(ballot, rs).maxBallotNum == ballot
    ensures forall i :: 0 <= i < |rs| && Carries(rs[i]) ==> rs[i].ballotNum <= TallyOf(ballot, rs).maxBallotNum
    ensures TallyOf(ballot, rs).value.Some? ==> exists j :: 0 <= j < |rs| && FirstHighest(TallyOf(ballot, rs), rs, j)
  {
    if |rs| > 0 {
      var front := rs[..|rs| - 1];
      var last := rs[|rs| - 1];
      TallyMeaning(ballot, front);
      var t0 := TallyOf(ballot, front);
      var t := TallyOf(ballot, rs);
      assert forall i :: 0 <= i < |front| ==> rs[i] == front[i];
      if t.value.Some? {
        if t == t0.(promised := t.promised) {
          var j :| 0 <= j < |front| && FirstHighest(t0, front, j);
          assert FirstHighest(t, rs, j);
        } else {
          assert FirstHighest(t, rs, |rs| - 1);
        }
      }
    }
  }

  /** prepare (main.go:137-160) over the n replies in arrival order. */
  method PrepareTally(ballot: i64, n: nat, replies: seq<Promise>) returns (ok: bool, maxBallotNum: i64, value: Option<ValueType>)
    requires |replies| == n
    ensures (ok, maxBallotNum, value) == PrepareResult(ballot, replies)
    ensures ok <==> OkCount(replies) >= Majority(n)
  {
    value := None;
    maxBallotNum := ballot;
    var promised := 0;
    var i := 0;
    while i < n
      invariant 0 <= i <= n
      invariant Tally(promised, maxBallotNum, value) == TallyOf(ballot, replies[..i])
    {
      assert replies[..i + 1][..i] == replies[..i];
      var reply := replies[i];
      i := i + 1;
      if !reply.ok {
        continue;
      }
      promised := promised + 1;
      if reply.value.Some? {
        if value.None? {
          maxBallotNum := reply.ballotNum;
          value := reply.value;
        } else if reply.ballotNum > maxBallotNum {
          maxBallotNum := reply.ballotNum;
          value := reply.value;
        }
      }
    }
    assert replies[..i] == replies;
    TallyMeaning(ballot, replies);
    if promised < n / 2 + 1 {
      return false, 0, None;
    }
    ok := true;
  }

  /** accept (main.go:163-195): reads all n replies and reports whether a
      majority accepted. */
  method AcceptTally(n: nat, replies: seq<AcceptReply>) returns (ok: bool)
    requires |replies| == n
    ensures ok <==> AckCount(replies) >= Majority(n)
  {
    var accepted := 0;
    var i := 0;
    while i < n
      invariant 0 <= i <= n
      invariant accepted == AckCount(replies[..i])
    {
      assert replies[..i + 1][..i] == replies[..i];
      var reply := replies[i];
      i := i + 1;
      if !reply.ok {
        continue;
      }
      accepted := accepted + 1;
    }
    assert replies[..i] == replies;
    ok := accepted >= n / 2 + 1;
  }

  // ---------------------------------------------------------------------------
  // The compare-and-set rule.

  /** caspaxos (main.go:207-222): with no current value the new one starts
      at state 0; when the caller names the current state the new one takes
      the next state; otherwise nothing is proposed (None). */
  function Decide(state: i64, val: i64, current: Option<ValueType>): (r: Option<ValueType>)
    ensures current.None? ==> r == Some(ValueType(val, 0))
    ensures current.Some? ==> (r.Some? <==> state == current.value.state)
    ensures r.Some? ==> r.value.value == val
    ensures r.Some? && current.Some? && current.value.state < 0x7FFF_FFFF_FFFF_FFFF ==>
      r.value.state == current.value.state + 1
  {
    match current
    case None => Some(ValueType(val, 0))
    case Some(c) => if state == c.state then Some(ValueType(val, Wrap(c.state as int + 1))) else None
  }

  /** Successive successful writes number the states 0, 1, 2, ... : a write
      that names a state only succeeds against that state, and moves it on
      by exactly one (short of the wrap-around at the top of the range). */
  lemma {:induction false} StatesCount(states: seq<i64>, vals: seq<i64>)
    requires |states| == |vals| && forall i :: 0 <= i < |states| ==> states[i] == i
    ensures Chain(None, states, vals).Some? && |states| > 0 && |states| < 0x7FFF_FFFF_FFFF_FFFF ==>
      Chain(None, states, vals).value.state == |states| - 1
    decreases |states|
  {
    if |states| > 1 {
      StatesCount(states[..|states| - 1], vals[..|vals| - 1]);
    }
  }

  /** The register after a chain of writes, each naming the state it
      expects; None once one of them fails. */
  function Chain(start: Option<ValueType>, states: seq<i64>, vals: seq<i64>): Option<ValueType>
    requires |states| == |vals|
  {
    if |states| == 0 then start
    else
      var before := Chain(start, states[..|states| - 1], vals[..|vals| - 1]);
      if |states| == 1 then Decide(states[0], vals[0], start)
      else if before.None? then None
      else Decide(states[|states| - 1], vals[|vals| - 1], before)
  }

  /** caspaxos: the outcome the client sees, the proposal sent (if any),
      with the replies of both rounds given in arrival order. */
  method CasPaxos(proposer: Proposer, state: i64, val: i64, n: nat, promises: seq<Promise>, acks: seq<AcceptReply>)
    returns (ok: bool, newState: i64, sent: Option<Propose>)
    requires |promises| == n && |acks| == n
    modifies proposer
    ensures proposer.ballotNum == Wrap(old(proposer.ballotNum) as int + 1)
    ensures var prepared := PrepareResult(BallotFor(proposer.ballotNum, proposer.id), promises);
      && (!prepared.0 ==> !ok && newState == 0 && sent.None?)
      && (prepared.0 ==> match Decide(state, val, prepared.2)
           case None => !ok && newState == prepared.2.value.state && sent.None?
           case Some(next) =>
             && sent == Some(Propose(prepared.1, Some(next)))
             && newState == next.state
             && (ok <==> AckCount(acks) >= Majority(n)))
  {
    var ballotNum := proposer.NextBallotNum();
    var pok, adopted, current := PrepareTally(ballotNum, n, promises);
    if !pok {
      return false, 0, None;
    }
    ballotNum := adopted;
    var next: ValueType;
    if current.None? {
      next := ValueType(val, 0);
    } else if state == current.value.state {
      next := ValueType(val, Wrap(current.value.state as int + 1));
    } else {
      return false, current.value.state, None;
    }
    sent := Some(Propose(ballotNum, Some(next)));
    ok := AcceptTally(n, acks);
    newState := next.state;
  }

  // ---------------------------------------------------------------------------
  // A whole write against a cluster, every acceptor reachable and the
  // replies arriving in acceptor order.

  function PrepareAll(states: seq<AcceptorState>, b: i64): (r: (seq<AcceptorState>, seq<Promise>))
    ensures |r.0| == |states| && |r.1| == |states|
    ensures forall i :: 0 <= i < |states| ==> (r.0[i], r.1[i]) == OnPrepare(states[i], b)
  {
    if |states| == 0 then ([], [])
    else
      var rest := PrepareAll(states[1..], b);
      var one := OnPrepare(states[0], b);
      ([one.0] + rest.0, [one.1] + rest.1)
  }

  function AcceptAll(states: seq<AcceptorState>, p: Propose): (r: (seq<AcceptorState>, seq<AcceptReply>))
    ensures |r.0| == |states| && |r.1| == |states|
    ensures forall i :: 0 <= i < |states| ==> (r.0[i], r.1[i]) == OnAccept(states[i], p)
  {
    if |states| == 0 then ([], [])
    else
      var rest := AcceptAll(states[1..], p);
      var one := OnAccept(states[0], p);
      ([one.0] + rest.0, [one.1] + rest.1)
  }

  /** Preparing changes no acceptor's value and lowers no ballot. */
  lemma PrepareAllKeeps(states: seq<AcceptorState>, b: i64)
    ensures forall i :: 0 <= i < |states| ==>
      PrepareAll(states, b).0[i].value == states[i].value && PrepareAll(states, b).0[i].ballotNum >= states[i].ballotNum
  {
  }

  /** Accepting changes an acceptor only into the proposal, and lowers no
      ballot. */
  lemma AcceptAllChanges(states: seq<AcceptorState>, p: Propose)
    ensures forall i :: 0 <= i < |states| ==> AcceptAll(states, p).0[i].ballotNum >= states[i].ballotNum
    ensures forall i :: 0 <= i < |states| && AcceptAll(states, p).0[i] != states[i] ==>
      AcceptAll(states, p).0[i] == AcceptorState(p.ballotNum, p.ballotNum, p.value)
  {
  }

  /** A write as caspaxos runs it: the accept round reuses the ballot
      prepare returned, which is the adopted value's ballot. Every acceptor
      whose value changes holds the same new value. */
  function WriteAsWritten(cluster: seq<AcceptorState>, ballot: i64, state: i64, val: i64): (r: (seq<AcceptorState>, bool, i64))
    ensures |r.0| == |cluster|
    ensures forall i :: 0 <= i < |cluster| ==> r.0[i].ballotNum >= cluster[i].ballotNum
    ensures forall i :: 0 <= i < |cluster| && r.0[i].value != cluster[i].value ==>
      r.0[i].value.Some? && r.0[i].value.value.value == val
    ensures forall i, j ::
      (0 <= i < |cluster| && 0 <= j < |cluster| && r.0[i].value != cluster[i].value && r.0[j].value != cluster[j].value) ==> r.0[i] == r.0[j]
  {
    var prepared := PrepareAll(cluster, ballot);
    PrepareAllKeeps(cluster, ballot);
    var result := PrepareResult(ballot, prepared.1);
    if !result.0 then (prepared.0, false, 0)
    else match Decide(state, val, result.2)
      case None => (prepared.0, false, result.2.value.state)
      case Some(next) =>
        AcceptAllChanges(prepared.0, Propose(result.1, Some(next)));
        var accepted := AcceptAll(prepared.0, Propose(result.1, Some(next)));
        (accepted.0, AckCount(accepted.1) >= Majority(|cluster|), next.state)
  }

  /** The write with the accept round under the ballot that was prepared:
      every acceptor whose value changes holds the same new value, written
      under that ballot. */
  function Write(cluster: seq<AcceptorState>, ballot: i64, state: i64, val: i64): (r: (seq<AcceptorState>, bool, i64))
    ensures |r.0| == |cluster|
    ensures forall i :: 0 <= i < |cluster| ==> r.0[i].ballotNum >= cluster[i].ballotNum
    ensures forall i :: 0 <= i < |cluster| && r.0[i].value != cluster[i].value ==>
      r.0[i].value.Some? && r.0[i].value.value.value == val
    ensures forall i, j ::
      (0 <= i < |cluster| && 0 <= j < |cluster| && r.0[i].value != cluster[i].value && r.0[j].value != cluster[j].value) ==> r.0[i] == r.0[j]
    ensures forall i :: 0 <= i < |cluster| && r.0[i].value != cluster[i].value ==> r.0[i].vballot == ballot
  {
    var prepared := PrepareAll(cluster, ballot);
    PrepareAllKeeps(cluster, ballot);
    var result := PrepareResult(ballot, prepared.1);
    if !result.0 then (prepared.0, false, 0)
    else match Decide(state, val, result.2)
      case None => (prepared.0, false, result.2.value.state)
      case Some(next) =>
        AcceptAllChanges(prepared.0, Propose(ballot, Some(next)));
        var accepted := AcceptAll(prepared.0, Propose(ballot, Some(next)));
        (accepted.0, AckCount(accepted.1) >= Majority(|cluster|), next.state)
  }

  /** A cluster whose acceptors agree on the register. */
  predicate Agreed(cluster: seq<AcceptorState>, b: i64, current: Option<ValueType>)
  {
    forall i :: 0 <= i < |cluster| ==> cluster[i].ballotNum <= b && cluster[i].value == current
  }

  lemma {:induction false} AllOkCount(rs: seq<Promise>)
    requires forall i :: 0 <= i < |rs| ==> rs[i].ok
    ensures OkCount(rs) == |rs|
    decreases |rs|
  {
    if |rs| > 0 {
      AllOkCount(rs[..|rs| - 1]);
    }
  }

  lemma {:induction false} AllAckCount(rs: seq<AcceptReply>)
    requires forall i :: 0 <= i < |rs| ==> rs[i].ok
    ensures AckCount(rs) == |rs|
    decreases |rs|
  {
    if |rs| > 0 {
      AllAckCount(rs[..|rs| - 1]);
    }
  }

  /** On a cluster that agrees on the register and has not promised the new
      ballot away, the corrected write succeeds exactly when it names the
      current state, and then every acceptor holds the next value; a write
      naming another state reports the current one and changes no value. */
  lemma WriteOnAgreedCluster(cluster: seq<AcceptorState>, ballot: i64, current: Option<ValueType>, state: i64, val: i64)
    requires |cluster| > 0 && Agreed(cluster, ballot, current)
    ensures var w := Write(cluster, ballot, state, val);
      match Decide(state, val, current)
      case Some(next) => w.1 && w.2 == next.state && Agreed(w.0, ballot, Some(next))
      case None => !w.1 && w.2 == current.value.state && Agreed(w.0, ballot, current)
  {
    var prepared := PrepareAll(cluster, ballot);
    AllOkCount(prepared.1);
    TallyMeaning(ballot, prepared.1);
    var t := TallyOf(ballot, prepared.1);
    if current.Some? {
      var j :| 0 <= j < |prepared.1| && FirstHighest(t, prepared.1, j);
    }
    assert t.value == current;
    match Decide(state, val, current) {
      case Some(next) =>
        var accepted := AcceptAll(prepared.0, Propose(ballot, Some(next)));
        AllAckCount(accepted.1);
      case None =>
    }
  }

  /** The write as written fails on every write after the first: three
      acceptors holding (5, state 0) accepted at ballot 101 are asked, at
      ballot 201, to move from state 0; prepare adopts ballot 101, every
      acceptor has promised 201 and refuses, and the client sees failure
      although it named the current state.  The corrected write succeeds. */
  lemma AdoptedBallotIsRefused()
    ensures var a := AcceptorState(101, 101, Some(ValueType(5, 0)));
      WriteAsWritten([a, a, a], 201, 0, 7) == ([a.(ballotNum := 201), a.(ballotNum := 201), a.(ballotNum := 201)], false, 1)
    ensures var a := AcceptorState(101, 101, Some(ValueType(5, 0)));
      Write([a, a, a], 201, 0, 7).1
  {
    var a := AcceptorState(101, 101, Some(ValueType(5, 0)));
    var cluster := [a, a, a];
    var prepared := PrepareAll(cluster, 201);
    var pr := Promise(true, 101, Some(ValueType(5, 0)));
    assert prepared.1 == [pr, pr, pr];
    var p := prepared.1;
    assert p[..2][..1] == [pr] && p[..2] == [pr, pr] && [pr][..0] == [];
    assert TallyOf(201, [pr]) == Tally(1, 101, Some(ValueType(5, 0)));
    assert TallyOf(201, [pr, pr]) == Tally(2, 101, Some(ValueType(5, 0)));
    assert TallyOf(201, p) == Tally(3, 101, Some(ValueType(5, 0)));
    var a1 := a.(ballotNum := 201);
    assert prepared.0 == [a1, a1, a1];
    assert Decide(0, 7, Some(ValueType(5, 0))) == Some(ValueType(7, 1));
    var refused := AcceptAll(prepared.0, Propose(101, Some(ValueType(7, 1))));
    var no := AcceptReply(false);
    assert refused.1 == [no, no, no];
    assert refused.0 == prepared.0;
    assert [no, no, no][..2] == [no, no] && [no, no][..1] == [no];
    assert AckCount([no]) == 0;
    assert AckCount([no, no]) == 0;
    assert AckCount(refused.1) == 0;
    WriteOnAgreedCluster(cluster, 201, Some(ValueType(5, 0)), 0, 7);
  }
}
