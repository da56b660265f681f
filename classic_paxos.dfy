/** Single-decree ("classic") Paxos of switch/paxos/src/classic.rs: an acceptor
    that persists its promise and its accepted proposal before answering, a
    proposer that persists its round before using a ballot, and the proposer's
    two rounds of tallying replies.

    The acceptors' replies reach the proposer through a channel in an order the
    network decides; the model takes that order as an input sequence.  A store
    that can fail takes a boolean `ioOk` saying whether the write succeeded. */
module ClassicPaxos {
  import opened Base

  // ---------------------------------------------------------------------------
  // Messages (switch/paxos/src/proto/paxos.rs) and acceptor state.

  datatype Promise = Promise(ok: bool, ballotNum: u64, value: seq<byte>)
  datatype Propose = Propose(ballotNum: u64, value: seq<byte>)
  datatype AcceptReply = AcceptReply(ok: bool)

  /** A ballot together with the value proposed or accepted under it. */
  datatype Promised = Promised(ballotNum: u64, value: seq<byte>)

  datatype AcceptorState = AcceptorState(maxSeenBallot: u64, accepted: Option<Promised>)

  /** The three files a node keeps in its directory. */
  datatype Record = ProposerBallot | AcceptorBallot | AcceptorAccepted

  datatype IoError = IoError

  /** Why loading a node's state fails: a read error (`read_to_string` on a
      file that is not UTF-8), or the panic of `Bytes::slice(1..)` on an empty
      acceptor_accepted file. */
  datatype LoadError = ReadFailed | Panicked

  // ---------------------------------------------------------------------------
  // The on-disk encodings.

  /** The contents of a ballot file: `u64::to_string`. */
  function EncodeBallot(b: u64): seq<byte>
  {
    Decimal(b)
  }

  /** The contents of acceptor_accepted: ballot, newline, value bytes. */
  function EncodeState(p: Promised): seq<byte>
  {
    Decimal(p.ballotNum) + ['\n' as int] + p.value
  }

  /** `read_to_string(..).map(|s| s.parse().unwrap_or(0))`: text that is not
      UTF-8 is a read error; text that does not parse reads as ballot 0. */
  function DecodeBallot(content: seq<byte>): (r: Result<u64, LoadError>)
    ensures r.Err? <==> !ValidUtf8(content)
    ensures r.Ok? && ParseU64(content).Some? ==> r.value == ParseU64(content).value
    ensures r.Ok? && ParseU64(content).None? ==> r.value == 0
  {
    if !ValidUtf8(content) then Err(ReadFailed)
    else match ParseU64(content)
      case Some(v) => Ok(v)
      case None => Ok(0)
  }

  /** The position of the first newline, |p| when there is none. */
  function FirstNewline(p: seq<byte>): (r: nat)
    ensures r <= |p|
    ensures forall i :: 0 <= i < r ==> p[i] != '\n' as int
    ensures r < |p| ==> p[r] == '\n' as int
  {
    if |p| == 0 || p[0] == '\n' as int then 0 else 1 + FirstNewline(p[1..])
  }

  /** `position(|&c| c == b'\n').unwrap_or(0)`. */
  function NewlineIndex(p: seq<byte>): (ln: nat)
    ensures ln <= |p| && (|p| > 0 ==> ln < |p|)
  {
    var f := FirstNewline(p);
    if f < |p| then f else 0
  }

  /** load_acceptor_state on an existing file (classic.rs:58-65): the ballot is
      the text before the first newline (0 when it is not a number, and the
      whole prefix is empty when there is no newline); the value is everything
      after that position's byte.  None is the panic on an empty file. */
  function DecodeState(payload: seq<byte>): (r: Option<Promised>)
    ensures r.None? <==> |payload| == 0
  {
    if |payload| == 0 then None
    else
      var ln := NewlineIndex(payload);
      var head := payload[..ln];
      var text := if ValidUtf8(head) then head else ['0' as int];
      var ballot := match ParseU64(text) case Some(v) => v case None => 0;
      Some(Promised(ballot, payload[ln + 1..]))
  }

  /** The ballot stored in a file, 0 when the file does not exist. */
  function LoadBallot(files: map<Record, seq<byte>>, rec: Record): Result<u64, LoadError>
  {
    if rec !in files then Ok(0) else DecodeBallot(files[rec])
  }

  /** What Acceptor::new reads back from the directory (classic.rs:98-108). */
  function Recover(files: map<Record, seq<byte>>): (r: Result<AcceptorState, LoadError>)
    ensures r.Ok? ==> (AcceptorAccepted in files <==> r.value.accepted.Some?)
  {
    match LoadBallot(files, AcceptorBallot)
    case Err(e) => Err(e)
    case Ok(b) =>
      if AcceptorAccepted !in files then Ok(AcceptorState(b, None))
      else match DecodeState(files[AcceptorAccepted])
        case None => Err(Panicked)
        case Some(p) => Ok(AcceptorState(b, Some(p)))
  }

  lemma DecimalIsUtf8(n: nat)
    ensures ValidUtf8(Decimal(n))
  {
    AsciiIsUtf8(Decimal(n));
  }

  /** A stored ballot reads back as itself. */
  lemma BallotRoundTrip(b: u64)
    ensures DecodeBallot(EncodeBallot(b)) == Ok(b)
  {
    DecimalIsUtf8(b);
    DecimalRoundTrip(b);
  }

  /** A stored acceptance reads back as itself, whatever bytes the value holds
      (including newlines): the first newline is the one after the ballot. */
  lemma StateRoundTrip(p: Promised)
    ensures DecodeState(EncodeState(p)) == Some(p)
  {
    var d := Decimal(p.ballotNum);
    var payload := EncodeState(p);
    DecimalHasNoNewline(p.ballotNum);
    NewlineAfterDigits(d, p.value);
    assert payload[..|d|] == d;
    assert payload[|d| + 1..] == p.value;
    DecimalIsUtf8(p.ballotNum);
    DecimalRoundTrip(p.ballotNum);
  }

  lemma NewlineAfterDigits(d: seq<byte>, v: seq<byte>)
    requires |d| > 0 && forall i :: 0 <= i < |d| ==> d[i] != '\n' as int
    ensures NewlineIndex(d + ['\n' as int] + v) == |d|
  {
    var p := d + ['\n' as int] + v;
    assert p[|d|] == '\n' as int;
    assert forall i :: 0 <= i < |d| ==> p[i] == d[i];
  }

  /** Without a newline the ballot is 0 (the `unwrap_or(0)` of the position)
      and the value is the whole file minus its first byte. */
  lemma NoNewlineDecodes(payload: seq<byte>)
    requires |payload| > 0 && forall i :: 0 <= i < |payload| ==> payload[i] != '\n' as int
    ensures DecodeState(payload) == Some(Promised(0, payload[1..]))
  {
    assert FirstNewline(payload) == |payload|;
    assert payload[..0] == [];
  }

  // ---------------------------------------------------------------------------
  // The directory of a node.

  /** Persist: a directory holding the node's files. */
  class Persist {
    var files: map<Record, seq<byte>>

    constructor (initial: map<Record, seq<byte>>)
      ensures files == initial
    {
      files := initial;
    }

    /** `fs::write`: replaces the file when the write succeeds and leaves it
        as it was when it fails. */
    method Write(rec: Record, data: seq<byte>, ioOk: bool) returns (r: Result<(), IoError>)
      modifies this
      ensures ioOk ==> r == Ok(()) && files == old(files)[rec := data]
      ensures !ioOk ==> r == Err(IoError) && files == old(files)
    {
      if ioOk {
        files := files[rec := data];
        r := Ok(());
      } else {
        r := Err(IoError);
      }
    }
  }

  // ---------------------------------------------------------------------------
  // The acceptor's rules as functions of its state.

  predicate WellFormed(s: AcceptorState)
  {
    s.accepted.Some? ==> s.accepted.value.ballotNum <= s.maxSeenBallot
  }

  /** Acceptor::prepare (classic.rs:121-144): a ballot below the highest one
      seen is refused with that ballot; any other is promised, answered with
      the acceptance held so far (ballot 0 and no value when none). */
  function OnPrepare(s: AcceptorState, b: u64): (r: (AcceptorState, Promise))
    ensures r.1.ok <==> s.maxSeenBallot <= b
    ensures !r.1.ok ==> r.0 == s && r.1 == Promise(false, s.maxSeenBallot, [])
    ensures r.1.ok ==> r.0 == AcceptorState(b, s.accepted)
    ensures r.1.ok && s.accepted.Some? ==> r.1 == Promise(true, s.accepted.value.ballotNum, s.accepted.value.value)
    ensures r.1.ok && s.accepted.None? ==> r.1 == Promise(true, 0, [])
    ensures WellFormed(s) ==> WellFormed(r.0)
  {
    if s.maxSeenBallot > b then (s, Promise(false, s.maxSeenBallot, []))
    else
      var reply := match s.accepted
        case Some(a) => Promise(true, a.ballotNum, a.value)
        case None => Promise(true, 0, []);
      (AcceptorState(b, s.accepted), reply)
  }

  /** Acceptor::accept (classic.rs:155-169): a proposal below the highest
      ballot seen is refused; any other is accepted and raises the ballot. */
  function OnAccept(s: AcceptorState, p: Propose): (r: (AcceptorState, AcceptReply))
    ensures r.1.ok <==> s.maxSeenBallot <= p.ballotNum
    ensures !r.1.ok ==> r.0 == s
    ensures r.1.ok ==> r.0 == AcceptorState(p.ballotNum, Some(Promised(p.ballotNum, p.value)))
    ensures WellFormed(r.0) || r.0 == s
  {
    if s.maxSeenBallot > p.ballotNum then (s, AcceptReply(false))
    else (AcceptorState(p.ballotNum, Some(Promised(p.ballotNum, p.value))), AcceptReply(true))
  }

  datatype Request = PrepareRequest(ballotNum: u64) | AcceptRequest(proposal: Propose)

  /** One request handled by an acceptor: the highest ballot seen never
      goes down, a changed state has taken the request's ballot, and only an
      accept request replaces the acceptance, by exactly its proposal. */
  function Handle(s: AcceptorState, req: Request): (r: AcceptorState)
    ensures r.maxSeenBallot >= s.maxSeenBallot
    ensures r != s ==> r.maxSeenBallot == (if req.PrepareRequest? then req.ballotNum else req.proposal.ballotNum)
    ensures r.accepted != s.accepted ==>
      req.AcceptRequest? && r.accepted == Some(Promised(req.proposal.ballotNum, req.proposal.value))
  {
    match req
    case PrepareRequest(b) => OnPrepare(s, b).0
    case AcceptRequest(p) => OnAccept(s, p).0
  }

  /** The state after handling a sequence of requests in order. */
  function Run(s: AcceptorState, reqs: seq<Request>): AcceptorState
    decreases |reqs|
  {
    if |reqs| == 0 then s else Run(Handle(s, reqs[0]), reqs[1..])
  }

  /** Over any sequence of requests the highest ballot seen never decreases,
      a well-formed state stays well-formed, and the accepted ballot never
      decreases either. */
  lemma {:induction false} RunMonotone(s: AcceptorState, reqs: seq<Request>)
    ensures Run(s, reqs).maxSeenBallot >= s.maxSeenBallot
    ensures WellFormed(s) ==> WellFormed(Run(s, reqs))
    ensures WellFormed(s) && s.accepted.Some? ==>
      Run(s, reqs).accepted.Some? && Run(s, reqs).accepted.value.ballotNum >= s.accepted.value.ballotNum
    decreases |reqs|
  {
    if |reqs| > 0 {
      var s1 := Handle(s, reqs[0]);
      RunMonotone(s1, reqs[1..]);
    }
  }

  /** After promising ballot b, every proposal below b is refused, whatever
      requests came in between. */
  lemma PromiseIsKept(s: AcceptorState, b: u64, between: seq<Request>, p: Propose)
    requires OnPrepare(s, b).1.ok
    requires p.ballotNum < b
    ensures !OnAccept(Run(OnPrepare(s, b).0, between), p).1.ok
  {
    RunMonotone(OnPrepare(s, b).0, between);
  }

  // ---------------------------------------------------------------------------
  // The acceptor as a stateful object.

  class Acceptor {
    var maxSeenBallot: u64
    var accepted: Option<Promised>
    const persist: Persist

    function State(): AcceptorState
      reads this
    {
      AcceptorState(maxSeenBallot, accepted)
    }

    /** What is on disk is never behind what is in memory: a restart recovers
        a ballot at least as high and exactly the acceptance held. */
    ghost predicate Valid()
      reads this, persist
    {
      && Recover(persist.files).Ok?
      && Recover(persist.files).value.maxSeenBallot >= maxSeenBallot
      && Recover(persist.files).value.accepted == accepted
    }

    constructor FromState(p: Persist, s: AcceptorState)
      ensures persist == p && State() == s
    {
      persist := p;
      maxSeenBallot := s.maxSeenBallot;
      accepted := s.accepted;
    }

    /** Acceptor::new: load the state from the directory. */
    static method New(p: Persist) returns (r: Result<Acceptor, LoadError>)
      ensures Recover(p.files).Err? ==> r == Err(Recover(p.files).error)
      ensures Recover(p.files).Ok? ==>
        r.Ok? && fresh(r.value) && r.value.persist == p && r.value.State() == Recover(p.files).value && r.value.Valid()
    {
      var loaded := Recover(p.files);
      if loaded.Err? {
        return Err(loaded.error);
      }
      var a := new Acceptor.FromState(p, loaded.value);
      r := Ok(a);
    }

    /** Acceptor::prepare: the new ballot reaches the disk before the memory
        and before the reply; a failed write answers with an error and
        changes nothing. */
    method Prepare(b: u64, ioOk: bool) returns (r: Result<Promise, IoError>)
      requires Valid()
      modifies this, persist
      ensures Valid()
      ensures r.Ok? ==> (State(), r.value) == OnPrepare(old(State()), b)
      ensures r.Err? <==> old(maxSeenBallot) <= b && !ioOk
      ensures r.Err? ==> State() == old(State())
      ensures persist.files ==
        (if r.Ok? && r.value.ok then old(persist.files)[AcceptorBallot := EncodeBallot(b)] else old(persist.files))
    {
      if maxSeenBallot > b {
        return Ok(Promise(false, maxSeenBallot, []));
      }
      var w := persist.Write(AcceptorBallot, EncodeBallot(b), ioOk);
      if w.Err? {
        return Err(IoError);
      }
      BallotRoundTrip(b);
      maxSeenBallot := b;
      match accepted {
        case Some(a) =>
          r := Ok(Promise(true, a.ballotNum, a.value));
        case None =>
          r := Ok(Promise(true, 0, []));
      }
    }

    /** Acceptor::accept: the ballot is written, then the acceptance, then the
        memory changes.  When the second write fails the ballot is already on
        disk, which keeps the disk ahead of the memory. */
    method Accept(p: Propose, ballotWriteOk: bool, stateWriteOk: bool) returns (r: Result<AcceptReply, IoError>)
      requires Valid()
      modifies this, persist
      ensures Valid()
      ensures r.Ok? ==> (State(), r.value) == OnAccept(old(State()), p)
      ensures r.Err? <==> old(maxSeenBallot) <= p.ballotNum && !(ballotWriteOk && stateWriteOk)
      ensures r.Err? ==> State() == old(State())
      ensures old(maxSeenBallot) > p.ballotNum || !ballotWriteOk ==> persist.files == old(persist.files)
      ensures old(maxSeenBallot) <= p.ballotNum && ballotWriteOk && !stateWriteOk ==>
        persist.files == old(persist.files)[AcceptorBallot := EncodeBallot(p.ballotNum)]
      ensures r.Ok? && r.value.ok ==>
        persist.files == old(persist.files)[AcceptorBallot := EncodeBallot(p.ballotNum)]
                                           [AcceptorAccepted := EncodeState(Promised(p.ballotNum, p.value))]
    {
      if maxSeenBallot > p.ballotNum {
        return Ok(AcceptReply(false));
      }
      var w1 := persist.Write(AcceptorBallot, EncodeBallot(p.ballotNum), ballotWriteOk);
      if w1.Err? {
        return Err(IoError);
      }
      BallotRoundTrip(p.ballotNum);
      var state := Promised(p.ballotNum, p.value);
      var w2 := persist.Write(AcceptorAccepted, EncodeState(state), stateWriteOk);
      if w2.Err? {
        return Err(IoError);
      }
      StateRoundTrip(state);
      maxSeenBallot := p.ballotNum;
      accepted := Some(state);
      r := Ok(AcceptReply(true));
    }
  }

  // ---------------------------------------------------------------------------
  // Ballots.

  /** The ballot of round `round` of proposer `id` (classic.rs:199). */
  function BallotFor(round: nat, id: nat): nat
  {
    round * 1000 + id
  }

  /** With ids below 1000, two proposers never share a ballot and a later
      round always outranks an earlier one, whoever runs it. */
  lemma BallotsDistinct(r1: nat, id1: nat, r2: nat, id2: nat)
    requires id1 < 1000 && id2 < 1000
    ensures BallotFor(r1, id1) == BallotFor(r2, id2) <==> r1 == r2 && id1 == id2
    ensures r1 < r2 ==> BallotFor(r1, id1) < BallotFor(r2, id2)
  {
    if r1 < r2 {
      assert BallotFor(r2, id2) >= (r1 + 1) * 1000;
    } else if r2 < r1 {
      assert BallotFor(r1, id1) >= (r2 + 1) * 1000;
    }
  }

  class Proposer {
    const id: u64
    var ballotNum: u64
    const persist: Persist

    /** A restart resumes from the round in memory, so no ballot is reused. */
    ghost predicate Valid()
      reads this, persist
    {
      LoadBallot(persist.files, ProposerBallot) == Ok(ballotNum)
    }

    constructor FromRound(i: u64, round: u64, p: Persist)
      ensures id == i && ballotNum == round && persist == p
    {
      id := i;
      ballotNum := round;
      persist := p;
    }

    /** Proposer::new: load the round from the directory (0 when absent). */
    static method New(i: u64, p: Persist) returns (r: Result<Proposer, LoadError>)
      ensures LoadBallot(p.files, ProposerBallot).Err? ==> r.Err?
      ensures LoadBallot(p.files, ProposerBallot).Ok? ==>
        r.Ok? && fresh(r.value) && r.value.id == i && r.value.persist == p &&
        r.value.ballotNum == LoadBallot(p.files, ProposerBallot).value && r.value.Valid()
    {
      var loaded := LoadBallot(p.files, ProposerBallot);
      if loaded.Err? {
        return Err(loaded.error);
      }
      var q := new Proposer.FromRound(i, loaded.value, p);
      r := Ok(q);
    }

    /** Proposer::next_ballot_num: the next round is stored before it is
        used.  Rust's overflow check on `+ 1` and `* 1000` is a demand. */
    method NextBallotNum(ioOk: bool) returns (r: Result<u64, IoError>)
      requires BallotFor(ballotNum + 1, id) < U64_LIMIT
      requires Valid()
      modifies this, persist
      ensures Valid()
      ensures ioOk ==> ballotNum == old(ballotNum) + 1 && r == Ok(BallotFor(ballotNum, id))
      ensures ioOk ==> persist.files == old(persist.files)[ProposerBallot := EncodeBallot(ballotNum)]
      ensures !ioOk ==> r == Err(IoError) && ballotNum == old(ballotNum) && persist.files == old(persist.files)
    {
      var next := ballotNum + 1;
      var w := persist.Write(ProposerBallot, EncodeBallot(next), ioOk);
      if w.Err? {
        return Err(IoError);
      }
      BallotRoundTrip(next);
      ballotNum := next;
      r := Ok(next * 1000 + id);
    }

    /** Proposer::prepare's tally (classic.rs:237-262) over the promises in
        the order they arrive.  None: fewer than a majority promise, and since
        the proposer still holds its own sender the receive loop waits
        forever. */
    method Prepare(ballot: u64, n: nat, replies: seq<Promise>) returns (r: Option<Promised>)
      requires |replies| == n
      ensures r == TallyPromises(ballot, Majority(n), replies)
      ensures r.Some? <==> OkCount(replies) >= Majority(n)
      ensures r.Some? ==> (exists k :: 0 < k <= |replies| && replies[k - 1].ok &&
                            OkCount(replies[..k]) == Majority(n) && Describes(r.value, ballot, replies[..k]))
    {
      var majority := n / 2 + 1;
      var chosen := Promised(ballot, []);
      var promised := 0;
      var i := 0;
      while i < |replies|
        invariant 0 <= i <= |replies| && promised < majority
        invariant TallyFrom(chosen, promised, majority, replies, i) == TallyPromises(ballot, majority, replies)
      {
        var promise := replies[i];
        i := i + 1;
        if !promise.ok {
          continue;
        }
        if |promise.value| > 0 {
          if |chosen.value| == 0 || promise.ballotNum > chosen.ballotNum {
            chosen := Promised(promise.ballotNum, promise.value);
          }
        }
        promised := promised + 1;
        if promised >= majority {
          r := Some(chosen);
          var k := TallyPromisesMeaning(ballot, majority, replies);
          return;
        }
      }
      r := None;
      var k := TallyPromisesMeaning(ballot, majority, replies);
    }

    /** Proposer::accept's tally (classic.rs:298-312): true once a majority
        accepts; otherwise the loop waits forever (None), so false is never
        returned. */
    method Accept(n: nat, replies: seq<AcceptReply>) returns (r: Option<bool>)
      requires |replies| == n
      ensures r == TallyAccepts(Majority(n), replies)
      ensures r == (if AckCount(replies) >= Majority(n) then Some(true) else None)
    {
      var majority := n / 2 + 1;
      var acceptedCount := 0;
      var i := 0;
      while i < |replies|
        invariant 0 <= i <= |replies|
        invariant acceptedCount == AckCount(replies[..i]) < majority
      {
        assert replies[..i + 1][..i] == replies[..i];
        var accept := replies[i];
        i := i + 1;
        if !accept.ok {
          continue;
        }
        acceptedCount := acceptedCount + 1;
        if acceptedCount >= majority {
          AckCountPrefix(replies, i);
          return Some(acceptedCount >= majority);
        }
      }
      assert replies[..i] == replies;
      r := None;
    }
  }

  // ---------------------------------------------------------------------------
  // The tallies as functions.

  function Majority(n: nat): nat
  {
    n / 2 + 1
  }

  /** The number of `ok` promises. */
  function OkCount(rs: seq<Promise>): nat
  {
    if |rs| == 0 then 0 else OkCount(rs[..|rs| - 1]) + (if rs[|rs| - 1].ok then 1 else 0)
  }

  function AckCount(rs: seq<AcceptReply>): nat
  {
    if |rs| == 0 then 0 else AckCount(rs[..|rs| - 1]) + (if rs[|rs| - 1].ok then 1 else 0)
  }

  lemma {:induction false} OkCountPrefix(rs: seq<Promise>, k: nat)
    requires k <= |rs|
    ensures OkCount(rs[..k]) <= OkCount(rs)
    decreases |rs|
  {
    if k < |rs| {
      assert rs[..|rs| - 1][..k] == rs[..k];
      OkCountPrefix(rs[..|rs| - 1], k);
    } else {
      assert rs[..k] == rs;
    }
  }

  lemma {:induction false} AckCountPrefix(rs: seq<AcceptReply>, k: nat)
    requires k <= |rs|
    ensures AckCount(rs[..k]) <= AckCount(rs)
    decreases |rs|
  {
    if k < |rs| {
      assert rs[..|rs| - 1][..k] == rs[..k];
      AckCountPrefix(rs[..|rs| - 1], k);
    } else {
      assert rs[..k] == rs;
    }
  }

  /** A promise that carries an earlier acceptance. */
  predicate Carries(p: Promise)
  {
    p.ok && |p.value| > 0
  }

  /** One step of the prepare tally: a carried value replaces the one held
      when none is held yet or its ballot is strictly higher. */
  function Adopt(chosen: Promised, p: Promise): Promised
  {
    if Carries(p) && (|chosen.value| == 0 || p.ballotNum > chosen.ballotNum)
    then Promised(p.ballotNum, p.value) else chosen
  }

  /** The tally from position i on, holding `chosen` after `promised` ok
      promises; None when the replies run out first. */
  function TallyFrom(chosen: Promised, promised: nat, majority: nat, rs: seq<Promise>, i: nat): Option<Promised>
    requires i <= |rs|
    decreases |rs| - i
  {
    if i == |rs| then None
    else if !rs[i].ok then TallyFrom(chosen, promised, majority, rs, i + 1)
    else if promised + 1 >= majority then Some(Adopt(chosen, rs[i]))
    else TallyFrom(Adopt(chosen, rs[i]), promised + 1, majority, rs, i + 1)
  }

  function TallyPromises(ballot: u64, majority: nat, rs: seq<Promise>): Option<Promised>
  {
    TallyFrom(Promised(ballot, []), 0, majority, rs, 0)
  }

  function TallyAccepts(majority: nat, rs: seq<AcceptReply>): Option<bool>
  {
    if AckCount(rs) >= majority then Some(true) else None
  }

  /** What the proposer holds after seeing `seen`: the value of the highest
      ballot carried, the first such when ballots tie; its own ballot and no
      value when nothing was carried. */
  ghost predicate Describes(c: Promised, ballot: u64, seen: seq<Promise>)
  {
    && (|c.value| == 0 <==> forall i :: 0 <= i < |seen| ==> !Carries(seen[i]))
    && (|c.value| == 0 ==> c.ballotNum == ballot)
    && (forall i :: 0 <= i < |seen| && Carries(seen[i]) ==> seen[i].ballotNum <= c.ballotNum)
    && (|c.value| > 0 ==> exists j :: 0 <= j < |seen| && FirstHighest(c, seen, j))
  }

  /** seen[j] carries c, and no earlier promise carries a ballot as high. */
  ghost predicate FirstHighest(c: Promised, seen: seq<Promise>, j: nat)
    requires j < |seen|
  {
    && Carries(seen[j]) && seen[j].ballotNum == c.ballotNum && seen[j].value == c.value
    && forall i :: 0 <= i < j && Carries(seen[i]) ==> seen[i].ballotNum < c.ballotNum
  }

  lemma AdoptDescribes(c: Promised, ballot: u64, seen: seq<Promise>, p: Promise)
    requires Describes(c, ballot, seen)
    ensures Describes(Adopt(c, p), ballot, seen + [p])
  {
    var s := seen + [p];
    var c1 := Adopt(c, p);
    assert forall i :: 0 <= i < |seen| ==> s[i] == seen[i];
    if |c1.value| > 0 {
      if c1 == c {
        var j :| 0 <= j < |seen| && FirstHighest(c, seen, j);
        assert s[j] == seen[j];
        assert FirstHighest(c1, s, j);
      } else {
        assert s[|seen|] == p;
        assert FirstHighest(c1, s, |seen|);
      }
    }
  }

  /** The tally from position i finishes exactly when the replies hold a
      majority of ok promises. */
  lemma {:induction false} TallyFromFinishes(c: Promised, promised: nat, majority: nat, rs: seq<Promise>, i: nat)
    requires i <= |rs| && promised < majority && promised == OkCount(rs[..i])
    ensures TallyFrom(c, promised, majority, rs, i).Some? <==> OkCount(rs) >= majority
    decreases |rs| - i
  {
    if i == |rs| {
      assert rs[..i] == rs;
    } else {
      OkCountStep(rs, i);
      if !rs[i].ok {
        TallyFromFinishes(c, promised, majority, rs, i + 1);
      } else if promised + 1 >= majority {
        OkCountPrefix(rs, i + 1);
      } else {
        TallyFromFinishes(Adopt(c, rs[i]), promised + 1, majority, rs, i + 1);
      }
    }
  }

  lemma OkCountStep(rs: seq<Promise>, i: nat)
    requires i < |rs|
    ensures OkCount(rs[..i + 1]) == OkCount(rs[..i]) + (if rs[i].ok then 1 else 0)
  {
    assert rs[..i + 1][..i] == rs[..i];
  }

  /** Where the tally from position i stops: the majority-th ok promise. */
  lemma {:induction false} TallyFromMeaning(ballot: u64, c: Promised, promised: nat, majority: nat, rs: seq<Promise>, i: nat)
    returns (k: nat)
    requires i <= |rs| && promised < majority
    requires promised == OkCount(rs[..i]) && Describes(c, ballot, rs[..i])
    ensures TallyFrom(c, promised, majority, rs, i).Some? ==>
      i < k <= |rs| && rs[k - 1].ok && OkCount(rs[..k]) == majority
    ensures TallyFrom(c, promised, majority, rs, i).Some? ==>
      Describes(TallyFrom(c, promised, majority, rs, i).value, ballot, rs[..k])
    decreases |rs| - i
  {
    if i == |rs| {
      k := 0;
    } else {
      PrefixStep(ballot, c, rs, i);
      if !rs[i].ok {
        assert TallyFrom(c, promised, majority, rs, i) == TallyFrom(c, promised, majority, rs, i + 1);
        k := TallyFromMeaning(ballot, c, promised, majority, rs, i + 1);
      } else if promised + 1 >= majority {
        assert TallyFrom(c, promised, majority, rs, i) == Some(Adopt(c, rs[i]));
        k := i + 1;
      } else {
        var c' := Adopt(c, rs[i]);
        assert TallyFrom(c, promised, majority, rs, i) == TallyFrom(c', promised + 1, majority, rs, i + 1);
        k := TallyFromMeaning(ballot, c', promised + 1, majority, rs, i + 1);
      }
    }
  }

  /** Extending the prefix read by one reply. */
  lemma PrefixStep(ballot: u64, c: Promised, rs: seq<Promise>, i: nat)
    requires i < |rs| && Describes(c, ballot, rs[..i])
    ensures OkCount(rs[..i + 1]) == OkCount(rs[..i]) + (if rs[i].ok then 1 else 0)
    ensures Describes(Adopt(c, rs[i]), ballot, rs[..i + 1])
    ensures !rs[i].ok ==> Adopt(c, rs[i]) == c
  {
    assert rs[..i + 1][..i] == rs[..i];
    assert rs[..i + 1] == rs[..i] + [rs[i]];
    AdoptDescribes(c, ballot, rs[..i], rs[i]);
  }

  /** The prepare tally finishes exactly when a majority promises, and then
      holds the highest-ballot value among the promises it read up to and
      including the one that made the majority (k of them). */
  lemma TallyPromisesMeaning(ballot: u64, majority: nat, rs: seq<Promise>) returns (k: nat)
    requires majority >= 1
    ensures TallyPromises(ballot, majority, rs).Some? <==> OkCount(rs) >= majority
    ensures TallyPromises(ballot, majority, rs).Some? ==>
      0 < k <= |rs| && rs[k - 1].ok && OkCount(rs[..k]) == majority &&
      Describes(TallyPromises(ballot, majority, rs).value, ballot, rs[..k])
  {
    assert rs[..0] == [];
    TallyFromFinishes(Promised(ballot, []), 0, majority, rs, 0);
    k := TallyFromMeaning(ballot, Promised(ballot, []), 0, majority, rs, 0);
  }

  // ---------------------------------------------------------------------------
  // The driver.

  datatype Outcome = Decided(accepted: bool) | StoreFailed | WaitsForever

  /** The value proposed after the prepare round: the adopted value, or the
      client's own when none was adopted. */
  function ProposedValue(chosen: Promised, value: seq<byte>): seq<byte>
  {
    if |chosen.value| == 0 then value else chosen.value
  }

  /** The proposal `paxos` sends (classic.rs:318-322): it keeps the ballot of
      the adopted acceptance instead of the ballot it just prepared. */
  function ProposalAsWritten(ballot: u64, chosen: Promised, value: seq<byte>): Propose
  {
    Propose(chosen.ballotNum, ProposedValue(chosen, value))
  }

  /** The proposal under the ballot that was prepared. */
  function Proposal(ballot: u64, chosen: Promised, value: seq<byte>): Propose
  {
    Propose(ballot, ProposedValue(chosen, value))
  }

  /** `paxos` (classic.rs:316-323) with the replies of both rounds given in
      arrival order; `sent` is the proposal broadcast in the accept round. */
  method Paxos(proposer: Proposer, n: nat, value: seq<byte>, promises: seq<Promise>, acks: seq<AcceptReply>, ioOk: bool)
    returns (r: Outcome, sent: Option<Propose>)
    requires |promises| == n && |acks| == n
    requires proposer.Valid() && BallotFor(proposer.ballotNum + 1, proposer.id) < U64_LIMIT
    modifies proposer, proposer.persist
    ensures proposer.Valid()
    ensures !ioOk ==> r == StoreFailed && sent.None? && proposer.ballotNum == old(proposer.ballotNum)
    ensures ioOk ==> proposer.ballotNum == old(proposer.ballotNum) + 1
    ensures ioOk ==>
      var ballot := BallotFor(proposer.ballotNum, proposer.id);
      match TallyPromises(ballot, Majority(n), promises)
      case None => r == WaitsForever && sent.None?
      case Some(chosen) =>
        && sent == Some(ProposalAsWritten(ballot, chosen, value))
        && r == (if TallyAccepts(Majority(n), acks).Some? then Decided(true) else WaitsForever)
  {
    var b := proposer.NextBallotNum(ioOk);
    if b.Err? {
      return StoreFailed, None;
    }
    var promised := proposer.Prepare(b.value, n, promises);
    if promised.None? {
      return WaitsForever, None;
    }
    var chosen := promised.value;
    if |chosen.value| == 0 {
      chosen := Promised(chosen.ballotNum, value);
    }
    var proposal := Propose(chosen.ballotNum, chosen.value);
    sent := Some(proposal);
    var ok := proposer.Accept(n, acks);
    r := if ok.Some? then Decided(ok.value) else WaitsForever;
  }

  // ---------------------------------------------------------------------------
  // A whole round against a cluster, every acceptor reachable and the replies
  // arriving in acceptor order.

  function PrepareAll(states: seq<AcceptorState>, b: u64): (r: (seq<AcceptorState>, seq<Promise>))
    ensures |r.0| == |states| && |r.1| == |states|
    ensures forall i :: 0 <= i < |states| ==> (r.0[i], r.1[i]) == OnPrepare(states[i], b)
  {
    if |states| == 0 then ([], [])
    else
      var rest := PrepareAll(states[1..], b);
      var one := OnPrepare(states[0], b);
      ([one.0] + rest.0, [one.1] + rest.1)
  }

  function AcceptAll(states: seq<AcceptorState>, p: Propose): (r: (seq<AcceptorState>, seq<AcceptReply>))
    ensures |r.0| == |states| && |r.1| == |states|
    ensures forall i :: 0 <= i < |states| ==> (r.0[i], r.1[i]) == OnAccept(states[i], p)
  {
    if |states| == 0 then ([], [])
    else
      var rest := AcceptAll(states[1..], p);
      var one := OnAccept(states[0], p);
      ([one.0] + rest.0, [one.1] + rest.1)
  }

  /** The round `paxos` runs, as written: every acceptor whose acceptance
      changes takes the same proposal, and no ballot goes down. */
  function RoundAsWritten(states: seq<AcceptorState>, ballot: u64, value: seq<byte>): (r: (seq<AcceptorState>, Outcome))
    ensures |r.0| == |states|
    ensures r.1 == Decided(true) || r.1 == WaitsForever
    ensures forall i :: 0 <= i < |states| ==> r.0[i].maxSeenBallot >= states[i].maxSeenBallot
    ensures forall i, j ::
      (0 <= i < |states| && 0 <= j < |states| && r.0[i].accepted != states[i].accepted && r.0[j].accepted != states[j].accepted) ==> r.0[i].accepted == r.0[j].accepted
  {
    var prepared := PrepareAll(states, ballot);
    match TallyPromises(ballot, Majority(|states|), prepared.1)
    case None => (prepared.0, WaitsForever)
    case Some(chosen) =>
      var accepted := AcceptAll(prepared.0, ProposalAsWritten(ballot, chosen, value));
      (accepted.0, if TallyAccepts(Majority(|states|), accepted.1).Some? then Decided(true) else WaitsForever)
  }

  /** The round with the proposal under the prepared ballot: every acceptor
      whose acceptance changes takes the same proposal, under that ballot. */
  function Round(states: seq<AcceptorState>, ballot: u64, value: seq<byte>): (r: (seq<AcceptorState>, Outcome))
    ensures |r.0| == |states|
    ensures r.1 == Decided(true) || r.1 == WaitsForever
    ensures forall i :: 0 <= i < |states| ==> r.0[i].maxSeenBallot >= states[i].maxSeenBallot
    ensures forall i, j ::
      (0 <= i < |states| && 0 <= j < |states| && r.0[i].accepted != states[i].accepted && r.0[j].accepted != states[j].accepted) ==> r.0[i].accepted == r.0[j].accepted
    ensures forall i :: 0 <= i < |states| && r.0[i].accepted != states[i].accepted ==>
      r.0[i].accepted.Some? && r.0[i].accepted.value.ballotNum == ballot
  {
    var prepared := PrepareAll(states, ballot);
    match TallyPromises(ballot, Majority(|states|), prepared.1)
    case None => (prepared.0, WaitsForever)
    case Some(chosen) =>
      var accepted := AcceptAll(prepared.0, Proposal(ballot, chosen, value));
      (accepted.0, if TallyAccepts(Majority(|states|), accepted.1).Some? then Decided(true) else WaitsForever)
  }

  lemma {:induction false} AllOkCount(rs: seq<Promise>)
    requires forall i :: 0 <= i < |rs| ==> rs[i].ok
    ensures OkCount(rs) == |rs|
    decreases |rs|
  {
    if |rs| > 0 {
      AllOkCount(rs[..|rs| - 1]);
    }
  }

  lemma {:induction false} AllAckCount(rs: seq<AcceptReply>)
    requires forall i :: 0 <= i < |rs| ==> rs[i].ok
    ensures AckCount(rs) == |rs|
    decreases |rs|
  {
    if |rs| > 0 {
      AllAckCount(rs[..|rs| - 1]);
    }
  }

  /** Preparing a ballot no acceptor has been outbid by: every acceptor
      promises, reporting what it holds. */
  lemma PrepareAllFresh(states: seq<AcceptorState>, ballot: u64)
    requires forall i :: 0 <= i < |states| ==> states[i].maxSeenBallot <= ballot
    ensures forall i :: 0 <= i < |states| ==>
      PrepareAll(states, ballot).1[i].ok && PrepareAll(states, ballot).0[i] == AcceptorState(ballot, states[i].accepted)
    ensures OkCount(PrepareAll(states, ballot).1) == |states|
  {
    AllOkCount(PrepareAll(states, ballot).1);
  }

  /** Proposing at the ballot every acceptor has promised: every acceptor
      accepts. */
  lemma AcceptAllPromised(states: seq<AcceptorState>, p: Propose)
    requires forall i :: 0 <= i < |states| ==> states[i].maxSeenBallot == p.ballotNum
    ensures forall i :: 0 <= i < |states| ==>
      AcceptAll(states, p).0[i] == AcceptorState(p.ballotNum, Some(Promised(p.ballotNum, p.value)))
    ensures AckCount(AcceptAll(states, p).1) == |states|
  {
    AllAckCount(AcceptAll(states, p).1);
  }

  /** With a ballot no acceptor has been outbid by, the corrected round is
      decided and every acceptor ends up holding the proposal under that
      ballot. */
  lemma RoundDecides(states: seq<AcceptorState>, ballot: u64, value: seq<byte>) returns (v: seq<byte>)
    requires |states| > 0
    requires forall i :: 0 <= i < |states| ==> states[i].maxSeenBallot <= ballot
    ensures Round(states, ballot, value).1 == Decided(true)
    ensures forall i :: 0 <= i < |states| ==>
      Round(states, ballot, value).0[i] == AcceptorState(ballot, Some(Promised(ballot, v)))
    ensures v == ProposedValue(TallyPromises(ballot, Majority(|states|), PrepareAll(states, ballot).1).value, value)
  {
    var prepared := PrepareAll(states, ballot);
    PrepareAllFresh(states, ballot);
    var k := TallyPromisesMeaning(ballot, Majority(|states|), prepared.1);
    var chosen := TallyPromises(ballot, Majority(|states|), prepared.1).value;
    var p := Proposal(ballot, chosen, value);
    AcceptAllPromised(prepared.0, p);
    var accepted := AcceptAll(prepared.0, p);
    assert TallyAccepts(Majority(|states|), accepted.1) == Some(true);
    assert Round(states, ballot, value) == (accepted.0, Decided(true));
    v := p.value;
  }

  /** A value every acceptor holds survives a later corrected round. */
  lemma RoundKeepsUnanimousValue(states: seq<AcceptorState>, ballot: u64, value: seq<byte>, x: seq<byte>)
    requires |states| > 0 && |x| > 0
    requires forall i :: 0 <= i < |states| ==> states[i].maxSeenBallot <= ballot
    requires forall i :: 0 <= i < |states| ==> states[i].accepted.Some? && states[i].accepted.value.value == x
    ensures forall i :: 0 <= i < |states| ==> Round(states, ballot, value).0[i].accepted == Some(Promised(ballot, x))
  {
    var v := RoundDecides(states, ballot, value);
    var chosen := AdoptedUnanimous(states, ballot, x);
    assert v == x;
  }

  /** When every acceptor holds x, the prepare tally at a fresh ballot adopts x. */
  lemma AdoptedUnanimous(states: seq<AcceptorState>, ballot: u64, x: seq<byte>) returns (chosen: Promised)
    requires |states| > 0 && |x| > 0
    requires forall i :: 0 <= i < |states| ==> states[i].maxSeenBallot <= ballot
    requires forall i :: 0 <= i < |states| ==> states[i].accepted.Some? && states[i].accepted.value.value == x
    ensures TallyPromises(ballot, Majority(|states|), PrepareAll(states, ballot).1) == Some(chosen)
    ensures chosen.value == x
  {
    var replies := PrepareAll(states, ballot).1;
    PrepareAllFresh(states, ballot);
    var k := TallyPromisesMeaning(ballot, Majority(|states|), replies);
    chosen := TallyPromises(ballot, Majority(|states|), replies).value;
    var seen := replies[..k];
    assert seen[0] == replies[0];
    assert Carries(seen[0]);
    var j :| 0 <= j < |seen| && FirstHighest(chosen, seen, j);
    assert seen[j] == replies[j];
  }

  /** The round as written never completes once some acceptance exists below
      the new ballot: three acceptors that all accepted "x" at ballot 1001 and
      a new round at ballot 2001 adopt "x" at ballot 1001, every acceptor
      refuses that proposal, and the accept loop waits forever.  The corrected
      round decides. */
  lemma AdoptedBallotIsRefused()
    ensures var s := AcceptorState(1001, Some(Promised(1001, ['x' as int])));
      RoundAsWritten([s, s, s], 2001, ['y' as int]).1 == WaitsForever
    ensures var s := AcceptorState(1001, Some(Promised(1001, ['x' as int])));
      Round([s, s, s], 2001, ['y' as int]).1 == Decided(true)
  {
    var s := AcceptorState(1001, Some(Promised(1001, ['x' as int])));
    var states := [s, s, s];
    var prepared := PrepareAll(states, 2001);
    var pr := Promise(true, 1001, ['x' as int]);
    assert prepared.1 == [pr, pr, pr];
    var x1 := Promised(1001, ['x' as int]);
    assert Adopt(Promised(2001, []), pr) == x1;
    assert Adopt(x1, pr) == x1;
    assert TallyFrom(x1, 1, 2, prepared.1, 1) == Some(x1);
    assert TallyPromises(2001, 2, prepared.1) == Some(x1);
    var refused := AcceptAll(prepared.0, Propose(1001, ['x' as int]));
    var no := AcceptReply(false);
    assert refused.1 == [no, no, no];
    assert AckCount([no]) == 0;
    assert [no, no, no][..2] == [no, no];
    assert [no, no][..1] == [no];
    assert AckCount([no, no]) == 0;
    assert AckCount(refused.1) == 0;
    var v := RoundDecides(states, 2001, ['y' as int]);
  }
}
