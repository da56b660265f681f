/** goofy/skiplist/skiplist.go: a skip list of uint64 keys in descending
    order.  Every lane k of the list is the chain of nodes that the
    header's link k leads through; each lane ends at the shared node
    `null`, whose key is 0.  A node is identified by its key, which no
    other node holds, so a lane is modelled as the sequence of its keys and
    a link as a position in it.  `nilEnds` holds the lanes whose last link
    is nil rather than `null`: that is every lane of the zero value before
    `Init`, and what `Remove(0)` leaves behind as written. */
module GoSkiplist {
  import opened Base

  const MAX_LEVEL: nat := 9
  /** `slrand` draws from [0, 2^16) and goes on while the draw is below a
      quarter of that. */
  const QUARTER: nat := 0x4000

  /** Keys in strictly descending order. */
  ghost predicate Descending(s: seq<u64>)
  {
    forall i, j :: 0 <= i < j < |s| ==> s[i] > s[j]
  }

  /** Position u of a lane splits the keys above key from the rest: it is
      where a walk for key stops. */
  ghost predicate Splits(lane: seq<u64>, key: u64, u: nat)
  {
    u <= |lane| && (forall i :: 0 <= i < u ==> lane[i] > key) && (forall i :: u <= i < |lane| ==> lane[i] <= key)
  }

  /** The position just past the node holding x in a lane: the number of
      leading keys at least x. */
  function After(lane: seq<u64>, x: u64): (r: nat)
    ensures r <= |lane| && forall i :: 0 <= i < r ==> lane[i] >= x
  {
    if lane == [] || lane[0] < x then 0 else 1 + After(lane[1..], x)
  }

  /** A lane with key linked in at position u. */
  function Link(lane: seq<u64>, u: nat, key: u64): seq<u64>
    requires u <= |lane|
  {
    lane[..u] + [key] + lane[u..]
  }

  /** A lane with the node at position u unlinked. */
  function Unlinked(lane: seq<u64>, u: nat): seq<u64>
    requires u < |lane|
  {
    lane[..u] + lane[u + 1..]
  }

  lemma LinkKeeps(lane: seq<u64>, u: nat, key: u64)
    requires Descending(lane) && Splits(lane, key, u) && key !in lane
    ensures Descending(Link(lane, u, key)) && |Link(lane, u, key)| == |lane| + 1
    ensures forall x :: x in Link(lane, u, key) <==> x in lane || x == key
  {
    var r := Link(lane, u, key);
    forall i | 0 <= i < |r| ensures r[i] == (if i < u then lane[i] else if i == u then key else lane[i - 1]) {
    }
    forall x | x in lane ensures x in r {
      var i :| 0 <= i < |lane| && lane[i] == x;
      assert r[if i < u then i else i + 1] == x;
    }
    forall i | u <= i < |lane| ensures lane[i] < key {
      assert lane[i] != key;
    }
  }

  lemma UnlinkKeeps(lane: seq<u64>, u: nat, key: u64)
    requires Descending(lane) && u < |lane| && lane[u] == key
    ensures Descending(Unlinked(lane, u)) && |Unlinked(lane, u)| == |lane| - 1
    ensures forall x :: x in Unlinked(lane, u) <==> x in lane && x != key
  {
    var r := Unlinked(lane, u);
    forall i | 0 <= i < |r| ensures r[i] == (if i < u then lane[i] else lane[i + 1]) {
    }
    forall x | x in lane && x != key ensures x in r {
      var i :| 0 <= i < |lane| && lane[i] == x;
      assert r[if i < u then i else i - 1] == x;
    }
  }

  /** A walk for key that does not stop at a node holding key shows that
      the lane does not hold it. */
  lemma Absent(lane: seq<u64>, key: u64, u: nat)
    requires Descending(lane) && Splits(lane, key, u) && (u == |lane| || lane[u] != key)
    ensures key !in lane
  {
    forall i | 0 <= i < |lane| ensures lane[i] != key {
      if i > u {
        assert lane[u] > lane[i];
      }
    }
  }

  /** The lanes below n. */
  function Upto(n: nat): (r: set<nat>)
    ensures forall t: nat :: t in r <==> t < n
  {
    if n == 0 then {} else Upto(n - 1) + {n - 1}
  }

  /** Every key on lane k is on the lane below. */
  ghost predicate Stacked(lanes: seq<seq<u64>>, k: nat)
    requires 0 < k < |lanes|
  {
    forall x :: x in lanes[k] ==> x in lanes[k - 1]
  }

  /** The lanes of a list that `Init` set up: each lane is descending and
      holds no 0, a key on a lane is on the lane below and on lane 0, the
      lanes above `level` are empty, and `level` is the highest non-empty
      lane or 0. */
  ghost predicate Shape(lanes: seq<seq<u64>>, level: nat)
  {
    |lanes| == MAX_LEVEL && level < MAX_LEVEL
    && (forall k :: 0 <= k < MAX_LEVEL ==> Descending(lanes[k]) && 0 !in lanes[k])
    && (forall k :: 0 < k < MAX_LEVEL ==> Stacked(lanes, k))
    && (forall k, x :: 0 <= k < MAX_LEVEL && x in lanes[k] ==> x in lanes[0])
    && (forall k :: level < k < MAX_LEVEL ==> lanes[k] == [])
    && (level == 0 || lanes[level] != [])
  }

  /** A new top lane, which is empty, splits at 0 for every key: the walk's
      positions extended by it still split every lane up to it. */
  lemma Widened(lanes: seq<seq<u64>>, level: nat, key: u64, update: seq<nat>)
    requires Shape(lanes, level) && level + 1 < MAX_LEVEL
    requires |update| == level + 1 && forall t :: 0 <= t <= level ==> Splits(lanes[t], key, update[t])
    ensures forall t :: 0 <= t <= level + 1 ==> Splits(lanes[t], key, (update + [0])[t])
  {
    assert lanes[level + 1] == [];
  }

  /** Unlinking key from lanes 0 to k - 1, which hold it at the walk's
      positions, when lane k does not hold it: no lane holds key any more,
      every other key stays, and lane 0 is one shorter. */
  lemma UnlinkedLanes(before: seq<seq<u64>>, after: seq<seq<u64>>, level: nat, key: u64, update: seq<nat>, k: nat)
    requires Shape(before, level) && key in before[0]
    requires |update| == level + 1 && forall t :: 0 <= t <= level ==> Splits(before[t], key, update[t])
    requires k <= level + 1 && |after| == MAX_LEVEL
    requires forall t :: 0 <= t < k ==> update[t] < |before[t]| && before[t][update[t]] == key
    requires k <= level ==> update[k] >= |before[k]| || before[k][update[k]] != key
    requires forall t :: 0 <= t < MAX_LEVEL ==> after[t] == if t < k then Unlinked(before[t], update[t]) else before[t]
    ensures forall t :: 0 <= t < MAX_LEVEL ==> Descending(after[t])
    ensures forall t, x :: 0 <= t < MAX_LEVEL ==> (x in after[t] <==> x in before[t] && x != key)
    ensures |after[0]| == |before[0]| - 1
  {
    if k <= level {
      Absent(before[k], key, update[k]);
    }
    forall t | 0 <= t < MAX_LEVEL
      ensures Descending(after[t])
      ensures forall x :: x in after[t] <==> x in before[t] && x != key
    {
      if t < k {
        UnlinkKeeps(before[t], update[t], key);
      } else if k < t <= level {
        KeyAbove(before, k, t, key);
      }
    }
    assert k > 0;
    UnlinkKeeps(before[0], update[0], key);
  }

  /** Linking a new key into lanes 0 to top, with the level raised to top
      when top is above it, keeps the shape and adds the key to exactly
      those lanes. */
  lemma LinkShape(before: seq<seq<u64>>, level: nat, after: seq<seq<u64>>, level': nat, key: u64,
                  update: seq<nat>, top: nat)
    requires Shape(before, level) && key != 0 && key !in before[0]
    requires level <= level' < MAX_LEVEL && top <= level' && (level' > level ==> top == level')
    requires |update| > top && forall t :: 0 <= t <= top ==> Splits(before[t], key, update[t])
    requires forall t :: 0 <= t <= top ==> update[t] <= |before[t]|
    requires |after| == MAX_LEVEL
    requires forall t :: 0 <= t < MAX_LEVEL ==> after[t] == if t <= top then Link(before[t], update[t], key) else before[t]
    ensures Shape(after, level') && |after[0]| == |before[0]| + 1
    ensures forall k, x :: 0 <= k < MAX_LEVEL ==> (x in after[k] <==> x in before[k] || (x == key && k <= top))
  {
    forall t | 0 <= t < MAX_LEVEL
      ensures Descending(after[t]) && 0 !in after[t] && |after[t]| >= |before[t]|
      ensures forall x :: x in after[t] <==> x in before[t] || (x == key && t <= top)
    {
      if t <= top {
        LinkKeeps(before[t], update[t], key);
      }
    }
    LinkKeeps(before[0], update[0], key);
    forall k | 0 < k < MAX_LEVEL ensures Stacked(after, k) {
      assert Stacked(before, k);
    }
    if level' > level {
      assert key in after[level'];
    }
  }

  /** `slrand`: the number of leading draws of `rand.Intn(1 << 16)` below
      a quarter of 2^16, or 0 when that number reaches maxLevel.  The draws
      are a parameter; the loop stops at the first draw not below the
      quarter, which the sequence holds. */
  method SlRand(draws: seq<nat>) returns (l: nat)
    requires exists i :: 0 <= i < |draws| && draws[i] >= QUARTER
    ensures l < MAX_LEVEL
    ensures l < |draws| && forall i :: 0 <= i < l ==> draws[i] < QUARTER
    ensures l > 0 ==> draws[l] >= QUARTER
    ensures l == 0 && draws[0] < QUARTER ==> MAX_LEVEL < |draws| && forall i :: 0 <= i < MAX_LEVEL ==> draws[i] < QUARTER
  {
    var i: nat := 0;
    while draws[i] < QUARTER
      invariant i < |draws| && forall t :: 0 <= t < i ==> draws[t] < QUARTER
      invariant exists t :: i <= t < |draws| && draws[t] >= QUARTER
      decreases |draws| - i
    {
      i := i + 1;
    }
    if i < MAX_LEVEL {
      l := i;
    } else {
      l := 0;
    }
  }

  class List {
    var count: int
    var level: nat
    /** lanes[k]: the keys along the header's link k, down to the end. */
    var lanes: seq<seq<u64>>
    /** The lanes whose last link is nil rather than the `null` node. */
    var nilEnds: set<nat>

    /** The state `Init` establishes and every operation keeps: the lanes
        have their shape and end at `null`, and `count` is the number of
        keys. */
    ghost predicate Valid()
      reads this
    {
      Shape(lanes, level) && nilEnds == {} && count == |lanes[0]|
    }

    /** The zero value of `List`: no keys, and every header link nil. */
    constructor ()
      ensures count == 0 && level == 0 && lanes == seq(MAX_LEVEL, _ => [])
      ensures nilEnds == Upto(MAX_LEVEL)
    {
      count := 0;
      level := 0;
      lanes := seq(MAX_LEVEL, _ => []);
      nilEnds := Upto(MAX_LEVEL);
    }

    /** `Init`: every header link goes to `null`, which empties every lane;
        the count and the level are left as they were. */
    method Init()
      requires |lanes| == MAX_LEVEL && level < MAX_LEVEL && forall t :: t in nilEnds ==> t < MAX_LEVEL
      modifies this
      ensures lanes == seq(MAX_LEVEL, _ => []) && nilEnds == {}
      ensures count == old(count) && level == old(level)
      ensures old(count) == 0 && old(level) == 0 ==> Valid()
    {
      var i: nat := 0;
      while i < MAX_LEVEL
        invariant i <= MAX_LEVEL && |lanes| == MAX_LEVEL
        invariant forall t :: 0 <= t < i ==> lanes[t] == []
        invariant forall t :: t in nilEnds ==> i <= t < MAX_LEVEL
        invariant count == old(count) && level == old(level)
      {
        lanes := lanes[i := []];
        nilEnds := nilEnds - {i};
        i := i + 1;
      }
    }

    /** `Search`: from the top lane down, walk while the next key is above
        key; the position reached on each lane is its `update` entry, and q
        is the key of the node after it on lane 0, 0 for `null`.  So q is
        the largest key at most key, or 0 when there is none. */
    method Search(key: u64) returns (q: u64, update: seq<nat>)
      requires Valid()
      ensures |update| == level + 1
      ensures forall k :: 0 <= k <= level ==> Splits(lanes[k], key, update[k])
      ensures q == (if update[0] < |lanes[0]| then lanes[0][update[0]] else 0)
      ensures q != 0 ==> q in lanes[0] && q <= key
      ensures forall x :: x in lanes[0] && x <= key ==> x <= q
      ensures key in lanes[0] ==> q == key
    {
      update := seq(level + 1, _ => 0);
      var k: nat := level;
      var j: nat := 0;
      while true
        invariant |lanes| == MAX_LEVEL && level < MAX_LEVEL
        invariant k <= level && |update| == level + 1
        invariant j <= |lanes[k]| && forall i :: 0 <= i < j ==> lanes[k][i] > key
        invariant forall t :: k < t <= level ==> Splits(lanes[t], key, update[t])
        decreases k
      {
        while j < |lanes[k]| && lanes[k][j] > key
          invariant j <= |lanes[k]| && forall i :: 0 <= i < j ==> lanes[k][i] > key
        {
          j := j + 1;
        }
        update := update[k := j];
        if k == 0 {
          break;
        }
        if j > 0 {
          j := After(lanes[k - 1], lanes[k][j - 1]);
        }
        k := k - 1;
      }
      q := if j < |lanes[0]| then lanes[0][j] else 0;
      if q != 0 {
        assert lanes[0][j] in lanes[0];
      }
    }

    /** `Insert` with the level `slrand` drew: a key already there, and 0,
        which the `null` node matches, change nothing and give false.
        Otherwise the key is linked into lanes 0 to the drawn level, or to
        one lane above the current level when the draw is higher, and the
        count goes up by one. */
    method Insert(key: u64, draw: nat) returns (added: bool)
      requires Valid() && draw < MAX_LEVEL
      modifies this
      ensures Valid()
      ensures added <==> key != 0 && key !in old(lanes[0])
      ensures !added ==> lanes == old(lanes) && level == old(level) && count == old(count)
      ensures added ==> count == old(count) + 1
      ensures old(level) <= level <= old(level) + 1
      ensures added ==> forall k, x :: 0 <= k < MAX_LEVEL ==>
                (x in lanes[k] <==> x in old(lanes[k]) || (x == key && k <= draw && k <= old(level) + 1))
    {
      var q, update := Search(key);
      if q == key {
        return false;
      }
      var k: int := draw;
      if k > level {
        Widened(lanes, level, key, update);
        k := level + 1;
        level := k;
        update := update + [0];
      }
      LinkUpTo(key, update, k);
      LinkShape(old(lanes), old(level), lanes, level, key, update, k);
      count := count + 1;
      added := true;
    }

    /** The linking loop of `Insert`: the new node goes in after the
        `update` position of each lane from top down to 0. */
    method LinkUpTo(key: u64, update: seq<nat>, top: nat)
      requires |lanes| == MAX_LEVEL && top < MAX_LEVEL && |update| > top
      requires forall t :: 0 <= t <= top ==> update[t] <= |lanes[t]|
      modifies this
      ensures count == old(count) && level == old(level) && nilEnds == old(nilEnds) && |lanes| == MAX_LEVEL
      ensures forall t :: 0 <= t < MAX_LEVEL ==>
                lanes[t] == if t <= top then Link(old(lanes[t]), update[t], key) else old(lanes[t])
    {
      var k: int := top;
      while k >= 0
        invariant -1 <= k <= top && |lanes| == MAX_LEVEL
        invariant count == old(count) && level == old(level) && nilEnds == old(nilEnds)
        invariant forall t :: 0 <= t < MAX_LEVEL ==>
                    lanes[t] == if k < t <= top then Link(old(lanes[t]), update[t], key) else old(lanes[t])
      {
        lanes := lanes[k := Link(lanes[k], update[k], key)];
        k := k - 1;
      }
    }

    /** Unlinks key, which the walks stopped in front of, from every lane
        that holds it, from lane 0 up to the first that does not. */
    method Unlink(key: u64, update: seq<nat>)
      requires Valid() && key in lanes[0]
      requires |update| == level + 1 && forall k :: 0 <= k <= level ==> Splits(lanes[k], key, update[k])
      modifies this
      ensures count == old(count) && level == old(level) && nilEnds == old(nilEnds) && |lanes| == MAX_LEVEL
      ensures forall k :: 0 <= k < MAX_LEVEL ==> Descending(lanes[k])
      ensures forall k, x :: 0 <= k < MAX_LEVEL ==> (x in lanes[k] <==> x in old(lanes[k]) && x != key)
      ensures |lanes[0]| == |old(lanes[0])| - 1
      ensures forall k :: level < k < MAX_LEVEL ==> lanes[k] == old(lanes[k])
    {
      var k: nat := 0;
      ghost var before := lanes;
      while k <= level
        invariant level == old(level) && count == old(count) && nilEnds == old(nilEnds)
        invariant k <= level + 1 && |lanes| == MAX_LEVEL && |before| == MAX_LEVEL
        invariant forall t :: 0 <= t < k ==> update[t] < |before[t]| && before[t][update[t]] == key
        invariant forall t :: 0 <= t < MAX_LEVEL ==>
                    lanes[t] == if t < k then Unlinked(before[t], update[t]) else before[t]
      {
        if update[k] == |lanes[k]| || lanes[k][update[k]] != key {
          break;
        }
        lanes := lanes[k := Unlinked(lanes[k], update[k])];
        k := k + 1;
      }
      UnlinkedLanes(before, lanes, level, key, update, k);
    }

    /** `Remove` as it was evidently meant: a key that is absent, and 0,
        which only the `null` node holds, give false and change nothing;
        otherwise the key leaves every lane, the level drops to the
        highest non-empty lane, and the count goes down by one. */
    method Remove(key: u64) returns (removed: bool)
      requires Valid()
      modifies this
      ensures Valid()
      ensures removed <==> key in old(lanes[0])
      ensures forall k, x :: 0 <= k < MAX_LEVEL ==> (x in lanes[k] <==> x in old(lanes[k]) && x != key)
      ensures count == old(count) - (if removed then 1 else 0)
      ensures level <= old(level) && (level == 0 || lanes[level] != [])
      ensures forall k :: level < k < MAX_LEVEL ==> lanes[k] == []
    {
      var q, update := Search(key);
      if q == 0 || q != key {
        return false;
      }
      Unlink(key, update);
      ShrinkLevel();
      count := count - 1;
      removed := true;
      forall k | 0 < k < MAX_LEVEL ensures Stacked(lanes, k) {
        assert Stacked(old(lanes), k);
      }
      forall k, x | 0 <= k < MAX_LEVEL && x in lanes[k] ensures x in lanes[0] {
        assert x in old(lanes[k]);
      }
    }

    /** `Remove` as written: its test `q.key != key` lets key 0 through,
        with q the `null` node.  The walks then stop at the end of every
        lane, whose last link is `null`, and overwrite that link with
        `null`'s own link, which is nil; the count goes down although no
        key was removed.  Other keys behave as in `Remove`. */
    method RemoveAsWritten(key: u64) returns (removed: bool)
      requires Valid()
      modifies this
      ensures key != 0 ==> Valid() && (removed <==> key in old(lanes[0]))
      ensures key != 0 ==> forall k, x :: 0 <= k < MAX_LEVEL ==> (x in lanes[k] <==> x in old(lanes[k]) && x != key)
      ensures key == 0 ==> removed && lanes == old(lanes) && level == old(level) && count == old(count) - 1
      ensures key == 0 ==> nilEnds == Upto(old(level) + 1)
    {
      var q, update := Search(key);
      if q != key {
        return false;
      }
      if q == 0 {
        var k: nat := 0;
        while k <= level
          invariant k <= level + 1 && nilEnds == Upto(k)
          invariant lanes == old(lanes) && level == old(level) && count == old(count)
        {
          nilEnds := nilEnds + {k};
          k := k + 1;
        }
        ShrinkLevel();
        count := count - 1;
        return true;
      }
      removed := Remove(key);
    }

    /** The level shrinking loop of `Remove`: down from `level`, while the
        header's link is `null` and the lane is not the lowest. */
    method ShrinkLevel()
      requires |lanes| == MAX_LEVEL && level < MAX_LEVEL
      modifies this
      ensures lanes == old(lanes) && count == old(count) && nilEnds == old(nilEnds)
      ensures level <= old(level)
      ensures forall k :: level < k <= old(level) ==> lanes[k] == [] && k !in nilEnds
      ensures level == 0 || lanes[level] != [] || level in nilEnds
    {
      var k: nat := level;
      while lanes[k] == [] && k !in nilEnds && k > 0
        invariant k <= level
        invariant forall t :: k < t <= level ==> lanes[t] == [] && t !in nilEnds
      {
        k := k - 1;
      }
      level := k;
    }

    /** `Range`: nothing when offset is not below the count; otherwise the
        keys from position offset on (0 for a negative offset), in list
        order, as many as fit in the buffer or remain. */
    method Range(offset: int, keys: array<u64>) returns (p: nat)
      requires Valid()
      modifies keys
      ensures var start := if offset < 0 then 0 else offset;
              p == (if offset >= count then 0
                    else if keys.Length < count - start then keys.Length else count - start)
      ensures offset < count ==> var start := if offset < 0 then 0 else offset;
                start + p <= |lanes[0]| && keys[..p] == lanes[0][start..start + p]
      ensures keys[p..] == old(keys[p..])
    {
      if offset >= count {
        return 0;
      }
      var n: nat := 0;
      var i: nat := 0;
      while i < offset
        invariant n == i && (offset > 0 ==> i <= offset) && (offset <= 0 ==> i == 0)
        invariant n <= |lanes[0]| && count == |lanes[0]|
      {
        if n == |lanes[0]| {
          break;
        }
        n := n + 1;
        i := i + 1;
      }
      assert n == if offset < 0 then 0 else offset;
      ghost var start := n;
      p := 0;
      i := 0;
      while i < keys.Length
        invariant 0 <= i <= keys.Length && p == i && n == start + p && n <= |lanes[0]| && count == |lanes[0]|
        invariant forall t :: 0 <= t < p ==> keys[t] == lanes[0][start + t]
        invariant forall t :: p <= t < keys.Length ==> keys[t] == old(keys[t])
      {
        if n == |lanes[0]| {
          break;
        }
        keys[p] := lanes[0][n];
        p := p + 1;
        n := n + 1;
        i := i + 1;
      }
      assert keys[..p] == lanes[0][start..start + p];
      assert keys[p..] == old(keys[p..]);
    }
  }

  /** A key on a lane above the one where the unlinking stopped is on that
      lane too, by the tower of lanes. */
  lemma KeyAbove(lanes: seq<seq<u64>>, k: nat, t: nat, key: u64)
    requires k < t < |lanes| && key !in lanes[k]
    requires forall j :: 0 < j < |lanes| ==> Stacked(lanes, j)
    ensures key !in lanes[t]
    decreases t - k
  {
    if t > k + 1 {
      KeyAbove(lanes, k, t - 1, key);
    }
    assert Stacked(lanes, t);
  }

  /** Remove(0) as written on the list holding 5: it reports a removal, the
      count drops to 0 while 5 is still linked, and lane 0 now ends in nil,
      so the next walk past 5 dereferences nil. */
  method RemoveZeroAsWritten() returns (l: List, removed: bool)
    ensures removed && l.count == 0 && |l.lanes| > 0 && l.lanes[0] == [5] && 0 in l.nilEnds
  {
    l := new List();
    l.Init();
    var added := l.Insert(5, 0);
    removed := l.RemoveAsWritten(0);
  }

  /** Remove(0) corrected on the list holding 5: false, and the list is
      as it was. */
  method RemoveZero() returns (l: List, removed: bool)
    ensures !removed && l.Valid() && l.count == 1 && l.lanes[0] == [5]
  {
    l := new List();
    l.Init();
    var added := l.Insert(5, 0);
    removed := l.Remove(0);
  }
}
