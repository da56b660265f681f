/** regular/src/skiplist.rs: an ordered map from keys to values, kept as a
    skip list with L lanes.  Lane k is the chain that `head[k]` and the
    links `next[k]` lead through; lane 0 holds every node, and a node on
    lane k is on every lane below it.  A node is identified by its key,
    which no other node holds, so a lane is modelled as the sequence of
    its keys in ascending order, a link as a position in it, and a node
    pointer as the key it holds. */
module Skiplist {
  import opened Base

  /** Keys in strictly ascending order. */
  ghost predicate Ascending(s: seq<int>)
  {
    forall i, j :: 0 <= i < j < |s| ==> s[i] < s[j]
  }

  /** The number of leading keys below x: where a walk that passes the
      keys below x stops. */
  function Rank(lane: seq<int>, x: int): (r: nat)
    ensures r <= |lane|
    ensures forall i :: 0 <= i < r ==> lane[i] < x
    ensures r < |lane| ==> lane[r] >= x
  {
    if lane == [] || lane[0] >= x then 0 else 1 + Rank(lane[1..], x)
  }

  /** Position u of a lane splits it at x: the keys before u are below x,
      the others are not. */
  ghost predicate Splits(lane: seq<int>, x: int, u: nat)
  {
    u <= |lane| && (forall i :: 0 <= i < u ==> lane[i] < x) && (forall i :: u <= i < |lane| ==> lane[i] >= x)
  }

  lemma RankSplits(lane: seq<int>, x: int)
    requires Ascending(lane)
    ensures Splits(lane, x, Rank(lane, x))
  {
    var r := Rank(lane, x);
    forall i | r <= i < |lane| ensures lane[i] >= x {
      if i > r {
        assert lane[r] < lane[i];
      }
    }
  }

  lemma {:induction false} SplitsRank(lane: seq<int>, x: int, u: nat)
    requires Splits(lane, x, u)
    ensures u == Rank(lane, x)
  {
    if u > 0 {
      assert lane[0] < x;
      SplitsRank(lane[1..], x, u - 1);
    }
  }

  /** The position just past the node holding x: where the link of that
      node leads. */
  function After(lane: seq<int>, x: int): nat
  {
    Rank(lane, x + 1)
  }

  /** The link `next[0]` of the node holding x on lane 0: the next key, or
      None at the end of the lane. */
  function Succ(lane: seq<int>, x: int): (r: Option<int>)
    ensures r.Some? ==> r.value in lane && r.value > x
  {
    var u := After(lane, x);
    if u < |lane| then Some(lane[u]) else None
  }

  /** On an ascending lane that holds x, the position after x is one past
      the node holding x. */
  lemma AfterNode(lane: seq<int>, x: int)
    requires Ascending(lane) && x in lane
    ensures 0 < After(lane, x) && lane[After(lane, x) - 1] == x
  {
    var i :| 0 <= i < |lane| && lane[i] == x;
    RankSplits(lane, x + 1);
    var u := After(lane, x);
    assert i <= u - 1 && lane[u - 1] <= x;
    assert lane[i] <= lane[u - 1];
  }

  /** A lane with key linked in at position u. */
  function Link(lane: seq<int>, u: nat, key: int): seq<int>
    requires u <= |lane|
  {
    lane[..u] + [key] + lane[u..]
  }

  /** A lane with the node at position u unlinked. */
  function Unlinked(lane: seq<int>, u: nat): seq<int>
    requires u < |lane|
  {
    lane[..u] + lane[u + 1..]
  }

  lemma LinkKeeps(lane: seq<int>, u: nat, key: int)
    requires Ascending(lane) && Splits(lane, key, u) && key !in lane
    ensures Ascending(Link(lane, u, key)) && |Link(lane, u, key)| == |lane| + 1
    ensures forall x :: x in Link(lane, u, key) <==> x in lane || x == key
  {
    var r := Link(lane, u, key);
    forall i | 0 <= i < |r| ensures r[i] == (if i < u then lane[i] else if i == u then key else lane[i - 1]) {
    }
    forall x | x in lane ensures x in r {
      var i :| 0 <= i < |lane| && lane[i] == x;
      assert r[if i < u then i else i + 1] == x;
    }
    forall i | u <= i < |lane| ensures lane[i] > key {
      assert lane[i] != key;
    }
  }

  lemma UnlinkKeeps(lane: seq<int>, u: nat, key: int)
    requires Ascending(lane) && u < |lane| && lane[u] == key
    ensures Ascending(Unlinked(lane, u)) && |Unlinked(lane, u)| == |lane| - 1
    ensures forall x :: x in Unlinked(lane, u) <==> x in lane && x != key
  {
    var r := Unlinked(lane, u);
    forall i | 0 <= i < |r| ensures r[i] == (if i < u then lane[i] else lane[i + 1]) {
    }
    forall x | x in lane && x != key ensures x in r {
      var i :| 0 <= i < |lane| && lane[i] == x;
      assert r[if i < u then i else i - 1] == x;
    }
  }

  /** A walk for key that does not stop at a node holding key shows that
      the lane does not hold it. */
  lemma Absent(lane: seq<int>, key: int, u: nat)
    requires Ascending(lane) && Splits(lane, key, u) && (u == |lane| || lane[u] != key)
    ensures key !in lane
  {
    forall i | 0 <= i < |lane| ensures lane[i] != key {
      if i > u {
        assert lane[u] < lane[i];
      }
    }
  }

  /** Unlinking key from the lanes below k, where the lanes from k up no
      longer hold it, drops it from every lane and keeps each ascending. */
  lemma UnlinkLanes(before: seq<seq<int>>, after: seq<seq<int>>, preds: seq<nat>, k: nat, level: nat, key: int)
    requires Shape(before, level, |before|) && |after| == |before| == |preds| && 0 < k <= level + 1
    requires forall t :: 0 <= t < k ==> preds[t] < |before[t]| && before[t][preds[t]] == key
    requires forall t :: 0 <= t < |before| ==> after[t] == if t < k then Unlinked(before[t], preds[t]) else before[t]
    requires k <= level ==> key !in before[k]
    ensures forall t :: 0 <= t < |after| ==> Ascending(after[t]) && Dropped(after[t], before[t], key)
    ensures |after[0]| == |before[0]| - 1
  {
    forall t | 0 <= t < |after|
      ensures Ascending(after[t]) && Dropped(after[t], before[t], key)
    {
      if t < k {
        UnlinkKeeps(before[t], preds[t], key);
      } else if k < t <= level {
        KeyAbove(before, k, t, key);
      }
    }
    UnlinkKeeps(before[0], preds[0], key);
  }

  /** Every key on lane k is on the lane below. */
  ghost predicate Stacked(lanes: seq<seq<int>>, k: nat)
    requires 0 < k < |lanes|
  {
    forall x :: x in lanes[k] ==> x in lanes[k - 1]
  }

  /** The lanes of a skip list of the given height: each lane is
      ascending, a key on a lane is on the lane below and on lane 0, the
      lanes above `level` are empty, and `level` is the highest non-empty
      lane or 0. */
  ghost predicate Shape(lanes: seq<seq<int>>, level: nat, height: nat)
  {
    |lanes| == height && level < height
    && (forall k :: 0 <= k < height ==> Ascending(lanes[k]))
    && (forall k :: 0 < k < height ==> Stacked(lanes, k))
    && (forall k, x :: 0 <= k < height && x in lanes[k] ==> x in lanes[0])
    && (forall k :: level < k < height ==> lanes[k] == [])
    && (level == 0 || lanes[level] != [])
  }

  /** after holds the keys of before, and key when on is set. */
  ghost predicate Joined(after: seq<int>, before: seq<int>, key: int, on: bool)
  {
    forall x :: x in after <==> x in before || (x == key && on)
  }

  /** after holds the keys of before except key. */
  ghost predicate Dropped(after: seq<int>, before: seq<int>, key: int)
  {
    forall x :: x in after <==> x in before && x != key
  }

  /** Linking a new key into lanes 0 to top keeps every lane ascending
      and adds the key to exactly those lanes. */
  lemma LinkLanes(before: seq<seq<int>>, after: seq<seq<int>>, height: nat, key: int, preds: seq<nat>, top: nat)
    requires |before| == height && |after| == height && top < height && key !in before[0]
    requires forall k :: 0 <= k < height ==> Ascending(before[k])
    requires forall k, x :: 0 <= k < height && x in before[k] ==> x in before[0]
    requires |preds| == height && forall t :: 0 <= t <= top ==> Splits(before[t], key, preds[t])
    requires forall t :: 0 <= t <= top ==> preds[t] <= |before[t]|
    requires forall t :: 0 <= t < height ==> after[t] == if t <= top then Link(before[t], preds[t], key) else before[t]
    ensures forall t :: 0 <= t < height ==> Ascending(after[t])
    ensures forall k :: 0 <= k < height ==> Joined(after[k], before[k], key, k <= top)
    ensures |after[0]| == |before[0]| + 1
  {
    forall t | 0 <= t < height
      ensures Ascending(after[t]) && Joined(after[t], before[t], key, t <= top)
    {
      if t <= top {
        assert key !in before[t];
        LinkKeeps(before[t], preds[t], key);
      }
    }
    LinkKeeps(before[0], preds[0], key);
  }

  /** Linking a new key into lanes 0 to top, with the level raised to top
      when top is above it, keeps the shape and adds the key to exactly
      those lanes. */
  lemma LinkShape(before: seq<seq<int>>, level: nat, after: seq<seq<int>>, level': nat, height: nat,
                  key: int, preds: seq<nat>, top: nat)
    requires Shape(before, level, height) && key !in before[0]
    requires level <= level' < height && top <= level' && (level' > level ==> top == level')
    requires |preds| == height && forall t :: 0 <= t <= top ==> Splits(before[t], key, preds[t])
    requires forall t :: 0 <= t <= top ==> preds[t] <= |before[t]|
    requires |after| == height
    requires forall t :: 0 <= t < height ==> after[t] == if t <= top then Link(before[t], preds[t], key) else before[t]
    ensures Shape(after, level', height) && |after[0]| == |before[0]| + 1
    ensures forall k :: 0 <= k < height ==> Joined(after[k], before[k], key, k <= top)
  {
    LinkLanes(before, after, height, key, preds, top);
    JoinedStacked(before, after, key, top);
    LinkLevel(before, level, after, level', key, preds, top);
  }

  /** Adding key up to top leaves the lanes above level' empty and, when
      the level rises to top, lane top non-empty. */
  lemma LinkLevel(before: seq<seq<int>>, level: nat, after: seq<seq<int>>, level': nat, key: int, preds: seq<nat>, top: nat)
    requires |before| == |after| == |preds| && level <= level' < |before| && top <= level' && (level' > level ==> top == level')
    requires forall k :: level < k < |before| ==> before[k] == []
    requires level == 0 || before[level] != []
    requires forall t :: 0 <= t <= top ==> preds[t] <= |before[t]|
    requires forall t :: 0 <= t < |before| ==> after[t] == if t <= top then Link(before[t], preds[t], key) else before[t]
    ensures forall k :: level' < k < |after| ==> after[k] == []
    ensures level' == 0 || after[level'] != []
  {
    if level' <= top {
      assert |after[level']| == |before[level']| + 1;
    }
  }

  /** Adding key to the lanes up to top keeps every lane on the one below
      it and on lane 0. */
  lemma JoinedStacked(before: seq<seq<int>>, after: seq<seq<int>>, key: int, top: nat)
    requires |before| == |after| > 0
    requires forall k :: 0 < k < |before| ==> Stacked(before, k)
    requires forall k, x :: 0 <= k < |before| && x in before[k] ==> x in before[0]
    requires forall k :: 0 <= k < |after| ==> Joined(after[k], before[k], key, k <= top)
    ensures forall k :: 0 < k < |after| ==> Stacked(after, k)
    ensures forall k, x :: 0 <= k < |after| && x in after[k] ==> x in after[0]
  {
    assert Joined(after[0], before[0], key, true);
    forall k | 0 < k < |after| ensures Stacked(after, k) {
      assert Stacked(before, k);
      assert Joined(after[k], before[k], key, k <= top) && Joined(after[k - 1], before[k - 1], key, k - 1 <= top);
    }
    forall k, x | 0 <= k < |after| && x in after[k] ensures x in after[0] {
      assert Joined(after[k], before[k], key, k <= top);
    }
  }

  /** A key on a lane above the one where the unlinking stopped is on that
      lane too, by the tower of lanes. */
  lemma KeyAbove(lanes: seq<seq<int>>, k: nat, t: nat, key: int)
    requires k < t < |lanes| && key !in lanes[k]
    requires forall j :: 0 < j < |lanes| ==> Stacked(lanes, j)
    ensures key !in lanes[t]
    decreases t - k
  {
    if t > k + 1 {
      KeyAbove(lanes, k, t - 1, key);
    }
    assert Stacked(lanes, t);
  }

  /** 2 to the power n. */
  function Pow2(n: nat): (r: nat)
    ensures r >= 1
  {
    if n == 0 then 1 else 2 * Pow2(n - 1)
  }

  lemma {:induction false} Pow2Grows(m: nat, n: nat)
    requires m <= n
    ensures Pow2(m) <= Pow2(n)
    decreases n
  {
    if m < n {
      Pow2Grows(m, n - 1);
    }
  }

  /** `trailing_zeros` over the low n bits of x: the number of low zero
      bits, n when all of them are zero. */
  function Zeros(x: nat, n: nat): (r: nat)
    ensures r <= n && (x == 0 ==> r == n)
  {
    if n == 0 || x % 2 == 1 then 0 else 1 + Zeros(x / 2, n - 1)
  }

  /** A non-zero number below 2^l has fewer than l trailing zeros. */
  lemma {:induction false} ZerosBelow(x: nat, l: nat, n: nat)
    requires 0 < x < Pow2(l) && l <= n
    ensures Zeros(x, n) < l
    decreases n
  {
    if x % 2 == 0 {
      assert l > 1;
      ZerosBelow(x / 2, l - 1, n - 1);
    }
  }

  /** `rand_level` for the draw of `random_u64`: `trailing_zeros` of the
      draw's low l bits, as a 64-bit word.  It is below l, except that a
      draw whose low l bits are all zero gives 64. */
  function RandLevel(l: nat, draw: u64): (r: nat)
    requires 0 < l < 64
    ensures r < l || (r == 64 && draw % Pow2(l) == 0)
  {
    var x := draw % Pow2(l);
    if x != 0 then ZerosBelow(x, l, 64); Zeros(x, 64) else Zeros(x, 64)
  }

  /** The highest lane a new node joins: the level drawn, or when that is
      above the current level, one lane above it; with the correction,
      never above the top lane. */
  function LinkTop(height: nat, level: nat, draw: u64): (top: nat)
    requires 0 < height < 64 && level < height
    ensures top < height && top <= level + 1
  {
    var l := RandLevel(height, draw);
    if l <= level then l else if level + 1 < height then level + 1 else level
  }

  /** The position on lane k - 1 where a walk goes on after stopping at
      position j of lane k: past the last node it passed there, whose
      link on the lane below leads on, or the head. */
  function Down(lanes: seq<seq<int>>, k: nat, j: nat): nat
    requires 0 < k < |lanes| && j <= |lanes[k]|
  {
    if j == 0 then 0 else After(lanes[k - 1], lanes[k][j - 1])
  }

  /** Going down a lane keeps every key passed below bar. */
  lemma StepDown(lanes: seq<seq<int>>, level: nat, height: nat, k: nat, j: nat, bar: int)
    requires Shape(lanes, level, height) && 0 < k < height
    requires j <= |lanes[k]| && forall i :: 0 <= i < j ==> lanes[k][i] < bar
    ensures Down(lanes, k, j) <= |lanes[k - 1]|
    ensures var below := lanes[k - 1]; forall i :: 0 <= i < Down(lanes, k, j) ==> below[i] < bar
  {
    if j > 0 {
      assert Stacked(lanes, k) && lanes[k][j - 1] in lanes[k];
      AfterNode(lanes[k - 1], lanes[k][j - 1]);
    }
  }

  /** The value that `search_node` finds, or the predecessor it stopped
      after: the key of the last node passed, None when it passed none. */
  datatype Seek = Found | Missing(prev: Option<int>)

  /** The range bounds of `std::ops::Bound`. */
  datatype Bound = Included(key: int) | Excluded(key: int) | Unbounded

  /** The pairs of keys and their values, in the order of the keys. */
  function Entries<V>(keys: seq<int>, values: map<int, V>): (r: seq<(int, V)>)
    requires forall x :: x in keys ==> x in values
  {
    seq(|keys|, i requires 0 <= i < |keys| => var k := keys[i]; assert k in keys; (k, values[k]))
  }

  /** Listing one more key of a lane appends its entry. */
  lemma EntriesSnoc<V>(lane: seq<int>, lo: nat, p: nat, values: map<int, V>)
    requires lo <= p < |lane| && forall x :: x in lane ==> x in values
    ensures lane[p] in values
    ensures Entries(lane[lo..p + 1], values) == Entries(lane[lo..p], values) + [(lane[p], values[lane[p]])]
  {
    var k := lane[p];
    assert k in lane;
    assert k in values;
    assert lane[lo..p + 1] == lane[lo..p] + [k];
  }

  /** The node at position p of a lane: None past its end. */
  function At(lane: seq<int>, p: nat): (r: Option<int>)
    ensures r == None <==> p >= |lane|
  {
    if p < |lane| then Some(lane[p]) else None
  }

  /** On an ascending lane the link of the node at position p leads to
      position p + 1. */
  lemma SuccAt(lane: seq<int>, p: nat)
    requires Ascending(lane) && p < |lane|
    ensures Succ(lane, lane[p]) == At(lane, p + 1)
  {
    forall i | p + 1 <= i < |lane| ensures lane[i] >= lane[p] + 1 {
      assert lane[p] < lane[i];
    }
    forall i | 0 <= i < p + 1 ensures lane[i] < lane[p] + 1 {
      if i < p {
        assert lane[i] < lane[p];
      }
    }
    SplitsRank(lane, lane[p] + 1, p + 1);
  }

  /** On an ascending lane two positions name the same node only when
      they are equal. */
  lemma AtSame(lane: seq<int>, p: nat, q: nat)
    requires Ascending(lane) && p <= |lane| && q <= |lane|
    ensures At(lane, p) == At(lane, q) <==> p == q
  {
    if p < |lane| && q < |lane| && p != q {
      assert lane[p] != lane[q];
    }
  }

  /** On an ascending lane, the keys below x are exactly those before
      Rank(lane, x). */
  lemma RankBelow(lane: seq<int>, x: int, i: nat)
    requires Ascending(lane) && i < |lane|
    ensures lane[i] < x <==> i < Rank(lane, x)
  {
    RankSplits(lane, x);
  }

  lemma {:induction false} RankMono(lane: seq<int>, x: int, y: int)
    requires x <= y
    ensures Rank(lane, x) <= Rank(lane, y)
  {
    if lane != [] && lane[0] < x {
      RankMono(lane[1..], x, y);
    }
  }

  /** The keys a pair of range bounds covers. */
  predicate Covers(start: Bound, end: Bound, x: int)
  {
    (match start
       case Included(a) => a <= x
       case Excluded(a) => a < x
       case Unbounded => true)
    && (match end
          case Included(b) => x <= b
          case Excluded(b) => x < b
          case Unbounded => true)
  }

  /** `check_range`: equal bounds pass, an unbounded side passes, and
      bounds on keys pass when the start key is below the end key, or
      equal to it with one side inclusive and the other not.  A range it
      refuses covers no key. */
  function CheckRange(start: Bound, end: Bound): (ok: bool)
    ensures !ok ==> forall x :: !Covers(start, end, x)
  {
    if start == end then true
    else if start.Unbounded? || end.Unbounded? then true
    else if start.key == end.key then start.Excluded? || end.Included?
    else start.key < end.key
  }

  /** `check_range` corrected: a pair of equal exclusive bounds is refused
      as well, as it covers no key and puts the start after the end. */
  function CheckRangeFixed(start: Bound, end: Bound): (ok: bool)
    ensures !ok ==> forall x :: !Covers(start, end, x)
    ensures ok ==> CheckRange(start, end)
  {
    CheckRange(start, end) && !(start.Excluded? && end == start)
  }

  /** The first position on a lane that a start bound covers. */
  function Lo(lane: seq<int>, start: Bound): (r: nat)
    ensures r <= |lane|
  {
    match start
    case Included(a) => Rank(lane, a)
    case Excluded(a) => Rank(lane, a + 1)
    case Unbounded => 0
  }

  /** The position on a lane just past the keys an end bound covers. */
  function Hi(lane: seq<int>, end: Bound): (r: nat)
    ensures r <= |lane|
  {
    match end
    case Included(b) => Rank(lane, b + 1)
    case Excluded(b) => Rank(lane, b)
    case Unbounded => |lane|
  }

  /** On an ascending lane the bounds cover exactly the positions from Lo
      up to Hi. */
  lemma CoversSpan(lane: seq<int>, start: Bound, end: Bound, i: nat)
    requires Ascending(lane) && i < |lane|
    ensures Covers(start, end, lane[i]) <==> Lo(lane, start) <= i < Hi(lane, end)
  {
    match start {
      case Included(a) => RankBelow(lane, a, i);
      case Excluded(a) => RankBelow(lane, a + 1, i);
      case Unbounded =>
    }
    match end {
      case Included(b) => RankBelow(lane, b + 1, i);
      case Excluded(b) => RankBelow(lane, b, i);
      case Unbounded =>
    }
  }

  /** Bounds the corrected check lets through never put the start after
      the end. */
  lemma SpanOrdered(lane: seq<int>, start: Bound, end: Bound)
    requires CheckRangeFixed(start, end)
    ensures Lo(lane, start) <= Hi(lane, end)
  {
    match start {
      case Unbounded =>
      case Included(a) =>
        match end {
          case Included(b) => RankMono(lane, a, b + 1);
          case Excluded(b) => RankMono(lane, a, b);
          case Unbounded =>
        }
      case Excluded(a) =>
        match end {
          case Included(b) => RankMono(lane, a + 1, b + 1);
          case Excluded(b) => RankMono(lane, a + 1, b);
          case Unbounded =>
        }
    }
  }

  /** The keys of a lane within the bounds, in order: what iterating a
      `range` yields. */
  function Span(lane: seq<int>, start: Bound, end: Bound): seq<int>
  {
    if CheckRangeFixed(start, end) then
      SpanOrdered(lane, start, end);
      lane[Lo(lane, start)..Hi(lane, end)]
    else []
  }

  /** Span holds, in ascending order, exactly the keys of the lane that
      the bounds cover. */
  lemma SpanKeys(lane: seq<int>, start: Bound, end: Bound)
    requires Ascending(lane)
    ensures Ascending(Span(lane, start, end))
    ensures forall x :: x in Span(lane, start, end) <==> x in lane && Covers(start, end, x)
  {
    if CheckRangeFixed(start, end) {
      SpanOrdered(lane, start, end);
      var lo, hi := Lo(lane, start), Hi(lane, end);
      SliceCovers(lane, start, end, lo, hi);
      SliceCovered(lane, start, end, lo, hi);
    }
  }

  /** Every key between Lo and Hi is covered by the bounds. */
  lemma SliceCovers(lane: seq<int>, start: Bound, end: Bound, lo: nat, hi: nat)
    requires Ascending(lane) && lo == Lo(lane, start) && hi == Hi(lane, end) && lo <= hi
    ensures forall x :: x in lane[lo..hi] ==> x in lane && Covers(start, end, x)
  {
    forall x | x in lane[lo..hi] ensures x in lane && Covers(start, end, x) {
      var i :| 0 <= i < hi - lo && lane[lo..hi][i] == x;
      CoversSpan(lane, start, end, lo + i);
    }
  }

  /** Every key of the lane the bounds cover lies between Lo and Hi. */
  lemma SliceCovered(lane: seq<int>, start: Bound, end: Bound, lo: nat, hi: nat)
    requires Ascending(lane) && lo == Lo(lane, start) && hi == Hi(lane, end) && lo <= hi
    ensures forall x :: x in lane && Covers(start, end, x) ==> x in lane[lo..hi]
  {
    forall x | x in lane && Covers(start, end, x) ensures x in lane[lo..hi] {
      var i :| 0 <= i < |lane| && lane[i] == x;
      CoversSpan(lane, start, end, i);
      assert lane[lo..hi][i - lo] == x;
    }
  }

  /** Where a bound of `range_bound_ptr` leads: `search_node` for key,
      then, when past is set or no node holds key, one step on from the
      node found or the last node passed.  When the search passed no node
      there is nothing to step from: as written the result is then None
      (position |lane|); with fromHead the step starts from `head[0]`. */
  function Seeked(lane: seq<int>, key: int, past: bool, fromHead: bool): (r: nat)
    ensures r <= |lane|
  {
    var u := Rank(lane, key);
    if key in lane then (if past then u + 1 else u)
    else if u == 0 && !fromHead then |lane| else u
  }

  /** The position the start of `range_bound_ptr` leads to. */
  function StartAt(lane: seq<int>, start: Bound, fromHead: bool): (r: nat)
    ensures r <= |lane|
  {
    match start
    case Included(a) => Seeked(lane, a, false, fromHead)
    case Excluded(a) => Seeked(lane, a, true, fromHead)
    case Unbounded => 0
  }

  /** The position the end of `range_bound_ptr` leads to: the iteration
      stops on reaching it. */
  function EndAt(lane: seq<int>, end: Bound, fromHead: bool): (r: nat)
    ensures r <= |lane|
  {
    match end
    case Included(b) => Seeked(lane, b, true, fromHead)
    case Excluded(b) => Seeked(lane, b, false, fromHead)
    case Unbounded => |lane|
  }

  /** Stepping from the head when the search passes no node makes the
      bounds lead to Lo and Hi. */
  lemma SeekedFixed(lane: seq<int>, start: Bound, end: Bound)
    requires Ascending(lane)
    ensures StartAt(lane, start, true) == Lo(lane, start)
    ensures EndAt(lane, end, true) == Hi(lane, end)
  {
    if !start.Unbounded? {
      SeekPast(lane, start.key);
    }
    if !end.Unbounded? {
      SeekPast(lane, end.key);
    }
  }

  lemma SeekPast(lane: seq<int>, key: int)
    requires Ascending(lane)
    ensures Seeked(lane, key, false, true) == Rank(lane, key)
    ensures Seeked(lane, key, true, true) == Rank(lane, key + 1)
  {
    var u := Rank(lane, key);
    RankSplits(lane, key);
    if key in lane {
      assert u < |lane| && lane[u] == key;
      forall j | u + 1 <= j < |lane| ensures lane[j] >= key + 1 {
        assert lane[u] < lane[j];
      }
      SplitsRank(lane, key + 1, u + 1);
    } else {
      forall j | u <= j < |lane| ensures lane[j] >= key + 1 {
        assert lane[j] != key;
      }
      SplitsRank(lane, key + 1, u);
    }
  }

  /** The keys iterating `range` as written yields: none when the check
      refuses the bounds; otherwise from the start position until the end
      position is met, to the end of lane 0 when the end lies before the
      start. */
  function SpanAsWritten(lane: seq<int>, start: Bound, end: Bound): (r: seq<int>)
    ensures !CheckRange(start, end) ==> r == []
    ensures |r| <= |lane| && forall i :: 0 <= i < |r| ==> r[i] in lane
    ensures Ascending(lane) ==> Ascending(r)
  {
    if !CheckRange(start, end) then []
    else
      var lo, hi := StartAt(lane, start, false), EndAt(lane, end, false);
      if lo <= hi then lane[lo..hi] else lane[lo..]
  }

  /** On an ascending lane that holds key, the walk for key stops at the
      node holding it. */
  lemma RankAt(lane: seq<int>, key: int)
    requires Ascending(lane) && key in lane
    ensures Rank(lane, key) < |lane| && lane[Rank(lane, key)] == key
  {
    RankSplits(lane, key);
  }

  /** The position `search_preds` leaves on a lane for an end bound of
      `drain_range`: the last node to drain is the one before it, and an
      unbounded end leaves every entry None (position 0). */
  function EndPred(lane: seq<int>, end: Bound): (r: nat)
    ensures r <= |lane|
  {
    match end
    case Included(b) => Rank(lane, b + 1)
    case Excluded(b) => Rank(lane, b)
    case Unbounded => 0
  }

  /** The relinking of one lane by `drain_range` as written, with the
      start predecessor at s and the end predecessor at e (0 for none):
      the end predecessor's link is taken, then the start predecessor's
      link, or the head, is set to what it led to.  With no end
      predecessor the lane is cut after s; with the end predecessor
      before the start one, after e. */
  function Cut(lane: seq<int>, s: nat, e: nat): (r: seq<int>)
    requires s <= |lane| && e <= |lane|
    ensures |r| <= |lane| && forall i :: 0 <= i < |r| ==> r[i] in lane
    ensures forall i :: 0 <= i < s && (e == 0 || i < e) ==> i < |r| && r[i] == lane[i]
    ensures Ascending(lane) ==> Ascending(r)
  {
    if e == 0 then lane[..s]
    else if s <= e then lane[..s] + lane[e..]
    else lane[..e]
  }

  /** Every lane relinked by `drain_range` as written. */
  function CutAll(lanes: seq<seq<int>>, start: Bound, end: Bound): (r: seq<seq<int>>)
    ensures |r| == |lanes|
  {
    seq(|lanes|, k requires 0 <= k < |lanes| => Cut(lanes[k], Lo(lanes[k], start), EndPred(lanes[k], end)))
  }

  /** The lanes `drain_range` as written leaves: unchanged when the check
      refuses the bounds; lane 0 emptied when neither a start nor an end
      node was found (it calls `drain`); otherwise every lane relinked. */
  function LanesAsWritten(lanes: seq<seq<int>>, start: Bound, end: Bound): (r: seq<seq<int>>)
    requires |lanes| > 0
    ensures |r| == |lanes|
  {
    if !CheckRange(start, end) then lanes
    else if DrainFrom(lanes[0], start) == |lanes[0]| && DrainTo(lanes[0], end) == |lanes[0]| then lanes[0 := []]
    else CutAll(lanes, start, end)
  }

  /** A lane with the positions from s up to e taken out. */
  function Excised(lane: seq<int>, s: nat, e: nat): seq<int>
    requires s <= e <= |lane|
  {
    lane[..s] + lane[e..]
  }

  /** The position of the node `drain_range` as written starts draining
      from, |lane| for none: none for an unbounded start, and none when
      the search found no node for the start key and passed none. */
  function DrainFrom(lane: seq<int>, start: Bound): (r: nat)
    ensures r <= |lane|
  {
    if start.Unbounded? then |lane|
    else
      var s := Lo(lane, start);
      if start.Included? && start.key in lane then s
      else if s == 0 then |lane| else s
  }

  /** The position of the end node of `drain_range` as written, |lane|
      for none. */
  function DrainTo(lane: seq<int>, end: Bound): (r: nat)
    ensures r <= |lane|
  {
    if end.Unbounded? then |lane|
    else
      var e := EndPred(lane, end);
      if end.Excluded? && end.key in lane then e
      else if e == 0 then |lane| else e
  }

  /** The keys the iterator of `drain_range` as written yields: every key
      when neither a start nor an end node was found (it drains the whole
      list); otherwise from the start node along the relinked lane 0,
      which ends at the end node only when the end predecessor lies
      ahead of the start node. */
  function DrainedAsWritten(lane: seq<int>, start: Bound, end: Bound): (r: seq<int>)
    ensures !CheckRange(start, end) ==> r == []
    ensures |r| <= |lane| && forall i :: 0 <= i < |r| ==> r[i] in lane
    ensures Ascending(lane) ==> Ascending(r)
  {
    if !CheckRange(start, end) then []
    else
      var f, t := DrainFrom(lane, start), DrainTo(lane, end);
      if f == |lane| && t == |lane| then lane
      else if f < t then lane[f..t] else lane[f..]
  }

  /** Position i of a lane with the positions from lo up to hi taken
      out. */
  lemma ExcisedAt(lane: seq<int>, lo: nat, hi: nat, i: nat)
    requires lo <= hi <= |lane| && i < |lane| - (hi - lo)
    ensures |Excised(lane, lo, hi)| == |lane| - (hi - lo)
    ensures Excised(lane, lo, hi)[i] == lane[if i < lo then i else i + (hi - lo)]
  {
  }

  /** Taking positions out of an ascending lane keeps it ascending. */
  lemma ExcisedAscending(lane: seq<int>, lo: nat, hi: nat)
    requires Ascending(lane) && lo <= hi <= |lane|
    ensures Ascending(Excised(lane, lo, hi))
  {
    var r := Excised(lane, lo, hi);
    forall i | 0 <= i < |r| ensures r[i] == lane[if i < lo then i else i + (hi - lo)] {
      ExcisedAt(lane, lo, hi, i);
    }
  }

  /** Taking out the span of the bounds keeps a lane ascending and
      removes exactly the keys they cover. */
  lemma ExcisedKeys(lane: seq<int>, start: Bound, end: Bound)
    requires Ascending(lane) && CheckRangeFixed(start, end)
    ensures Ascending(ExcisedLane(lane, start, end)) && Uncovered(ExcisedLane(lane, start, end), lane, start, end)
  {
    var lo, hi := Lo(lane, start), Hi(lane, end);
    SpanOrdered(lane, start, end);
    ExcisedAscending(lane, lo, hi);
    var r := Excised(lane, lo, hi);
    forall x | x in lane && !Covers(start, end, x) ensures x in r {
      var i :| 0 <= i < |lane| && lane[i] == x;
      CoversSpan(lane, start, end, i);
      var j := if i < lo then i else i - (hi - lo);
      ExcisedAt(lane, lo, hi, j);
      assert r[j] == x;
    }
    forall x | x in r ensures x in lane && !Covers(start, end, x) {
      var i :| 0 <= i < |r| && r[i] == x;
      ExcisedAt(lane, lo, hi, i);
      var j := if i < lo then i else i + (hi - lo);
      assert lane[j] == x;
      CoversSpan(lane, start, end, j);
    }
  }

  /** after holds the keys of before that the bounds do not cover. */
  ghost predicate Uncovered(after: seq<int>, before: seq<int>, start: Bound, end: Bound)
  {
    forall x :: x in after <==> x in before && !Covers(start, end, x)
  }

  /** A lane with the span of the bounds taken out. */
  function ExcisedLane(lane: seq<int>, start: Bound, end: Bound): seq<int>
    requires CheckRangeFixed(start, end)
  {
    SpanOrdered(lane, start, end);
    Excised(lane, Lo(lane, start), Hi(lane, end))
  }

  /** The lanes with the span of the bounds taken out of each, and the
      level lowered to the highest lane left non-empty, have the shape of
      a skip list again. */
  lemma ExcisedShape(before: seq<seq<int>>, level: nat, after: seq<seq<int>>, level': nat, height: nat,
                     start: Bound, end: Bound)
    requires Shape(before, level, height) && CheckRangeFixed(start, end) && |after| == height
    requires forall k :: 0 <= k < height ==> after[k] == ExcisedLane(before[k], start, end)
    requires level' <= level && (forall k :: level' < k <= level ==> after[k] == []) && (level' == 0 || after[level'] != [])
    ensures Shape(after, level', height)
    ensures forall k :: 0 <= k < height ==> Uncovered(after[k], before[k], start, end)
  {
    forall k | 0 <= k < height
      ensures Ascending(after[k]) && Uncovered(after[k], before[k], start, end)
    {
      ExcisedKeys(before[k], start, end);
    }
    assert Uncovered(after[0], before[0], start, end);
    forall k | 0 < k < height ensures Stacked(after, k) {
      assert Stacked(before, k);
      assert Uncovered(after[k], before[k], start, end) && Uncovered(after[k - 1], before[k - 1], start, end);
    }
    forall k, x | 0 <= k < height && x in after[k] ensures x in after[0] {
      assert Uncovered(after[k], before[k], start, end);
    }
  }

  /** With a single lane every even draw makes `rand_level` return 64,
      above the level 0 an empty list already has on its top lane: the
      first insert as written then panics (InsertAsWritten). */
  lemma OneLanePanics(draw: u64)
    requires draw % 2 == 0
    ensures RandLevel(1, draw) == 64
  {
    assert Pow2(1) == 2;
  }

  /** `drain` as written, on a list whose level is above 0, leaves lanes
      that are not those of a skip list: lane 0 is empty while a higher
      lane is not.  Inserting into an empty list with two lanes and the
      draw 2 puts the key on lane 1. */
  lemma DrainLeavesLanes(lanes: seq<seq<int>>, level: nat, height: nat)
    requires Shape(lanes, level, height) && level > 0
    ensures !Shape(lanes[0 := []], 0, height)
    ensures LinkTop(2, 0, 2) == 1
  {
    assert lanes[0 := []][level] == lanes[level];
    assert Pow2(2) == 4;
  }

  /** `range` as written on the lane [1, 2, 3], against Span: a start
      below every key yields nothing, and an end below every key yields
      everything. */
  lemma RangeAsWrittenMisses()
    ensures SpanAsWritten([1, 2, 3], Included(0), Unbounded) == []
    ensures Span([1, 2, 3], Included(0), Unbounded) == [1, 2, 3]
    ensures SpanAsWritten([1, 2, 3], Unbounded, Excluded(0)) == [1, 2, 3]
    ensures Span([1, 2, 3], Unbounded, Excluded(0)) == []
  {
    var lane := [1, 2, 3];
    assert Rank(lane, 0) == 0;
    assert lane[0..] == lane;
  }

  /** `range` as written on the lane [1, 2, 3] with a pair of equal
      exclusive bounds, which cover no key: it yields the keys after the
      bound. */
  lemma RangeEqualExcluded()
    ensures SpanAsWritten([1, 2, 3], Excluded(2), Excluded(2)) == [3]
    ensures Span([1, 2, 3], Excluded(2), Excluded(2)) == []
  {
    var lane := [1, 2, 3];
    assert Rank(lane, 2) == 1 && Rank(lane, 3) == 2 by {
      assert lane[1..] == [2, 3] && lane[1..][1..] == [3];
    }
  }

  /** `drain_range` as written on [1, 2, 3] with the bounds (unbounded,
      excluded 2): nothing is drained, yet 1 is unlinked. */
  lemma DrainRangeDropsFirst()
    ensures DrainedAsWritten([1, 2, 3], Unbounded, Excluded(2)) == []
    ensures CutAll([[1, 2, 3]], Unbounded, Excluded(2)) == [[2, 3]]
  {
    var lane := [1, 2, 3];
    assert Rank(lane, 2) == 1 by {
      assert lane[1..] == [2, 3];
    }
    assert Cut(lane, 0, 1) == [2, 3];
  }

  /** `drain_range` as written on [1, 2, 3] with the bounds (excluded 2,
      excluded 2): 3 is drained, and 2 is unlinked without being
      drained. */
  lemma DrainRangeDropsBound()
    ensures DrainedAsWritten([1, 2, 3], Excluded(2), Excluded(2)) == [3]
    ensures CutAll([[1, 2, 3]], Excluded(2), Excluded(2)) == [[1]]
  {
    var lane := [1, 2, 3];
    assert Rank(lane, 2) == 1 && Rank(lane, 3) == 2 by {
      assert lane[1..] == [2, 3] && lane[1..][1..] == [3];
    }
    assert Cut(lane, 2, 1) == [1];
  }

  /** `drain_range` as written on [1, 2, 3] with the bounds (included 5,
      unbounded), which cover no key: every key is drained. */
  lemma DrainRangeTakesAll()
    ensures DrainedAsWritten([1, 2, 3], Included(5), Unbounded) == [1, 2, 3]
    ensures Span([1, 2, 3], Included(5), Unbounded) == []
  {
    var lane := [1, 2, 3];
    assert Rank(lane, 5) == 3 by {
      assert lane[1..] == [2, 3] && lane[1..][1..] == [3] && lane[1..][1..][1..] == [];
    }
  }

  /** `drain_range` as written on [1, 6] with the bounds (included 4,
      excluded 5): 6 is drained, and freed, while it stays linked. */
  lemma DrainRangeKeepsDrained()
    ensures DrainedAsWritten([1, 6], Included(4), Excluded(5)) == [6]
    ensures CutAll([[1, 6]], Included(4), Excluded(5)) == [[1, 6]]
  {
    var lane := [1, 6];
    assert Rank(lane, 4) == 1 && Rank(lane, 5) == 1 by {
      assert lane[1..] == [6];
    }
    assert Cut(lane, 1, 1) == [1, 6];
  }

  class Skiplist<V> {
    /** The const parameter `L`: the number of lanes. */
    const height: nat
    /** lanes[k]: the keys along `head[k]` and the links `next[k]`. */
    var lanes: seq<seq<int>>
    /** The value held by the node of each key. */
    var values: map<int, V>
    var level: nat

    /** The state `new` sets up and every operation keeps: the lanes have
        their shape and the values belong to the keys of lane 0. */
    ghost predicate Valid()
      reads this
    {
      0 < height < 64 && Shape(lanes, level, height)
      && forall x :: x in values <==> x in lanes[0]
    }

    /** `new`: every head link empty and level 0. */
    constructor (l: nat)
      requires 0 < l < 64
      ensures Valid() && height == l && lanes == seq(l, _ => []) && values == map[] && level == 0
    {
      height := l;
      lanes := seq(l, _ => []);
      values := map[];
      level := 0;
    }

    /** The walk of the searches along lane k from position j: past every
        key below bar. */
    method WalkLane(k: nat, j: nat, bar: int) returns (u: nat)
      requires Valid() && k < height && j <= |lanes[k]| && forall i :: 0 <= i < j ==> lanes[k][i] < bar
      ensures Splits(lanes[k], bar, u) && u == Rank(lanes[k], bar)
    {
      u := j;
      while u < |lanes[k]| && lanes[k][u] < bar
        invariant u <= |lanes[k]| && forall i :: 0 <= i < u ==> lanes[k][i] < bar
      {
        u := u + 1;
      }
      RankSplits(lanes[k], bar);
      SplitsRank(lanes[k], bar, u);
    }

    /** `search_node`: from the top lane down, walk past the keys below
        key; meeting key ends the search.  Otherwise the result is the key
        of the last node passed, None when no node was passed. */
    method SearchNode(key: int) returns (r: Seek)
      requires Valid()
      ensures r == Found <==> key in lanes[0]
      ensures r.Missing? ==> var u := Rank(lanes[0], key);
                (r.prev == None <==> u == 0) && (u > 0 ==> r.prev == Some(lanes[0][u - 1]))
    {
      var k: nat := level;
      var j: nat := 0;
      while true
        invariant k <= level && j <= |lanes[k]| && forall i :: 0 <= i < j ==> lanes[k][i] < key
        decreases k
      {
        j := WalkLane(k, j, key);
        if j < |lanes[k]| && lanes[k][j] == key {
          assert lanes[k][j] in lanes[k];
          return Found;
        }
        if k == 0 {
          break;
        }
        StepDown(lanes, level, height, k, j, key);
        j := Down(lanes, k, j);
        k := k - 1;
      }
      Absent(lanes[0], key, j);
      r := Missing(if j == 0 then None else Some(lanes[0][j - 1]));
    }

    /** `search_preds`: the same walk, passing also a node holding key
        when exclude is set.  preds[k] is the position on lane k where the
        walk stopped, 0 for the head; the entries above `level` stay 0.
        The result says whether a node holding key was met, which
        happens only without exclude. */
    method SearchPreds(key: int, exclude: bool) returns (found: bool, preds: seq<nat>)
      requires Valid()
      ensures |preds| == height
      ensures forall k :: 0 <= k <= level ==> Splits(lanes[k], if exclude then key + 1 else key, preds[k])
      ensures forall k :: level < k < height ==> preds[k] == 0
      ensures found <==> !exclude && key in lanes[0]
    {
      var bar := if exclude then key + 1 else key;
      preds := seq(height, _ => 0);
      found := false;
      var k: nat := level;
      var j: nat := 0;
      while true
        invariant k <= level && |preds| == height
        invariant j <= |lanes[k]| && forall i :: 0 <= i < j ==> lanes[k][i] < bar
        invariant forall t :: k < t <= level ==> Splits(lanes[t], bar, preds[t])
        invariant forall t :: level < t < height ==> preds[t] == 0
        invariant found ==> !exclude && key in lanes[0]
        decreases k
      {
        j := WalkLane(k, j, bar);
        if !exclude && j < |lanes[k]| && lanes[k][j] == key {
          assert lanes[k][j] in lanes[k];
          found := true;
        }
        preds := preds[k := j];
        if k == 0 {
          break;
        }
        StepDown(lanes, level, height, k, j, bar);
        j := Down(lanes, k, j);
        k := k - 1;
      }
      if !exclude && key in lanes[0] {
        var i :| 0 <= i < |lanes[0]| && lanes[0][i] == key;
        assert i == j;
      }
    }

    /** `get`: the value of key, None when no node holds it. */
    method Get(key: int) returns (r: Option<V>)
      requires Valid()
      ensures r == if key in values then Some(values[key]) else None
    {
      var s := SearchNode(key);
      if s == Found {
        r := Some(values[key]);
      } else {
        r := None;
      }
    }

    /** `get_mut` followed by a write of v through the reference it
        returns: the value of key is replaced when a node holds it. */
    method GetMut(key: int, v: V) returns (found: bool)
      requires Valid()
      modifies this`values
      ensures Valid() && found == (key in old(values))
      ensures values == if found then old(values)[key := v] else old(values)
    {
      var s := SearchNode(key);
      found := s == Found;
      if found {
        values := values[key := v];
      }
    }

    /** The linking loop of `link_node`: the new node goes in at the
        position `preds` gives on each lane from 0 up to top. */
    method LinkUpTo(key: int, preds: seq<nat>, top: nat)
      requires |lanes| == height && top < height && |preds| == height
      requires forall t :: 0 <= t <= top ==> preds[t] <= |lanes[t]|
      modifies this`lanes
      ensures |lanes| == height
      ensures forall t :: 0 <= t < height ==>
                lanes[t] == if t <= top then Link(old(lanes[t]), preds[t], key) else old(lanes[t])
    {
      var k: nat := 0;
      while k <= top
        invariant k <= top + 1 && |lanes| == height
        invariant forall t :: 0 <= t < height ==>
                    lanes[t] == if t < k then Link(old(lanes[t]), preds[t], key) else old(lanes[t])
      {
        lanes := lanes[k := Link(lanes[k], preds[k], key)];
        k := k + 1;
      }
    }

    /** `link_node` for the node holding key and value, with the level
        drawn from `draw`.  A level above the current one is lowered to one
        lane above it, and `preds` gets a head entry there.  As written,
        when the level is already the top lane this indexes `preds` past
        its end, a panic (false): the level has already been raised to L,
        one past the top lane, and no lane or value has changed; with clamp
        the new node stays on the top lane instead. */
    method LinkNode(key: int, value: V, preds: seq<nat>, draw: u64, clamp: bool) returns (ok: bool)
      requires Valid() && key !in lanes[0] && |preds| == height
      requires forall k :: 0 <= k <= level ==> Splits(lanes[k], key, preds[k])
      requires forall k :: level < k < height ==> preds[k] == 0
      modifies this`lanes, this`level, this`values
      ensures ok <==> clamp || RandLevel(height, draw) <= old(level) || old(level) + 1 < height
      ensures !ok ==> lanes == old(lanes) && level == old(level) + 1 == height && values == old(values)
      ensures ok ==> Valid() && values == old(values)[key := value]
      ensures ok ==> old(level) <= level && LinkTop(height, old(level), draw) <= level
      ensures ok && level > old(level) ==> level == LinkTop(height, old(level), draw)
      ensures ok ==> forall k :: 0 <= k < height ==>
                Joined(lanes[k], old(lanes[k]), key, k <= LinkTop(height, old(level), draw))
    {
      var p, top, before := preds, level, lanes;
      var newLevel := RandLevel(height, draw);
      var reached := top;
      if newLevel > top {
        if top + 1 >= height {
          if !clamp {
            level := top + 1;
            return false;
          }
          newLevel := top;
        } else {
          newLevel := top + 1;
          reached := newLevel;
          p := p[newLevel := 0];
        }
      }
      assert newLevel == LinkTop(height, top, draw);
      assert forall t :: 0 <= t <= newLevel ==> Splits(before[t], key, p[t]);
      Place(key, value, p, newLevel, reached);
      ok := true;
    }

    /** Links a new node for key on the lanes up to top, where p holds the
        position on each of them that the new node takes, and sets the
        level to reached. */
    method Place(key: int, value: V, p: seq<nat>, top: nat, reached: nat)
      requires Valid() && key !in lanes[0] && |p| == height
      requires level <= reached < height && top <= reached && (reached > level ==> top == reached)
      requires forall t :: 0 <= t <= top ==> Splits(lanes[t], key, p[t])
      modifies this`lanes, this`level, this`values
      ensures Valid() && level == reached && values == old(values)[key := value]
      ensures forall k :: 0 <= k < height ==> Joined(lanes[k], old(lanes[k]), key, k <= top)
    {
      var before := lanes;
      LinkUpTo(key, p, top);
      LinkShape(before, level, lanes, reached, height, key, p, top);
      level := reached;
      values := values[key := value];
    }

    /** `insert` with the level correction: a key already present gets the
        new value, its old value is returned and the lanes are unchanged;
        otherwise a node is linked in and the result is None. */
    method Insert(key: int, value: V, draw: u64) returns (r: Option<V>)
      requires Valid()
      modifies this`lanes, this`level, this`values
      ensures Valid() && values == old(values)[key := value]
      ensures r == if key in old(values) then Some(old(values)[key]) else None
      ensures key in old(values) ==> lanes == old(lanes) && level == old(level)
      ensures key !in old(values) ==> forall k :: 0 <= k < height ==>
                Joined(lanes[k], old(lanes[k]), key, k <= LinkTop(height, old(level), draw))
    {
      var found, preds := SearchPreds(key, false);
      if found {
        r := Some(values[key]);
        values := values[key := value];
      } else {
        var ok := LinkNode(key, value, preds, draw, true);
        r := None;
      }
    }

    /** `insert` as written: as Insert, except that a new key whose drawn
        level lies above the current level while that is already the top
        lane makes `link_node` index past the end of `preds`, a panic, with
        the level already raised past the top lane and nothing linked. */
    method InsertAsWritten(key: int, value: V, draw: u64) returns (panicked: bool, r: Option<V>)
      requires Valid()
      modifies this`lanes, this`level, this`values
      ensures panicked <==> key !in old(values) && old(level) + 1 == height && RandLevel(height, draw) > old(level)
      ensures !panicked ==> Valid() && values == old(values)[key := value]
      ensures !panicked ==> r == if key in old(values) then Some(old(values)[key]) else None
      ensures key in old(values) ==> lanes == old(lanes) && level == old(level)
      ensures !panicked && key !in old(values) ==> forall k :: 0 <= k < height ==>
                Joined(lanes[k], old(lanes[k]), key, k <= LinkTop(height, old(level), draw))
      ensures panicked ==> lanes == old(lanes) && level == height && values == old(values)
    {
      var found, preds := SearchPreds(key, false);
      if found {
        r := Some(values[key]);
        values := values[key := value];
        panicked := false;
      } else {
        var ok := LinkNode(key, value, preds, draw, false);
        panicked := !ok;
        r := None;
      }
    }

    /** The unlinking loop of `remove_node`: from lane 0 up, while the
        link at preds leads to the node holding key, it is set to that
        node's own link. */
    method Unlink(key: int, preds: seq<nat>)
      requires Valid() && key in lanes[0] && |preds| == height
      requires forall k :: 0 <= k <= level ==> Splits(lanes[k], key, preds[k])
      modifies this`lanes
      ensures |lanes| == height
      ensures forall k :: 0 <= k < height ==> Ascending(lanes[k])
      ensures forall k :: 0 <= k < height ==> Dropped(lanes[k], old(lanes[k]), key)
      ensures |lanes[0]| == |old(lanes[0])| - 1
      ensures forall k :: level < k < height ==> lanes[k] == old(lanes[k])
    {
      var k: nat := 0;
      var top, before := level, lanes;
      var ls := lanes;
      while k <= top
        invariant k <= top + 1 && |ls| == |before|
        invariant forall t :: 0 <= t < k ==> preds[t] < |before[t]| && before[t][preds[t]] == key
        invariant forall t :: 0 <= t < |before| ==>
                    ls[t] == if t < k then Unlinked(before[t], preds[t]) else before[t]
      {
        if preds[k] == |ls[k]| || ls[k][preds[k]] != key {
          break;
        }
        ls := ls[k := Unlinked(ls[k], preds[k])];
        k := k + 1;
      }
      if k <= top {
        Absent(before[k], key, preds[k]);
      }
      assert k > 0;
      UnlinkLanes(before, ls, preds, k, top, key);
      lanes := ls;
    }

    /** `shrink_level`: down from `level`, while the lane is empty and not
        the lowest. */
    method ShrinkLevel()
      requires |lanes| == height && level < height
      modifies this`level
      ensures level <= old(level)
      ensures forall k :: level < k <= old(level) ==> lanes[k] == []
      ensures level == 0 || lanes[level] != []
    {
      var k: nat := level;
      while k > 0 && lanes[k] == []
        invariant k <= level
        invariant forall t :: k < t <= level ==> lanes[t] == []
      {
        k := k - 1;
      }
      level := k;
    }

    /** `remove_node`: unlinks the node holding key and lowers the level
        to the highest non-empty lane. */
    method RemoveNode(key: int, preds: seq<nat>)
      requires Valid() && key in lanes[0] && |preds| == height
      requires forall k :: 0 <= k <= level ==> Splits(lanes[k], key, preds[k])
      modifies this`lanes, this`level
      ensures Shape(lanes, level, height) && level <= old(level)
      ensures forall k :: 0 <= k < height ==> Dropped(lanes[k], old(lanes[k]), key)
      ensures |lanes[0]| == |old(lanes[0])| - 1
    {
      Unlink(key, preds);
      ShrinkLevel();
      assert Dropped(lanes[0], old(lanes[0]), key);
      forall k | 0 < k < height ensures Stacked(lanes, k) {
        assert Stacked(old(lanes), k);
        assert Dropped(lanes[k], old(lanes[k]), key) && Dropped(lanes[k - 1], old(lanes[k - 1]), key);
      }
      forall k, x | 0 <= k < height && x in lanes[k] ensures x in lanes[0] {
        assert Dropped(lanes[k], old(lanes[k]), key);
      }
    }

    /** `remove`: the value of key, removed with its node; None and no
        change when no node holds key. */
    method Remove(key: int) returns (r: Option<V>)
      requires Valid()
      modifies this`lanes, this`level, this`values
      ensures Valid()
      ensures r == if key in old(values) then Some(old(values)[key]) else None
      ensures values == old(values) - {key}
      ensures forall k :: 0 <= k < height ==> Dropped(lanes[k], old(lanes[k]), key)
      ensures level <= old(level)
    {
      var found, preds := SearchPreds(key, false);
      if !found {
        return None;
      }
      r := Some(values[key]);
      RemoveNode(key, preds);
      values := values - {key};
    }

    /** Iterating a `RangePtr` to its end: `next_ptr` yields the node at
        the cursor and moves the cursor along `next[0]`, until it reaches
        the end node or runs off lane 0.  The nodes from and to are those
        at positions lo and hi of lane 0; the walk stops at hi only when
        hi is not behind lo. */
    method Walk(from: Option<int>, to: Option<int>, ghost lo: nat, ghost hi: nat) returns (entries: seq<(int, V)>)
      requires Valid() && lo <= |lanes[0]| && hi <= |lanes[0]|
      requires from == At(lanes[0], lo) && to == At(lanes[0], hi)
      ensures entries == Entries(if lo <= hi then lanes[0][lo..hi] else lanes[0][lo..], values)
    {
      var lane, vals := lanes[0], values;
      var cur := from;
      ghost var p := lo;
      entries := [];
      while cur != to && cur.Some?
        invariant lo <= p <= |lane| && cur == At(lane, p)
        invariant lo <= hi ==> p <= hi
        invariant entries == Entries(lane[lo..p], vals)
        decreases |lane| - p
      {
        EntriesSnoc(lane, lo, p, vals);
        entries := entries + [(cur.value, vals[cur.value])];
        SuccAt(lane, p);
        cur := Succ(lane, cur.value);
        p := p + 1;
      }
      AtSame(lane, p, hi);
    }

    /** A bound of `range_bound_ptr`: `search_node` for key, then, when
        past is set or no node holds key, one step along `next[0]` from
        the node found or the last node passed.  When the search passed no
        node the result is None as written, and the first node, from
        `head[0]`, with fromHead. */
    method SeekBound(key: int, past: bool, fromHead: bool) returns (p: Option<int>)
      requires Valid()
      ensures p == At(lanes[0], Seeked(lanes[0], key, past, fromHead))
    {
      var s := SearchNode(key);
      if s == Found {
        RankAt(lanes[0], key);
        p := Some(key);
        if past {
          SuccAt(lanes[0], Rank(lanes[0], key));
          p := Succ(lanes[0], key);
        }
      } else if s.prev.Some? {
        SuccAt(lanes[0], Rank(lanes[0], key) - 1);
        p := Succ(lanes[0], s.prev.value);
      } else if fromHead {
        p := At(lanes[0], 0);
      } else {
        p := None;
      }
    }

    /** The start node of `range_bound_ptr`: `head[0]` when unbounded. */
    method RangeStart(start: Bound, fromHead: bool) returns (p: Option<int>)
      requires Valid()
      ensures p == At(lanes[0], StartAt(lanes[0], start, fromHead))
    {
      match start {
        case Included(a) => p := SeekBound(a, false, fromHead);
        case Excluded(a) => p := SeekBound(a, true, fromHead);
        case Unbounded => p := At(lanes[0], 0);
      }
    }

    /** The end node of `range_bound_ptr`: None when unbounded. */
    method RangeEnd(end: Bound, fromHead: bool) returns (p: Option<int>)
      requires Valid()
      ensures p == At(lanes[0], EndAt(lanes[0], end, fromHead))
    {
      match end {
        case Included(b) => p := SeekBound(b, true, fromHead);
        case Excluded(b) => p := SeekBound(b, false, fromHead);
        case Unbounded => p := None;
      }
    }

    /** `range` (and `range_mut`) iterated to the end, with the corrected
        check and a search that passes no node stepping from `head[0]`:
        the entries of exactly the keys the bounds cover, in ascending
        order (SpanKeys). */
    method Range(start: Bound, end: Bound) returns (entries: seq<(int, V)>)
      requires Valid()
      ensures entries == Entries(Span(lanes[0], start, end), values)
    {
      if !CheckRangeFixed(start, end) {
        return [];
      }
      var from := RangeStart(start, true);
      var to := RangeEnd(end, true);
      SeekedFixed(lanes[0], start, end);
      SpanOrdered(lanes[0], start, end);
      entries := Walk(from, to, Lo(lanes[0], start), Hi(lanes[0], end));
    }

    /** `range` as written, iterated to the end. */
    method RangeAsWritten(start: Bound, end: Bound) returns (entries: seq<(int, V)>)
      requires Valid()
      ensures entries == Entries(SpanAsWritten(lanes[0], start, end), values)
    {
      if !CheckRange(start, end) {
        return [];
      }
      var from := RangeStart(start, false);
      var to := RangeEnd(end, false);
      entries := Walk(from, to, StartAt(lanes[0], start, false), EndAt(lanes[0], end, false));
    }

    /** `drain` as written, with its iterator run to the end: only
        `head[0]` is taken and the level drops to 0; every node is yielded
        and freed, but the higher head links still lead to them. */
    method DrainAsWritten() returns (entries: seq<(int, V)>)
      requires Valid()
      modifies this`lanes, this`level, this`values
      ensures entries == Entries(old(lanes[0]), old(values))
      ensures lanes == old(lanes)[0 := []] && level == 0 && values == map[]
    {
      assert lanes[0][0..|lanes[0]|] == lanes[0];
      entries := Walk(At(lanes[0], 0), None, 0, |lanes[0]|);
      lanes := lanes[0 := []];
      level := 0;
      values := map[];
    }

    /** `drain` corrected: every head link is taken, leaving an empty
        list; the entries come out in ascending key order. */
    method Drain() returns (entries: seq<(int, V)>)
      requires Valid()
      modifies this`lanes, this`level, this`values
      ensures Valid() && forall k :: 0 <= k < height ==> lanes[k] == []
      ensures entries == Entries(old(lanes[0]), old(values))
      ensures Ascending(old(lanes[0])) && forall x :: x in old(values) <==> x in old(lanes[0])
    {
      assert lanes[0][0..|lanes[0]|] == lanes[0];
      entries := Walk(At(lanes[0], 0), None, 0, |lanes[0]|);
      lanes := seq(height, _ => []);
      level := 0;
      values := map[];
    }

    /** The start predecessors of `drain_range`: `search_preds` for the
        start key, passing a node holding it when the bound is exclusive;
        all None when unbounded.  The result says whether a node holding
        an inclusive start key was found. */
    method StartPreds(start: Bound) returns (found: bool, sp: seq<nat>)
      requires Valid()
      ensures |sp| == height && forall k :: 0 <= k < height ==> sp[k] == Lo(lanes[k], start)
      ensures found <==> start.Included? && start.key in lanes[0]
    {
      if start.Unbounded? {
        return false, seq(height, _ => 0);
      }
      var bar := if start.Excluded? then start.key + 1 else start.key;
      found, sp := SearchPreds(start.key, start.Excluded?);
      forall k | 0 <= k < height ensures sp[k] == Lo(lanes[k], start) {
        if k <= level {
          SplitsRank(lanes[k], bar, sp[k]);
        }
      }
    }

    /** The end predecessors of `drain_range`: `search_preds` for the end
        key, passing a node holding it when the bound is inclusive; all
        None when unbounded.  The result says whether a node holding an
        exclusive end key was found. */
    method EndPreds(end: Bound) returns (found: bool, ep: seq<nat>)
      requires Valid()
      ensures |ep| == height && forall k :: 0 <= k < height ==> ep[k] == EndPred(lanes[k], end)
      ensures found <==> end.Excluded? && end.key in lanes[0]
    {
      if end.Unbounded? {
        return false, seq(height, _ => 0);
      }
      var bar := if end.Included? then end.key + 1 else end.key;
      found, ep := SearchPreds(end.key, end.Included?);
      forall k | 0 <= k < height ensures ep[k] == EndPred(lanes[k], end) {
        if k <= level {
          SplitsRank(lanes[k], bar, ep[k]);
        }
      }
    }

    /** The relinking loop of `drain_range` as written, on lanes 0 to
        `level` (the lanes above are empty and stay so), followed by
        `shrink_level`. */
    method CutLanes(start: Bound, end: Bound, sp: seq<nat>, ep: seq<nat>)
      requires |lanes| == height && level < height && |sp| == height && |ep| == height
      requires forall k :: level < k < height ==> lanes[k] == []
      requires forall k :: 0 <= k < height ==> sp[k] == Lo(lanes[k], start) && ep[k] == EndPred(lanes[k], end)
      modifies this`lanes, this`level
      ensures lanes == CutAll(old(lanes), start, end)
      ensures level <= old(level) && (level == 0 || lanes[level] != [])
    {
      var k: nat := 0;
      while k <= level
        invariant level == old(level) && k <= level + 1 && |lanes| == height
        invariant forall t :: 0 <= t < height ==> lanes[t] == if t < k then CutAll(old(lanes), start, end)[t] else old(lanes[t])
      {
        lanes := lanes[k := Cut(lanes[k], sp[k], ep[k])];
        k := k + 1;
      }
      ShrinkLevel();
    }

    /** The relinking loop of `drain_range` corrected: on each lane up
        to `level` the link of the start predecessor, or the head, is set
        to the node after the end predecessor, or to None for an
        unbounded end. */
    method ExciseLanes(start: Bound, end: Bound, sp: seq<nat>, ep: seq<nat>)
      requires |lanes| == height && level < height && CheckRangeFixed(start, end) && |sp| == height && |ep| == height
      requires forall k :: level < k < height ==> lanes[k] == []
      requires forall k :: 0 <= k < height ==> sp[k] == Lo(lanes[k], start) && ep[k] == EndPred(lanes[k], end)
      modifies this`lanes
      ensures |lanes| == height
      ensures forall t :: 0 <= t < height ==> lanes[t] == ExcisedLane(old(lanes[t]), start, end)
    {
      var k: nat := 0;
      while k <= level
        invariant k <= level + 1 && |lanes| == height
        invariant forall t :: 0 <= t < height ==> lanes[t] == if t < k then ExcisedLane(old(lanes[t]), start, end) else old(lanes[t])
      {
        SpanOrdered(lanes[k], start, end);
        var hi := if end.Unbounded? then |lanes[k]| else ep[k];
        ghost var want := ExcisedLane(lanes[k], start, end);
        lanes := lanes[k := Excised(lanes[k], sp[k], hi)];
        assert lanes[k] == want;
        k := k + 1;
      }
      forall t | level < t < height ensures lanes[t] == ExcisedLane(old(lanes[t]), start, end) {
        assert old(lanes[t]) == [];
      }
    }

    /** The corrected relinking followed by `shrink_level`: what is left
        is a skip list without the keys the bounds cover. */
    method TakeSpan(start: Bound, end: Bound, sp: seq<nat>, ep: seq<nat>)
      requires Shape(lanes, level, height) && CheckRangeFixed(start, end) && |sp| == height && |ep| == height
      requires forall k :: 0 <= k < height ==> sp[k] == Lo(lanes[k], start) && ep[k] == EndPred(lanes[k], end)
      modifies this`lanes, this`level
      ensures Shape(lanes, level, height) && level <= old(level)
      ensures forall k :: 0 <= k < height ==> Uncovered(lanes[k], old(lanes[k]), start, end)
      ensures forall x :: x in lanes[0] <==> x in old(lanes[0]) && !Covers(start, end, x)
    {
      ExciseLanes(start, end, sp, ep);
      ShrinkLevel();
      ExcisedShape(old(lanes), old(level), lanes, level, height, start, end);
      assert Uncovered(lanes[0], old(lanes[0]), start, end);
    }

    /** The start and end of `drain_range` as written: the predecessors
        `search_preds` leaves for each bound, and the nodes they lead to.
        A start node is the node found for an inclusive key, else the
        node after the start predecessor on lane 0, and None when there is
        no start predecessor; likewise the end node, found for an
        exclusive key. */
    method DrainBounds(start: Bound, end: Bound) returns (sp: seq<nat>, ep: seq<nat>, from: Option<int>, to: Option<int>)
      requires Valid()
      ensures |sp| == height && forall k :: 0 <= k < height ==> sp[k] == Lo(lanes[k], start)
      ensures |ep| == height && forall k :: 0 <= k < height ==> ep[k] == EndPred(lanes[k], end)
      ensures from == At(lanes[0], DrainFrom(lanes[0], start)) && to == At(lanes[0], DrainTo(lanes[0], end))
    {
      var sfound, efound;
      sfound, sp := StartPreds(start);
      efound, ep := EndPreds(end);
      if sfound {
        RankAt(lanes[0], start.key);
      }
      if efound {
        RankAt(lanes[0], end.key);
      }
      from := if start.Unbounded? then None else if sfound then Some(start.key) else if sp[0] == 0 then None else At(lanes[0], sp[0]);
      to := if end.Unbounded? then None else if efound then Some(end.key) else if ep[0] == 0 then None else At(lanes[0], ep[0]);
    }

    /** The `Drain` iterator that `drain_range` as written returns, run to
        the end, from the node at position f of lane 0 with the end node
        at position t.  It follows `next[0]` over the relinked lane 0; the
        only link the relinking changes ahead of the start node is the one
        taken from the end predecessor, so it stops at the end node when
        that lies ahead of the start node; otherwise that link lies behind
        it and it runs to the end of lane 0. */
    method DrainWalk(from: Option<int>, to: Option<int>, ghost f: nat, ghost t: nat) returns (entries: seq<(int, V)>)
      requires Valid() && f <= |lanes[0]| && t <= |lanes[0]|
      requires from == At(lanes[0], f) && to == At(lanes[0], t)
      ensures entries == Entries(if f < t then lanes[0][f..t] else lanes[0][f..], values)
    {
      AtSame(lanes[0], f, t);
      if from == to {
        assert lanes[0][f..|lanes[0]|] == lanes[0][f..];
        entries := Walk(from, None, f, |lanes[0]|);
      } else {
        entries := Walk(from, to, f, t);
      }
    }

    /** `drain_range` as written, with its iterator run to the end.  The
        state it leaves need not be a skip list, and the entries need not
        be those of the keys it unlinks: see DrainRangeDropsFirst,
        DrainRangeDropsBound, DrainRangeTakesAll and
        DrainRangeKeepsDrained. */
    method DrainRangeAsWritten(start: Bound, end: Bound) returns (entries: seq<(int, V)>)
      requires Valid()
      modifies this`lanes, this`level, this`values
      ensures entries == Entries(DrainedAsWritten(old(lanes[0]), start, end), old(values))
      ensures lanes == LanesAsWritten(old(lanes), start, end)
      ensures forall x :: x in values <==> x in old(values) && x in lanes[0]
      ensures forall x :: x in values ==> values[x] == old(values)[x]
      ensures level <= old(level) && (level == 0 || lanes[level] != [])
    {
      if !CheckRange(start, end) {
        return [];
      }
      entries := DrainCheckedAsWritten(start, end);
    }

    /** `drain_range` as written once `check_range` has passed. */
    method DrainCheckedAsWritten(start: Bound, end: Bound) returns (entries: seq<(int, V)>)
      requires Valid() && CheckRange(start, end)
      modifies this`lanes, this`level, this`values
      ensures entries == Entries(DrainedAsWritten(old(lanes[0]), start, end), old(values))
      ensures lanes == LanesAsWritten(old(lanes), start, end)
      ensures forall x :: x in values <==> x in old(values) && x in lanes[0]
      ensures forall x :: x in values ==> values[x] == old(values)[x]
      ensures level <= old(level) && (level == 0 || lanes[level] != [])
    {
      var sp, ep, from, to := DrainBounds(start, end);
      if from == None && to == None {
        entries := DrainAsWritten();
        return;
      }
      entries := DrainWalk(from, to, DrainFrom(lanes[0], start), DrainTo(lanes[0], end));
      CutAsWritten(start, end, sp, ep);
    }

    /** The relinking half of `drain_range` as written, once a start or an
        end node was found: every lane is cut and the values of the keys no
        longer in lane 0 are dropped. */
    method CutAsWritten(start: Bound, end: Bound, sp: seq<nat>, ep: seq<nat>)
      requires Valid()
      requires |sp| == height && forall k :: 0 <= k < height ==> sp[k] == Lo(lanes[k], start)
      requires |ep| == height && forall k :: 0 <= k < height ==> ep[k] == EndPred(lanes[k], end)
      modifies this`lanes, this`level, this`values
      ensures lanes == CutAll(old(lanes), start, end)
      ensures forall x :: x in values <==> x in old(values) && x in lanes[0]
      ensures forall x :: x in values ==> values[x] == old(values)[x]
      ensures level <= old(level) && (level == 0 || lanes[level] != [])
    {
      CutLanes(start, end, sp, ep);
      values := map x | x in values && x in lanes[0] :: values[x];
    }

    /** `drain_range` corrected, with its iterator run to the end: the
        entries of exactly the keys the bounds cover, in ascending order
        (SpanKeys), are taken out of every lane, and what is left is a
        skip list. */
    method DrainRange(start: Bound, end: Bound) returns (entries: seq<(int, V)>)
      requires Valid()
      modifies this`lanes, this`level, this`values
      ensures Valid() && level <= old(level)
      ensures entries == Entries(Span(old(lanes[0]), start, end), old(values))
      ensures forall k :: 0 <= k < height ==> Uncovered(lanes[k], old(lanes[k]), start, end)
      ensures forall x :: x in values <==> x in old(values) && !Covers(start, end, x)
      ensures forall x :: x in values ==> values[x] == old(values)[x]
    {
      if !CheckRangeFixed(start, end) {
        return [];
      }
      var _, sp := StartPreds(start);
      var _, ep := EndPreds(end);
      SpanOrdered(lanes[0], start, end);
      var to := if end.Unbounded? then None else At(lanes[0], ep[0]);
      entries := Walk(At(lanes[0], sp[0]), to, sp[0], Hi(lanes[0], end));
      TakeSpan(start, end, sp, ep);
      values := map x | x in values && !Covers(start, end, x) :: values[x];
    }
  }
}
