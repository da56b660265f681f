/** A small log-structured merge tree over the in-memory file system: an
    in-memory table c0 of at most four bindings (a binding of None is a
    tombstone), and a disk component of blocks of at most four sorted
    entries, listed by id in a metadata file.  The process-wide file system
    is an explicit `FsImpl` object that every component holds. */
module Lsm {
  import opened Base
  import opened MemFs
  import opened IoUtil

  const MAX_MEM_KV_NUM: nat := 4
  const MAX_BLOCK_KV_NUM: nat := 4

  type Entry = (seq<byte>, seq<byte>)
  type MemEntry = (seq<byte>, Option<seq<byte>>)

  // ---------------------------------------------------------------------------
  // File names.

  /** "/lsm/" */
  const ROOT_DIR: seq<byte> := [47, 108, 115, 109, 47]
  /** ".blk" */
  const BLK_SUFFIX: seq<byte> := [46, 98, 108, 107]
  /** "/lsm/metadata" */
  const METADATA: seq<byte> := ROOT_DIR + [109, 101, 116, 97, 100, 97, 116, 97]

  /** The file of block id: "/lsm/<id>.blk". */
  function BlockName(id: nat): seq<byte>
  {
    ROOT_DIR + Decimal(id) + BLK_SUFFIX
  }

  /** Distinct ids name distinct files, and no block is the metadata file. */
  lemma {:induction false} BlockNameInjective(a: nat, b: nat)
    ensures BlockName(a) == BlockName(b) ==> a == b
    ensures BlockName(a) != METADATA
  {
    var da, db := Decimal(a), Decimal(b);
    if BlockName(a) == BlockName(b) {
      assert |da| == |db|;
      assert BlockName(a)[5..5 + |da|] == da;
      assert BlockName(b)[5..5 + |db|] == db;
      DecimalValue(a);
      DecimalValue(b);
    }
    assert BlockName(a)[5] == da[0];
    assert IsDigit(da[0]);
  }

  // ---------------------------------------------------------------------------
  // Block codec.

  /** A string that writes and reads back unchanged: UTF-8 (as every Rust
      `String` is) and shorter than 2^32 bytes. */
  predicate Storable(s: seq<byte>)
  {
    |s| < U32_LIMIT && ValidUtf8(s)
  }

  predicate StorableEntries(es: seq<Entry>)
  {
    forall i :: 0 <= i < |es| ==> Storable(es[i].0) && Storable(es[i].1)
  }

  function EncodeEntry(e: Entry): seq<byte>
  {
    EncodeStr(e.0) + EncodeStr(e.1)
  }

  /** `Block::write_into`'s buffer: each key then its value, `write_str`-encoded. */
  function EncodeBlock(es: seq<Entry>): (r: seq<byte>)
    ensures |r| >= 8 * |es|
    ensures r == [] <==> es == []
  {
    if es == [] then [] else EncodeEntry(es[0]) + EncodeBlock(es[1..])
  }

  lemma {:induction false} EncodeBlockSnoc(es: seq<Entry>, e: Entry)
    ensures EncodeBlock(es + [e]) == EncodeBlock(es) + EncodeEntry(e)
  {
    if es == [] {
      assert [e][1..] == [];
    } else {
      assert (es + [e])[1..] == es[1..] + [e];
      EncodeBlockSnoc(es[1..], e);
    }
  }

  lemma {:induction false} ReadStringAtMoves(data: seq<byte>, p: nat)
    ensures ReadStringAt(data, p).1 <= |data|
    ensures ReadStringAt(data, p).0.Ok? ==> ReadStringAt(data, p).1 >= Min(p, |data|) + 4
  {
  }

  /** `Block::load`'s loop: key/value pairs until a key read reports "EOF";
      any other error, and any error reading a value, fails the load. */
  function LoadEntries(data: seq<byte>, p: nat): (r: Result<seq<Entry>, string>)
    ensures p >= |data| ==> r == Ok([])
    ensures r.Ok? ==> StorableEntries(r.value)
    decreases |data| - Min(p, |data|)
  {
    ReadStringAtMoves(data, p);
    var (key, p1) := ReadStringAt(data, p);
    if key.Err? then
      if key.error == "EOF" then Ok([]) else Err(key.error)
    else
      ReadStringAtMoves(data, p1);
      var (val, p2) := ReadStringAt(data, p1);
      if val.Err? then Err(val.error)
      else match LoadEntries(data, p2)
        case Err(e) => Err(e)
        case Ok(rest) => Ok([(key.value, val.value)] + rest)
  }

  /** What `Block::load` makes of a file: "no such file" when it is absent. */
  function LoadBlock(m: map<seq<byte>, seq<byte>>, name: seq<byte>): Result<seq<Entry>, string>
  {
    if name in m then LoadEntries(m[name], 0) else Err("no such file")
  }

  /** Writing a block and loading it gives back the same entries in order;
      the end of the file ends the loop cleanly. */
  lemma {:induction false} BlockRoundTrip(pre: seq<byte>, es: seq<Entry>)
    requires StorableEntries(es)
    ensures LoadEntries(pre + EncodeBlock(es), |pre|) == Ok(es)
    decreases |es|
  {
    if es == [] {
      BlockRoundTripEmpty(pre);
    } else {
      StorableTail(es);
      var pre' := pre + EncodeStr(es[0].0) + EncodeStr(es[0].1);
      BlockRoundTrip(pre', es[1..]);
      BlockRoundTripStep(pre, es, pre');
    }
  }

  lemma {:induction false} BlockRoundTripEmpty(pre: seq<byte>)
    ensures LoadEntries(pre + EncodeBlock([]), |pre|) == Ok([])
  {
    assert pre + EncodeBlock([]) == pre;
    ReadStringAtEnd(pre, |pre|);
  }

  /** One entry of the round trip, given the rest. */
  lemma {:induction false} BlockRoundTripStep(pre: seq<byte>, es: seq<Entry>, pre': seq<byte>)
    requires es != [] && Storable(es[0].0) && Storable(es[0].1)
    requires pre' == pre + EncodeStr(es[0].0) + EncodeStr(es[0].1)
    requires LoadEntries(pre' + EncodeBlock(es[1..]), |pre'|) == Ok(es[1..])
    ensures LoadEntries(pre + EncodeBlock(es), |pre|) == Ok(es)
  {
    var data := pre + EncodeBlock(es);
    SplitEntry(pre, es, pre', data);
    EntryLoads(pre, es[0], EncodeBlock(es[1..]), pre', data, es[1..]);
    HeadTail(es);
  }

  /** Loading at a written entry gives the entry, then whatever loads after it. */
  lemma {:induction false} EntryLoads(pre: seq<byte>, e: Entry, rest: seq<byte>, pre': seq<byte>,
                   data: seq<byte>, tail: seq<Entry>)
    requires Storable(e.0) && Storable(e.1)
    requires pre' == pre + EncodeStr(e.0) + EncodeStr(e.1)
    requires data == pre + (EncodeStr(e.0) + EncodeStr(e.1) + rest)
    requires LoadEntries(data, |pre'|) == Ok(tail)
    ensures LoadEntries(data, |pre|) == Ok([e] + tail)
  {
    var a, b := EncodeStr(e.0), EncodeStr(e.1);
    ConcatAssoc(pre, a, b, rest);
    StringIn(data, pre, e.0, b + rest, |pre|);
    StringIn(data, pre + a, e.1, rest, |pre| + 4 + |e.0|);
    LoadEntriesCons(data, |pre|, e.0, e.1, |pre| + 4 + |e.0|, |pre'|, tail);
    assert (e.0, e.1) == e;
  }

  lemma {:induction false} SplitEntry(pre: seq<byte>, es: seq<Entry>, pre': seq<byte>, data: seq<byte>)
    requires es != []
    requires pre' == pre + EncodeStr(es[0].0) + EncodeStr(es[0].1)
    requires data == pre + EncodeBlock(es)
    ensures data == pre' + EncodeBlock(es[1..])
    ensures data == pre + (EncodeStr(es[0].0) + EncodeStr(es[0].1) + EncodeBlock(es[1..]))
  {
    EncodeBlockCons(es);
    ConcatAssoc(pre, EncodeStr(es[0].0), EncodeStr(es[0].1), EncodeBlock(es[1..]));
  }

  lemma {:induction false} StorableTail(es: seq<Entry>)
    requires StorableEntries(es) && es != []
    ensures Storable(es[0].0) && Storable(es[0].1) && StorableEntries(es[1..])
  {
    forall i | 0 <= i < |es| - 1 ensures Storable(es[1..][i].0) && Storable(es[1..][i].1) {
      assert es[1..][i] == es[i + 1];
    }
  }

  lemma {:induction false} EncodeBlockCons(es: seq<Entry>)
    requires es != []
    ensures EncodeBlock(es) == EncodeStr(es[0].0) + EncodeStr(es[0].1) + EncodeBlock(es[1..])
  {
  }

  /** One more entry encoded after the first i. */
  lemma EncodeBlockStep(es: seq<Entry>, i: nat, d: seq<byte>)
    requires i < |es| && d == EncodeBlock(es[..i])
    ensures d + EncodeStr(es[i].0) + EncodeStr(es[i].1) == EncodeBlock(es[..i + 1])
  {
    var e := es[i];
    assert es[..i + 1] == es[..i] + [e];
    EncodeBlockSnoc(es[..i], e);
    assert EncodeEntry(e) == EncodeStr(e.0) + EncodeStr(e.1);
    ConcatAssoc3(d, EncodeStr(e.0), EncodeStr(e.1));
  }

  /** A written string reads back from the data it sits in. */
  lemma StringIn(data: seq<byte>, pre: seq<byte>, s: seq<byte>, post: seq<byte>, p: nat)
    requires Storable(s) && data == pre + EncodeStr(s) + post && p == |pre|
    ensures ReadStringAt(data, p) == (Ok(s), p + 4 + |s|)
  {
    ReadStringAtEncode(pre, s, post);
  }

  lemma {:induction false} LoadEntriesCons(data: seq<byte>, p: nat, k: seq<byte>, v: seq<byte>, p1: nat, p2: nat,
                         tail: seq<Entry>)
    requires ReadStringAt(data, p).0 == Ok(k) && ReadStringAt(data, p).1 == p1
    requires ReadStringAt(data, p1).0 == Ok(v) && ReadStringAt(data, p1).1 == p2
    requires LoadEntries(data, p2) == Ok(tail)
    ensures LoadEntries(data, p) == Ok([(k, v)] + tail)
  {
  }

  // ---------------------------------------------------------------------------
  // Metadata codec.

  /** `store_block_ids`'s buffer: each id as eight little-endian bytes. */
  function EncodeIds(ids: seq<u64>): seq<byte>
  {
    if ids == [] then [] else EncodeU64(ids[0]) + EncodeIds(ids[1..])
  }

  lemma {:induction false} EncodeIdsSnoc(ids: seq<u64>, id: u64)
    ensures EncodeIds(ids + [id]) == EncodeIds(ids) + EncodeU64(id)
  {
    if ids == [] {
      assert [id][1..] == [];
    } else {
      assert (ids + [id])[1..] == ids[1..] + [id];
      EncodeIdsSnoc(ids[1..], id);
    }
  }

  /** `Block::load_first_key`. */
  function FirstKey(m: map<seq<byte>, seq<byte>>, name: seq<byte>): Result<seq<byte>, string>
  {
    if name in m then ReadStringAt(m[name], 0).0 else Err("no such file")
  }

  /** `load_block_ids`'s loop from cursor p: ids until "EOF", and for every id
      but the very first the first key of its block.  `started` says whether
      an id was already read. */
  function LoadMeta(data: seq<byte>, p: nat, m: map<seq<byte>, seq<byte>>, started: bool)
    : (r: Result<(seq<u64>, seq<seq<byte>>), string>)
    ensures p >= |data| ==> r == Ok(([], []))
    decreases |data| - Min(p, |data|)
  {
    var (id, p1) := ReadU64At(data, p);
    if id.Err? then
      if id.error == "EOF" then Ok(([], [])) else Err(id.error)
    else
      var key := if started then FirstKey(m, BlockName(id.value)) else Ok([]);
      if key.Err? then Err(key.error)
      else match LoadMeta(data, p1, m, true)
        case Err(e) => Err(e)
        case Ok(loaded) =>
          Ok(([id.value] + loaded.0, (if started then [key.value] else []) + loaded.1))
  }

  /** Every block after the first has a readable first key. */
  ghost predicate KeysReadable(m: map<seq<byte>, seq<byte>>, ids: seq<u64>, started: bool)
  {
    forall i :: 0 <= i < |ids| && (started || i > 0) ==> FirstKey(m, BlockName(ids[i])).Ok?
  }

  /** Storing ids and loading them gives back the same ids in order, with one
      index per id after the first (the loader's convention). */
  lemma {:induction false} MetaRoundTrip(pre: seq<byte>, ids: seq<u64>, m: map<seq<byte>, seq<byte>>, started: bool)
    ensures var r := LoadMeta(pre + EncodeIds(ids), |pre|, m, started);
            (r.Ok? <==> KeysReadable(m, ids, started))
            && (r.Ok? ==> r.value.0 == ids && |r.value.1| == (if started then |ids| else if ids == [] then 0 else |ids| - 1))
    decreases |ids|
  {
    var data := pre + EncodeIds(ids);
    if ids == [] {
      assert data == pre;
    } else {
      assert data == pre + EncodeU64(ids[0]) + EncodeIds(ids[1..]);
      ReadU64AtEncode(pre, ids[0], EncodeIds(ids[1..]));
      MetaRoundTrip(pre + EncodeU64(ids[0]), ids[1..], m, true);
      assert [ids[0]] + ids[1..] == ids;
      if KeysReadable(m, ids, started) {
        assert KeysReadable(m, ids[1..], true) by {
          forall i | 0 <= i < |ids| - 1 ensures FirstKey(m, BlockName(ids[1..][i])).Ok? {
            assert ids[1..][i] == ids[i + 1];
          }
        }
      } else {
        var i :| 0 <= i < |ids| && (started || i > 0) && !FirstKey(m, BlockName(ids[i])).Ok?;
        if i > 0 {
          assert ids[1..][i - 1] == ids[i];
        }
      }
      if KeysReadable(m, ids[1..], true) && (started ==> FirstKey(m, BlockName(ids[0])).Ok?) {
        forall i | 0 <= i < |ids| && (started || i > 0) ensures FirstKey(m, BlockName(ids[i])).Ok? {
          if i > 0 {
            assert ids[1..][i - 1] == ids[i];
          }
        }
      }
    }
  }

  /** `DiskComponent::load`'s next id: one past the largest id, or 0. */
  function NextIdAfter(ids: seq<u64>): (r: nat)
    ensures forall i :: 0 <= i < |ids| ==> ids[i] < r
    ensures ids == [] ==> r == 0
    ensures ids != [] ==> exists i :: 0 <= i < |ids| && r == ids[i] as int + 1
  {
    if ids == [] then 0
    else
      var rest := NextIdAfter(ids[1..]);
      assert forall i :: 1 <= i < |ids| ==> ids[i] == ids[1..][i - 1];
      if ids[0] as int + 1 >= rest then ids[0] as int + 1
      else
        var j :| 0 <= j < |ids| - 1 && rest == ids[1..][j] as int + 1;
        assert ids[j + 1] == ids[1..][j];
        rest
  }

  // ---------------------------------------------------------------------------
  // Binary search (`binary_search_by` on byte-string keys).

  datatype SearchResult = Found(at: nat) | NotFound(insertAt: nat)

  /** The search over keys[lo..hi]: probe the middle, go left on a greater
      key, right on a smaller one. */
  function BinarySearch(keys: seq<seq<byte>>, key: seq<byte>, lo: nat, hi: nat): (r: SearchResult)
    requires lo <= hi <= |keys|
    ensures r.Found? ==> lo <= r.at < hi && keys[r.at] == key
    ensures r.NotFound? ==> lo <= r.insertAt <= hi
    decreases hi - lo
  {
    if lo >= hi then NotFound(lo)
    else
      var mid := lo + (hi - lo) / 2;
      if LexLess(keys[mid], key) then BinarySearch(keys, key, mid + 1, hi)
      else if keys[mid] == key then Found(mid)
      else BinarySearch(keys, key, lo, mid)
  }

  /** Every key before position at is smaller than key, every key from at on
      is greater. */
  ghost predicate SplitsAt(keys: seq<seq<byte>>, key: seq<byte>, at: nat)
  {
    && (forall i :: 0 <= i < at && i < |keys| ==> LexLess(keys[i], key))
    && (forall i :: at <= i < |keys| ==> LexLess(key, keys[i]))
  }

  /** On strictly sorted keys the search finds key exactly when it is there,
      and otherwise reports the position that keeps the keys sorted. */
  lemma {:induction false} BinarySearchCorrect(keys: seq<seq<byte>>, key: seq<byte>, lo: nat, hi: nat)
    requires lo <= hi <= |keys| && StrictlySorted(keys)
    requires forall i :: 0 <= i < lo ==> LexLess(keys[i], key)
    requires forall i :: hi <= i < |keys| ==> LexLess(key, keys[i])
    ensures BinarySearch(keys, key, lo, hi).NotFound? ==> SplitsAt(keys, key, BinarySearch(keys, key, lo, hi).insertAt)
    decreases hi - lo, 1
  {
    if lo < hi {
      var mid := lo + (hi - lo) / 2;
      if LexLess(keys[mid], key) {
        SearchRight(keys, key, lo, hi, mid);
      } else if keys[mid] != key {
        SearchLeft(keys, key, lo, hi, mid);
      }
    }
  }

  /** The probe was smaller: the search goes on right of it. */
  lemma {:induction false} SearchRight(keys: seq<seq<byte>>, key: seq<byte>, lo: nat, hi: nat, mid: nat)
    requires lo < hi <= |keys| && StrictlySorted(keys) && mid == lo + (hi - lo) / 2
    requires LexLess(keys[mid], key)
    requires forall i :: 0 <= i < lo ==> LexLess(keys[i], key)
    requires forall i :: hi <= i < |keys| ==> LexLess(key, keys[i])
    ensures BinarySearch(keys, key, lo, hi).NotFound? ==> SplitsAt(keys, key, BinarySearch(keys, key, lo, hi).insertAt)
    decreases hi - lo, 0
  {
    assert BinarySearch(keys, key, lo, hi) == BinarySearch(keys, key, mid + 1, hi);
    BelowMid(keys, key, lo, mid);
    BinarySearchCorrect(keys, key, mid + 1, hi);
  }

  /** The probe was greater: the search goes on left of it. */
  lemma {:induction false} SearchLeft(keys: seq<seq<byte>>, key: seq<byte>, lo: nat, hi: nat, mid: nat)
    requires lo < hi <= |keys| && StrictlySorted(keys) && mid == lo + (hi - lo) / 2
    requires !LexLess(keys[mid], key) && keys[mid] != key
    requires forall i :: 0 <= i < lo ==> LexLess(keys[i], key)
    requires forall i :: hi <= i < |keys| ==> LexLess(key, keys[i])
    ensures BinarySearch(keys, key, lo, hi).NotFound? ==> SplitsAt(keys, key, BinarySearch(keys, key, lo, hi).insertAt)
    decreases hi - lo, 0
  {
    assert BinarySearch(keys, key, lo, hi) == BinarySearch(keys, key, lo, mid);
    AboveMid(keys, key, mid, hi);
    BinarySearchCorrect(keys, key, lo, mid);
  }

  lemma {:induction false} BelowMid(keys: seq<seq<byte>>, key: seq<byte>, lo: nat, mid: nat)
    requires lo <= mid < |keys| && StrictlySorted(keys) && LexLess(keys[mid], key)
    requires forall i :: 0 <= i < lo ==> LexLess(keys[i], key)
    ensures forall i :: 0 <= i < mid + 1 ==> LexLess(keys[i], key)
  {
    forall i | lo <= i < mid ensures LexLess(keys[i], key) {
      LexLessTransitive(keys[i], keys[mid], key);
    }
  }

  lemma {:induction false} AboveMid(keys: seq<seq<byte>>, key: seq<byte>, mid: nat, hi: nat)
    requires mid < hi <= |keys| && StrictlySorted(keys) && !LexLess(keys[mid], key) && keys[mid] != key
    requires forall i :: hi <= i < |keys| ==> LexLess(key, keys[i])
    ensures forall i :: mid <= i < |keys| ==> LexLess(key, keys[i])
  {
    LexLessTotal(keys[mid], key);
    forall i | mid < i < hi ensures LexLess(key, keys[i]) {
      LexLessTransitive(key, keys[mid], keys[i]);
    }
  }

  function Keys(es: seq<Entry>): (r: seq<seq<byte>>)
    ensures |r| == |es| && forall i :: 0 <= i < |es| ==> r[i] == es[i].0
  {
    seq(|es|, i requires 0 <= i < |es| => es[i].0)
  }

  /** `Block::search`: the value stored under key, found by binary search. */
  function BlockSearch(es: seq<Entry>, key: seq<byte>): (r: Option<seq<byte>>)
    ensures r.Some? ==> exists i :: 0 <= i < |es| && es[i] == (key, r.value)
  {
    match BinarySearch(Keys(es), key, 0, |es|)
    case Found(i) => assert es[i] == (key, es[i].1); Some(es[i].1)
    case NotFound(_) => None
  }

  /** On a block with strictly ascending keys the search misses only a key
      that is not there. */
  lemma {:induction false} BlockSearchComplete(es: seq<Entry>, key: seq<byte>)
    requires StrictlySorted(Keys(es))
    ensures BlockSearch(es, key).None? <==> forall i :: 0 <= i < |es| ==> es[i].0 != key
  {
    BinarySearchCorrect(Keys(es), key, 0, |es|);
    match BinarySearch(Keys(es), key, 0, |es|)
    case Found(i) =>
    case NotFound(at) =>
      forall i | 0 <= i < |es| ensures es[i].0 != key {
        if i < at {
          assert LexLess(Keys(es)[i], key);
          LexLessIrreflexive(key);
        } else {
          assert LexLess(key, Keys(es)[i]);
          LexLessIrreflexive(key);
        }
      }
  }

  /** `DiskComponent::search`'s block: one past a matching index, or the
      insertion point. */
  function Slot(indexes: seq<seq<byte>>, key: seq<byte>): (r: nat)
    ensures r <= |indexes|
  {
    match BinarySearch(indexes, key, 0, |indexes|)
    case Found(i) => i + 1
    case NotFound(e) => e
  }

  /** On strictly sorted indexes the slot counts the indexes that are not
      greater than key. */
  lemma {:induction false} SlotCounts(indexes: seq<seq<byte>>, key: seq<byte>)
    requires StrictlySorted(indexes)
    ensures forall i :: 0 <= i < Slot(indexes, key) ==> LexLe(indexes[i], key)
    ensures forall i :: Slot(indexes, key) <= i < |indexes| ==> LexLess(key, indexes[i])
  {
    BinarySearchCorrect(indexes, key, 0, |indexes|);
    match BinarySearch(indexes, key, 0, |indexes|)
    case Found(f) =>
      forall i | 0 <= i < |indexes| && i != f
        ensures (i < f ==> LexLess(indexes[i], key)) && (i > f ==> LexLess(key, indexes[i])) {
      }
    case NotFound(_) =>
  }

  // ---------------------------------------------------------------------------
  // Compaction, as functions of the loaded blocks and c0.

  /** c0's bindings in key order (the `BTreeMap` iteration). */
  function MemItems(c0: map<seq<byte>, Option<seq<byte>>>): (r: seq<MemEntry>)
    ensures |r| == |c0|
    ensures forall i :: 0 <= i < |r| ==> r[i].0 in c0 && c0[r[i].0] == r[i].1
    decreases |c0|
  {
    if c0 == map[] then []
    else
      LeastExists(c0.Keys);
      LeastUnique(c0.Keys);
      var m :| IsLeast(m, c0.Keys);
      assert |(c0 - {m}).Keys| == |c0.Keys - {m}|;
      [(m, c0[m])] + MemItems(c0 - {m})
  }

  /** The first item holds c0's least key; the rest are the items of what
      remains. */
  lemma {:induction false} MemItemsFirst(c0: map<seq<byte>, Option<seq<byte>>>)
    requires c0 != map[]
    ensures var r := MemItems(c0);
            |r| > 0 && IsLeast(r[0].0, c0.Keys) && r[1..] == MemItems(c0 - {r[0].0})
  {
    var r := MemItems(c0);
    var m :| IsLeast(m, c0.Keys) && r == [(m, c0[m])] + MemItems(c0 - {m});
    assert r[1..] == MemItems(c0 - {m});
  }

  /** The items list their keys in strictly increasing order. */
  lemma {:induction false} MemItemsSorted(c0: map<seq<byte>, Option<seq<byte>>>)
    ensures forall i, j :: 0 <= i < j < |MemItems(c0)| ==> LexLess(MemItems(c0)[i].0, MemItems(c0)[j].0)
    decreases |c0|
  {
    if c0 != map[] {
      MemItemsFirst(c0);
      var r := MemItems(c0);
      var m := r[0].0;
      var rest := c0 - {m};
      assert |rest.Keys| == |c0.Keys - {m}|;
      MemItemsSorted(rest);
      forall i, j | 0 <= i < j < |r| ensures LexLess(r[i].0, r[j].0) {
        assert r[j] == r[1..][j - 1];
        if i > 0 {
          assert r[i] == r[1..][i - 1];
        }
      }
    }
  }

  /** Every key of c0 is listed. */
  lemma {:induction false} MemItemsComplete(c0: map<seq<byte>, Option<seq<byte>>>, k: seq<byte>)
    requires k in c0
    ensures exists i :: 0 <= i < |MemItems(c0)| && MemItems(c0)[i].0 == k
    decreases |c0|
  {
    MemItemsFirst(c0);
    var r := MemItems(c0);
    var m := r[0].0;
    if k != m {
      var rest := c0 - {m};
      assert |rest.Keys| == |c0.Keys - {m}|;
      MemItemsComplete(rest, k);
      var i :| 0 <= i < |MemItems(rest)| && MemItems(rest)[i].0 == k;
      assert r[i + 1] == r[1..][i];
    }
  }

  /** What compaction writes for one c0 binding: the pair, or nothing for a
      tombstone. */
  function Live(e: MemEntry): seq<Entry>
  {
    if e.1.Some? then [(e.0, e.1.value)] else []
  }

  /** The leading blocks compaction keeps: while c0's first key is not below
      indexes[i]. */
  function KeptCount(first: seq<byte>, indexes: seq<seq<byte>>, i: nat): (r: nat)
    requires i <= |indexes|
    ensures i <= r <= |indexes|
    decreases |indexes| - i
  {
    if i < |indexes| && !LexLess(first, indexes[i]) then KeptCount(first, indexes, i + 1) else i
  }

  /** The indexes the kept blocks are registered with: "" for the first and
      indexes[i] for block i. */
  function KeptIndexes(indexes: seq<seq<byte>>, k: nat): (r: seq<seq<byte>>)
    requires k <= |indexes|
    ensures |r| == k
  {
    seq(k, i requires 0 <= i < k => if i > 0 then indexes[i] else [])
  }

  /** The inner loops over one loaded block from entry j and c0 item k: block
      entries below the c0 key are copied, an equal one is dropped (c0
      wins), and a greater one lets the c0 item out.  The walk ends when the
      block runs out (the c0 item stays pending) or c0 runs out (the rest of
      the block is not copied). */
  function MergeBlock(es: seq<Entry>, j: nat, items: seq<MemEntry>, k: nat): (r: (seq<Entry>, nat))
    requires j <= |es| && k <= |items|
    ensures k <= r.1 <= |items|
    decreases |es| - j + |items| - k
  {
    if k >= |items| || j >= |es| then ([], k)
    else if LexLess(es[j].0, items[k].0) then
      var rest := MergeBlock(es, j + 1, items, k);
      ([es[j]] + rest.0, rest.1)
    else if es[j].0 == items[k].0 then MergeBlock(es, j + 1, items, k)
    else
      var rest := MergeBlock(es, j, items, k + 1);
      (Live(items[k]) + rest.0, rest.1)
  }

  /** The walk over the loaded blocks, in order. */
  function MergeBlocks(blocks: seq<seq<Entry>>, items: seq<MemEntry>): (r: (seq<Entry>, nat))
    ensures r.1 <= |items|
  {
    if blocks == [] then ([], 0)
    else
      var prev := MergeBlocks(blocks[..|blocks| - 1], items);
      var last := MergeBlock(blocks[|blocks| - 1], 0, items, prev.1);
      (prev.0 + last.0, last.1)
  }

  /** The live c0 items from k on. */
  function LiveFrom(items: seq<MemEntry>, k: nat): seq<Entry>
    requires k <= |items|
    decreases |items| - k
  {
    if k == |items| then [] else Live(items[k]) + LiveFrom(items, k + 1)
  }

  /** Every entry compaction hands to the builder, in order. */
  function Stream(blocks: seq<seq<Entry>>, items: seq<MemEntry>): seq<Entry>
  {
    var walked := MergeBlocks(blocks, items);
    walked.0 + LiveFrom(items, walked.1)
  }

  /** The blocks from ids loaded in order; the first failure wins. */
  function LoadAll(m: map<seq<byte>, seq<byte>>, ids: seq<u64>): (r: Result<seq<seq<Entry>>, string>)
    ensures r.Ok? ==> |r.value| == |ids|
  {
    if ids == [] then Ok([])
    else match LoadAll(m, ids[..|ids| - 1])
      case Err(e) => Err(e)
      case Ok(bs) =>
        match LoadBlock(m, BlockName(ids[|ids| - 1]))
        case Err(e) => Err(e)
        case Ok(b) => Ok(bs + [b])
  }

  /** The c-th block the builder cuts from a stream: four entries, or what
      is left at the end. */
  function Chunk(s: seq<Entry>, c: nat): seq<Entry>
    requires 4 * c < |s|
  {
    var lo := 4 * c;
    s[lo..if lo + MAX_BLOCK_KV_NUM <= |s| then lo + MAX_BLOCK_KV_NUM else |s|]
  }

  /** How many blocks a stream of n entries fills: n / 4 rounded up. */
  function BlockCount(n: nat): nat
  {
    if n == 0 then 0
    else if n <= MAX_BLOCK_KV_NUM then 1
    else 1 + BlockCount(n - MAX_BLOCK_KV_NUM)
  }

  /** c full blocks and a partly filled one make c + 1 blocks. */
  lemma {:induction false} BlockCountOf(c: nat, r: nat)
    requires r <= MAX_BLOCK_KV_NUM
    ensures BlockCount(4 * c + r) == c + (if r == 0 then 0 else 1)
  {
    if c > 0 {
      BlockCountOf(c - 1, r);
      assert 4 * c + r - MAX_BLOCK_KV_NUM == 4 * (c - 1) + r;
    }
  }

  /** With nothing on disk, compaction writes exactly c0's live bindings in
      key order: tombstones vanish. */
  lemma {:induction false} StreamWithoutBlocks(items: seq<MemEntry>)
    ensures Stream([], items) == LiveFrom(items, 0)
  {
  }

  /** A c0 item that meets a block entry with the same key replaces it: the
      block's entry is not copied and the c0 value comes out. */
  lemma {:induction false} MergeReplacesEqual(key: seq<byte>, old_: seq<byte>, new_: seq<byte>)
    ensures var es := [(key, old_)];
            var items := [(key, Some(new_))];
            MergeBlock(es, 0, items, 0) == ([], 0)
            && Stream([es], items) == [(key, new_)]
  {
    var es := [(key, old_)];
    var items := [(key, Some(new_))];
    LexLessIrreflexive(key);
    assert MergeBlock(es, 1, items, 0) == ([], 0);
    assert MergeBlock(es, 0, items, 0) == ([], 0);
    var none: seq<seq<Entry>> := [];
    assert [es][..0] == none;
    assert MergeBlocks(none, items) == ([], 0);
    var nothing: seq<Entry> := [];
    assert nothing + nothing == nothing;
    assert MergeBlocks([es], items) == ([], 0);
    assert LiveFrom(items, 1) == [];
  }

  /** Once c0 runs out inside a block, the rest of that block is not copied:
      a block entry above every c0 key is lost. */
  lemma {:induction false} MergeDropsTail(low: seq<byte>, high: seq<byte>, v: seq<byte>, w: seq<byte>)
    requires LexLess(low, high)
    ensures Stream([[(high, v)]], [(low, Some(w))]) == [(low, w)]
  {
    var es := [(high, v)];
    var items := [(low, Some(w))];
    LexLessAsymmetric(low, high);
    assert MergeBlock(es, 0, items, 1) == ([], 1);
    assert !LexLess(es[0].0, items[0].0) && es[0].0 != items[0].0;
    assert Live(items[0]) == [(low, w)];
    var nothing: seq<Entry> := [];
    assert [(low, w)] + nothing == [(low, w)] && nothing + [(low, w)] == [(low, w)];
    assert MergeBlock(es, 0, items, 0) == ([(low, w)], 1);
    var none: seq<seq<Entry>> := [];
    assert [es][..0] == none;
    assert MergeBlocks(none, items) == ([], 0);
    assert MergeBlocks([es], items) == ([(low, w)], 1);
  }

  // ---------------------------------------------------------------------------
  // Block files.

  /** `Fs::create(name, true)` followed by one write of d: creating with
      overwrite cannot fail, and the fresh file then holds exactly d. */
  method WriteWhole(fs: FsImpl, name: seq<byte>, d: seq<byte>)
    modifies fs
    ensures fs.Contents() == old(fs.Contents())[name := d]
  {
    ghost var m0 := fs.Contents();
    var created := fs.Create(name, true);
    var f := created.value;
    f.Write(d);
    ghost var m1 := fs.Contents();
    assert f.inner.data == d by {
      if |d| > 0 {
        assert [][..0] + d == d;
      }
    }
    assert m1[name] == d;
    assert m1.Keys == m0.Keys + {name};
    forall n | n in m1 && n != name ensures m1[n] == m0[n] {
      assert fs.files[n] == old(fs.files)[n];
    }
    assert m1 == m0[name := d];
  }

  /** `Block::write_into`: the named file is replaced by the entries, each
      key then its value, `write_str`-encoded. */
  method WriteBlock(fs: FsImpl, es: seq<Entry>, name: seq<byte>) returns (r: Result<(), string>)
    modifies fs
    ensures r.Ok? && fs.Contents() == old(fs.Contents())[name := EncodeBlock(es)]
  {
    var d: seq<byte> := [];
    for i := 0 to |es|
      invariant d == EncodeBlock(es[..i])
      invariant fs.Contents() == old(fs.Contents())
    {
      EncodeBlockStep(es, i, d);
      d := d + EncodeStr(es[i].0) + EncodeStr(es[i].1);
    }
    assert es[..|es|] == es;
    assert d == EncodeBlock(es);
    WriteWhole(fs, name, d);
    r := Ok(());
  }

  /** The entries read so far in front of what the rest of the file loads. */
  function Prepend(a: seq<Entry>, rest: Result<seq<Entry>, string>): Result<seq<Entry>, string>
  {
    match rest
    case Err(e) => Err(e)
    case Ok(b) => Ok(a + b)
  }

  lemma {:induction false} PrependNothing(rest: Result<seq<Entry>, string>)
    ensures Prepend([], rest) == rest
  {
    if rest.Ok? {
      assert [] + rest.value == rest.value;
    }
  }

  lemma {:induction false} PrependAssoc(a: seq<Entry>, b: seq<Entry>, rest: Result<seq<Entry>, string>)
    ensures Prepend(a + b, rest) == Prepend(a, Prepend(b, rest))
  {
    if rest.Ok? {
      ConcatAssoc3(a, b, rest.value);
    }
  }

  /** `Block::load`. */
  method LoadBlockFile(fs: FsImpl, name: seq<byte>) returns (r: Result<seq<Entry>, string>)
    ensures r == LoadBlock(fs.Contents(), name)
    ensures fs.Contents() == old(fs.Contents())
  {
    ghost var m := fs.Contents();
    var handle := fs.Open(name, false);
    if handle.Err? {
      return Err(handle.error);
    }
    var f := handle.value;
    assert fs.Contents() == m && f.inner.data == m[name];
    r := ReadEntries(f);
  }

  /** The loop of `Block::load`, on an open block file. */
  method ReadEntries(f: File) returns (r: Result<seq<Entry>, string>)
    requires f.p == 0
    modifies f
    ensures f.inner.data == old(f.inner.data)
    ensures r == LoadEntries(f.inner.data, 0)
  {
    ghost var data := f.inner.data;
    var entries: seq<Entry> := [];
    PrependNothing(LoadEntries(data, 0));
    while true
      invariant f.inner.data == data
      invariant LoadEntries(data, 0) == Prepend(entries, LoadEntries(data, f.p))
      decreases |data| - Min(f.p, |data|)
    {
      ghost var p := f.p;
      ReadStringAtMoves(data, p);
      var key := ReadString(f);
      if key.Err? {
        if key.error == "EOF" {
          break;
        }
        return Err(key.error);
      }
      ReadStringAtMoves(data, f.p);
      var val := ReadString(f);
      if val.Err? {
        return Err(val.error);
      }
      assert LoadEntries(data, p) == Prepend([(key.value, val.value)], LoadEntries(data, f.p));
      PrependAssoc(entries, [(key.value, val.value)], LoadEntries(data, f.p));
      entries := entries + [(key.value, val.value)];
    }
    assert entries + [] == entries;
    return Ok(entries);
  }

  /** `Block::load_first_key`. */
  method LoadFirstKey(fs: FsImpl, name: seq<byte>) returns (r: Result<seq<byte>, string>)
    ensures r == FirstKey(fs.Contents(), name)
    ensures fs.Contents() == old(fs.Contents())
  {
    var handle := fs.Open(name, false);
    if handle.Err? {
      return Err(handle.error);
    }
    r := ReadString(handle.value);
  }

  // ---------------------------------------------------------------------------
  // The disk component builder.

  /** The file system after the first c blocks of stream s went to the files
      of ids start, start + 1, ...: the c-th block holds entries 4c to 4c + 3. */
  ghost function Written(m0: map<seq<byte>, seq<byte>>, s: seq<Entry>, start: nat, c: nat)
    : map<seq<byte>, seq<byte>>
    requires c == 0 || 4 * (c - 1) < |s|
  {
    if c == 0 then m0
    else Written(m0, s, start, c - 1)[BlockName(start + c - 1) := EncodeBlock(Chunk(s, c - 1))]
  }

  /** Extending the stream does not change its full blocks. */
  lemma {:induction false} WrittenExtend(m0: map<seq<byte>, seq<byte>>, s: seq<Entry>, t: seq<Entry>, start: nat, c: nat)
    requires 4 * c <= |s|
    ensures Written(m0, s + t, start, c) == Written(m0, s, start, c)
  {
    if c > 0 {
      WrittenExtend(m0, s, t, start, c - 1);
      ChunkExtend(s, t, c - 1);
    }
  }

  /** A full block of s is the same block of any extension of s. */
  lemma {:induction false} ChunkExtend(s: seq<Entry>, t: seq<Entry>, c: nat)
    requires 4 * (c + 1) <= |s|
    ensures 4 * c < |s + t| && Chunk(s + t, c) == Chunk(s, c)
  {
    var lo := 4 * c;
    assert (s + t)[lo..lo + MAX_BLOCK_KV_NUM] == s[lo..lo + MAX_BLOCK_KV_NUM];
  }

  /** Files other than the new blocks keep what they held. */
  lemma {:induction false} WrittenElsewhere(m0: map<seq<byte>, seq<byte>>, s: seq<Entry>, start: nat, c: nat, n: seq<byte>)
    requires c == 0 || 4 * (c - 1) < |s|
    requires forall t :: start <= t < start + c ==> n != BlockName(t)
    ensures (n in Written(m0, s, start, c) <==> n in m0)
    ensures n in m0 ==> Written(m0, s, start, c)[n] == m0[n]
  {
    if c > 0 {
      WrittenElsewhere(m0, s, start, c - 1, n);
    }
  }

  /** The new blocks hold the chunks of the stream. */
  lemma {:induction false} WrittenBlock(m0: map<seq<byte>, seq<byte>>, s: seq<Entry>, start: nat, c: nat, t: nat)
    requires c == 0 || 4 * (c - 1) < |s|
    requires t < c
    ensures 4 * t < |s|
    ensures BlockName(start + t) in Written(m0, s, start, c)
    ensures Written(m0, s, start, c)[BlockName(start + t)] == EncodeBlock(Chunk(s, t))
  {
    if t < c - 1 {
      WrittenBlock(m0, s, start, c - 1, t);
      BlockNameInjective(start + t, start + c - 1);
      UpdateKeeps(Written(m0, s, start, c - 1), BlockName(start + c - 1), EncodeBlock(Chunk(s, c - 1)),
                  BlockName(start + t));
    }
  }

  /** Updating a map at one key keeps its binding at any other key. */
  lemma UpdateKeeps(w: map<seq<byte>, seq<byte>>, n: seq<byte>, v: seq<byte>, key: seq<byte>)
    requires key in w && key != n
    ensures key in w[n := v] && w[n := v][key] == w[key]
  {
  }

  /** f is the tail of s, stated entry by entry. */
  ghost predicate EndsWith<T>(s: seq<T>, f: seq<T>)
  {
    |f| <= |s| && forall i :: 0 <= i < |f| ==> s[|s| - |f| + i] == f[i]
  }

  lemma {:induction false} SuffixSnoc<T>(s: seq<T>, f: seq<T>, e: T)
    requires EndsWith(s, f)
    ensures EndsWith(s + [e], f + [e])
  {
  }

  /** One more block: the filling entries at the end of the stream. */
  lemma {:induction false} WrittenNext(m0: map<seq<byte>, seq<byte>>, s: seq<Entry>, start: nat, c: nat, fill: seq<Entry>,
                                       id: nat)
    requires 0 < |fill| <= MAX_BLOCK_KV_NUM && id == start + c
    requires |s| == 4 * c + |fill| && EndsWith(s, fill)
    ensures BlockCount(|s|) == c + 1
    ensures Written(m0, s, start, c + 1) == Written(m0, s, start, c)[BlockName(id) := EncodeBlock(fill)]
  {
    BlockCountOf(c, |fill|);
    assert Chunk(s, c) == fill;
  }

  /** `DiskComponentBuilder`: cuts the entries it is handed into blocks of
      four, each written to the file of the next id. */
  class Builder {
    var fill: seq<Entry>
    var nextId: nat
    var indexes: seq<seq<byte>>
    var blockIds: seq<u64>
    const fs: FsImpl
    /** Every entry handed to write_entry so far. */
    ghost var stream: seq<Entry>
    /** How many full blocks have been written. */
    ghost var count: nat
    ghost const startId: nat
    ghost const disk0: map<seq<byte>, seq<byte>>

    /** The full blocks of the stream are on disk, the rest is in fill. */
    ghost predicate Valid()
      reads this, fs, fs.files.Values
    {
      |fill| <= MAX_BLOCK_KV_NUM
      && nextId == startId + count
      && |stream| == 4 * count + |fill|
      && EndsWith(stream, fill)
      && fs.Contents() == Written(disk0, stream, startId, count)
    }

    constructor(fs: FsImpl, nextId: nat)
      ensures this.fs == fs && this.nextId == nextId && startId == nextId
      ensures fill == [] && indexes == [] && blockIds == [] && stream == [] && count == 0
      ensures disk0 == fs.Contents() && Valid()
    {
      this.fs := fs;
      this.nextId := nextId;
      startId := nextId;
      fill := [];
      indexes := [];
      blockIds := [];
      stream := [];
      count := 0;
      disk0 := fs.Contents();
    }

    /** A block the builder did not write reads as it did before. */
    lemma KeepsOlderBlocks(id: nat)
      requires Valid() && id < startId
      ensures LoadBlock(fs.Contents(), BlockName(id)) == LoadBlock(disk0, BlockName(id))
    {
      RegisteredUntouched(disk0, stream, startId, count, id);
    }

    /** `add_block`: registers a block under its first key. */
    method AddBlock(blockId: u64, firstKey: seq<byte>)
      modifies this
      ensures blockIds == old(blockIds) + [blockId] && indexes == old(indexes) + [firstKey]
      ensures fill == old(fill) && nextId == old(nextId) && stream == old(stream) && count == old(count)
    {
      blockIds := blockIds + [blockId];
      indexes := indexes + [firstKey];
    }

    /** `write_fill_block`: the filling block goes to the file of the next id,
        which then advances.  The block is not registered. */
    method WriteFillBlock() returns (r: Result<(), string>)
      requires Valid() && fill != []
      modifies this, fs
      ensures r.Ok? && fill == [] && nextId == old(nextId) + 1 && count == old(count) + 1
      ensures indexes == old(indexes) && blockIds == old(blockIds) && stream == old(stream)
      ensures count == BlockCount(|stream|)
      ensures fs.Contents() == Written(disk0, stream, startId, count)
    {
      WrittenNext(disk0, stream, startId, count, fill, nextId);
      r := WriteBlock(fs, fill, BlockName(nextId));
      fill, count, nextId := [], count + 1, nextId + 1;
    }

    /** `write_entry`: the entry joins the filling block, which is written
        once it holds four. */
    method WriteEntry(k: seq<byte>, v: seq<byte>) returns (r: Result<(), string>)
      requires Valid() && |fill| < MAX_BLOCK_KV_NUM
      modifies this, fs
      ensures Valid() && |fill| < MAX_BLOCK_KV_NUM && r.Ok?
      ensures stream == old(stream) + [(k, v)]
      ensures indexes == old(indexes) && blockIds == old(blockIds)
    {
      WrittenExtend(disk0, stream, [(k, v)], startId, count);
      SuffixSnoc(stream, fill, (k, v));
      fill := fill + [(k, v)];
      stream := stream + [(k, v)];
      if |fill| >= MAX_BLOCK_KV_NUM {
        r := WriteFillBlock();
      } else {
        r := Ok(());
      }
    }

    /** `flush`: a partly filled block is written too; the result is what
        was registered and the next free id. */
    method Flush() returns (r: Result<(seq<seq<byte>>, seq<u64>, nat), string>)
      requires Valid() && |fill| < MAX_BLOCK_KV_NUM
      modifies this, fs
      ensures fill == [] && stream == old(stream) && count == BlockCount(|stream|)
      ensures count == 0 || 4 * (count - 1) < |stream|
      ensures nextId == startId + count
      ensures fs.Contents() == Written(disk0, stream, startId, count)
      ensures r == Ok((indexes, blockIds, nextId))
      ensures indexes == old(indexes) && blockIds == old(blockIds)
    {
      if fill != [] {
        var _ := WriteFillBlock();
      } else {
        BlockCountOf(count, 0);
      }
      r := Ok((indexes, blockIds, nextId));
    }
  }

  // ---------------------------------------------------------------------------
  // The disk component.

  /** `load_block_ids` on a named file: "no such file" when it is absent. */
  function LoadMetaFile(m: map<seq<byte>, seq<byte>>, name: seq<byte>)
    : Result<(seq<u64>, seq<seq<byte>>), string>
  {
    if name in m then LoadMeta(m[name], 0, m, false) else Err("no such file")
  }

  /** The ids and indexes read so far in front of what the rest loads. */
  function PrependMeta(ids: seq<u64>, idx: seq<seq<byte>>, rest: Result<(seq<u64>, seq<seq<byte>>), string>)
    : Result<(seq<u64>, seq<seq<byte>>), string>
  {
    match rest
    case Err(e) => Err(e)
    case Ok(l) => Ok((ids + l.0, idx + l.1))
  }

  lemma {:induction false} PrependMetaAssoc(ids: seq<u64>, idx: seq<seq<byte>>, id: seq<u64>, key: seq<seq<byte>>,
                         rest: Result<(seq<u64>, seq<seq<byte>>), string>)
    ensures PrependMeta(ids + id, idx + key, rest) == PrependMeta(ids, idx, PrependMeta(id, key, rest))
  {
    if rest.Ok? {
      ConcatAssoc3(ids, id, rest.value.0);
      ConcatAssoc3(idx, key, rest.value.1);
    }
  }

  /** The loader's convention: one index per id after the first. */
  lemma {:induction false} LoadMetaCounts(data: seq<byte>, p: nat, m: map<seq<byte>, seq<byte>>, started: bool)
    ensures var r := LoadMeta(data, p, m, started);
            r.Ok? ==> |r.value.1| == (if started || r.value.0 == [] then |r.value.0| else |r.value.0| - 1)
    decreases |data| - Min(p, |data|)
  {
    var (id, p1) := ReadU64At(data, p);
    if id.Ok? {
      LoadMetaCounts(data, p1, m, true);
    }
  }

  /** `load`'s file system: the metadata file is created empty when missing. */
  function WithMetadata(m: map<seq<byte>, seq<byte>>): (r: map<seq<byte>, seq<byte>>)
    ensures METADATA in r
  {
    if METADATA in m then m else m[METADATA := []]
  }

  lemma {:induction false} BlockCountBound(n: nat)
    ensures BlockCount(n) == 0 || 4 * (BlockCount(n) - 1) < n
    ensures 4 * BlockCount(n) >= n
  {
    if n > MAX_BLOCK_KV_NUM {
      BlockCountBound(n - MAX_BLOCK_KV_NUM);
    }
  }

  /** What `compact_mem` leaves behind for a non-empty c0: the files, then
      the indexes, the block ids and the next id of the component. */
  ghost function Compaction(m0: map<seq<byte>, seq<byte>>, ids: seq<u64>, idx: seq<seq<byte>>, next: nat,
                            items: seq<MemEntry>)
    : (r: Result<(map<seq<byte>, seq<byte>>, seq<seq<byte>>, seq<u64>, nat), string>)
    requires |items| > 0 && |idx| <= |ids|
    ensures r.Ok? ==> |r.value.2| <= |ids| && r.value.2 == ids[..|r.value.2|]
    ensures r.Ok? ==> |r.value.1| == |r.value.2| && next <= r.value.3
    ensures r.Ok? ==> METADATA in r.value.0 && r.value.0[METADATA] == EncodeIds(r.value.2)
  {
    var kept := KeptCount(items[0].0, idx, 0);
    match LoadAll(m0, ids[kept..])
    case Err(e) => Err(e)
    case Ok(blocks) =>
      var s := Stream(blocks, items);
      var c := BlockCount(|s|);
      BlockCountBound(|s|);
      Ok((Written(m0, s, next, c)[METADATA := EncodeIds(ids[..kept])], KeptIndexes(idx, kept), ids[..kept], next + c))
  }

  lemma {:induction false} CompactionFails(m0: map<seq<byte>, seq<byte>>, ids: seq<u64>, idx: seq<seq<byte>>, next: nat,
                                           items: seq<MemEntry>, kept: nat)
    requires |items| > 0 && |idx| <= |ids|
    requires kept == KeptCount(items[0].0, idx, 0) && LoadAll(m0, ids[kept..]).Err?
    ensures Compaction(m0, ids, idx, next, items) == Err(LoadAll(m0, ids[kept..]).error)
  {
  }

  lemma {:induction false} CompactionSucceeds(m0: map<seq<byte>, seq<byte>>, ids: seq<u64>, idx: seq<seq<byte>>,
                                              next: nat, items: seq<MemEntry>, kept: nat, blocks: seq<seq<Entry>>,
                                              keptIds: seq<u64>, keptIdx: seq<seq<byte>>)
    requires |items| > 0 && |idx| <= |ids|
    requires kept == KeptCount(items[0].0, idx, 0) && LoadAll(m0, ids[kept..]) == Ok(blocks)
    requires keptIds == ids[..kept] && keptIdx == KeptIndexes(idx, kept)
    ensures var s := Stream(blocks, items); BlockCount(|s|) == 0 || 4 * (BlockCount(|s|) - 1) < |s|
    ensures var s := Stream(blocks, items);
            Compaction(m0, ids, idx, next, items)
            == Ok((Written(m0, s, next, BlockCount(|s|))[METADATA := EncodeIds(keptIds)], keptIdx, keptIds,
                   next + BlockCount(|s|)))
  {
    BlockCountBound(|Stream(blocks, items)|);
  }

  /** The kept ids stay below the next id, which only grows. */
  lemma {:induction false} KeptBelowNext(ids: seq<u64>, kept: nat, next: nat, next': nat)
    requires kept <= |ids| && next <= next'
    requires forall i :: 0 <= i < |ids| ==> ids[i] < next
    ensures forall i :: 0 <= i < kept ==> ids[..kept][i] < next'
  {
  }

  /** `DiskComponent::search`'s answer: nothing without blocks, and otherwise
      the block at the slot of k, searched. */
  function DiskSearch(m: map<seq<byte>, seq<byte>>, idx: seq<seq<byte>>, ids: seq<u64>, k: seq<byte>)
    : (r: Result<Option<seq<byte>>, string>)
    requires ids == [] || Slot(idx, k) < |ids|
    ensures ids == [] ==> r == Ok(None)
    ensures r.Ok? && r.value.Some? ==>
              LoadBlock(m, BlockName(ids[Slot(idx, k)])).Ok? && (k, r.value.value) in LoadBlock(m, BlockName(ids[Slot(idx, k)])).value
  {
    if ids == [] then Ok(None)
    else match LoadBlock(m, BlockName(ids[Slot(idx, k)]))
      case Err(e) => Err(e)
      case Ok(es) => Ok(BlockSearch(es, k))
  }

  /** As written, compacting a non-empty c0 into an empty disk component
      registers no block (`write_fill_block` never calls `add_block`), so
      `search` then finds nothing, not even a key c0 bound to a value. */
  lemma CompactionLosesBindings(m0: map<seq<byte>, seq<byte>>, next: nat, c0: map<seq<byte>, Option<seq<byte>>>,
                                k: seq<byte>)
    requires |c0| > 0
    ensures Compaction(m0, [], [], next, MemItems(c0)).Ok?
    ensures var r := Compaction(m0, [], [], next, MemItems(c0)).value;
            r.2 == [] && DiskSearch(r.0, r.1, r.2, k) == Ok(None)
  {
    var items := MemItems(c0);
    var noIds: seq<u64> := [];
    assert KeptCount(items[0].0, [], 0) == 0;
    assert noIds[0..] == noIds && LoadAll(m0, noIds).Ok?;
    assert noIds[..0] == noIds;
  }

  /** As written, the kept indexes are `""` followed by indexes[1..kept]
      while the kept ids are ids[..kept]: with two blocks of which the first
      is kept, the one index is `""`, at or below every key, so `search`
      picks slot 1 of a single block id, past the end (a panic in the
      source). */
  lemma KeptSlotPastEnd(m0: map<seq<byte>, seq<byte>>, ids: seq<u64>, idx: seq<seq<byte>>, next: nat,
                        items: seq<MemEntry>, k: seq<byte>)
    requires |items| > 0 && |ids| == 2 && |idx| == 1 && !LexLess(items[0].0, idx[0])
    requires LoadAll(m0, ids[1..]).Ok?
    ensures Compaction(m0, ids, idx, next, items).Ok?
    ensures var r := Compaction(m0, ids, idx, next, items).value;
            r.1 == [[]] && r.2 == ids[..1] && Slot(r.1, k) == |r.2|
  {
    assert KeptCount(items[0].0, idx, 1) == 1;
    assert KeptCount(items[0].0, idx, 0) == 1;
    var kept: seq<seq<byte>> := [[]];
    assert KeptIndexes(idx, 1) == kept;
    SlotCounts(kept, k);
  }

  /** `store_block_ids`: the ids, eight little-endian bytes each, replace the
      named file. */
  method StoreBlockIds(fs: FsImpl, name: seq<byte>, ids: seq<u64>) returns (r: Result<(), string>)
    modifies fs
    ensures r.Ok? && fs.Contents() == old(fs.Contents())[name := EncodeIds(ids)]
  {
    var d: seq<byte> := [];
    for i := 0 to |ids|
      invariant d == EncodeIds(ids[..i])
      invariant fs.Contents() == old(fs.Contents())
    {
      EncodeIdsSnoc(ids[..i], ids[i]);
      assert ids[..i + 1] == ids[..i] + [ids[i]];
      d := d + EncodeU64(ids[i]);
    }
    assert ids[..|ids|] == ids;
    WriteWhole(fs, name, d);
    r := Ok(());
  }

  /** `load_block_ids`: ids until the end of the file, and the first key of
      every block but the first. */
  method LoadBlockIds(fs: FsImpl, name: seq<byte>) returns (r: Result<(seq<u64>, seq<seq<byte>>), string>)
    ensures r == LoadMetaFile(fs.Contents(), name)
  {
    ghost var m := fs.Contents();
    var handle := fs.Open(name, false);
    if handle.Err? {
      return Err(handle.error);
    }
    var f := handle.value;
    assert fs.Contents() == m && f.inner.data == m[name];
    r := ReadMeta(fs, f, m);
  }

  /** One id read from the metadata file; the files stay as they are. */
  method ReadMetaId(fs: FsImpl, f: File, ghost m: map<seq<byte>, seq<byte>>) returns (r: Result<u64, string>)
    requires fs.Contents() == m
    modifies f
    ensures fs.Contents() == m && f.inner.data == old(f.inner.data)
    ensures (r, f.p) == ReadU64At(f.inner.data, old(f.p))
  {
    r := ReadU64(f);
  }

  /** The loop of `load_block_ids`, on an open metadata file. */
  method ReadMeta(fs: FsImpl, f: File, ghost m: map<seq<byte>, seq<byte>>)
    returns (r: Result<(seq<u64>, seq<seq<byte>>), string>)
    requires fs.Contents() == m && f.p == 0
    modifies f
    ensures fs.Contents() == m && f.inner.data == old(f.inner.data)
    ensures r == LoadMeta(f.inner.data, 0, m, false)
  {
    ghost var data := f.inner.data;
    var blockIds: seq<u64> := [];
    var indexes: seq<seq<byte>> := [];
    assert PrependMeta([], [], LoadMeta(data, 0, m, false)) == LoadMeta(data, 0, m, false) by {
      var rest := LoadMeta(data, 0, m, false);
      if rest.Ok? {
        assert [] + rest.value.0 == rest.value.0 && [] + rest.value.1 == rest.value.1;
      }
    }
    while true
      invariant f.inner.data == data && fs.Contents() == m
      invariant LoadMeta(data, 0, m, false) == PrependMeta(blockIds, indexes, LoadMeta(data, f.p, m, blockIds != []))
      decreases |data| - Min(f.p, |data|)
    {
      ghost var p := f.p;
      var id := ReadMetaId(fs, f, m);
      match id {
        case Ok(x) =>
          ghost var started := blockIds != [];
          var key: seq<seq<byte>> := [];
          if blockIds != [] {
            var first := LoadFirstKey(fs, BlockName(x));
            if first.Err? {
              return Err(first.error);
            }
            key := [first.value];
          }
          assert LoadMeta(data, 0, m, false)
                 == PrependMeta(blockIds + [x], indexes + key, LoadMeta(data, f.p, m, true)) by {
            PrependMetaAssoc(blockIds, indexes, [x], key, LoadMeta(data, f.p, m, true));
          }
          indexes := indexes + key;
          blockIds := blockIds + [x];
        case Err(e) =>
          if e == "EOF" {
            break;
          }
          return Err(e);
      }
    }
    assert blockIds + [] == blockIds && indexes + [] == indexes;
    return Ok((blockIds, indexes));
  }

  /** The metadata file is created empty when it is missing. */
  method EnsureMetadata(fs: FsImpl)
    modifies fs
    ensures fs.Contents() == WithMetadata(old(fs.Contents()))
  {
    ghost var m0 := fs.Contents();
    if !fs.Exist(METADATA) {
      var created := fs.Create(METADATA, true);
      ghost var m1 := fs.Contents();
      forall n | n in m1 && n != METADATA ensures m1[n] == m0[n] {
        assert fs.files[n] == old(fs.files)[n];
      }
      assert m1 == m0[METADATA := []];
    }
  }

  /** `DiskComponent`: the registered blocks, their indexes, and the next id
      to write a block under. */
  class DiskComponent {
    var nextId: nat
    var indexes: seq<seq<byte>>
    var blockIds: seq<u64>
    const fs: FsImpl

    /** No more indexes than blocks, and every registered id below the next. */
    ghost predicate Valid()
      reads this
    {
      |indexes| <= |blockIds| && forall i :: 0 <= i < |blockIds| ==> blockIds[i] < nextId
    }

    constructor(fs: FsImpl, nextId: nat, indexes: seq<seq<byte>>, blockIds: seq<u64>)
      ensures this.fs == fs && this.nextId == nextId && this.indexes == indexes && this.blockIds == blockIds
    {
      this.fs := fs;
      this.nextId := nextId;
      this.indexes := indexes;
      this.blockIds := blockIds;
    }

    /** `load`: the metadata file is created when missing, its ids and the
        blocks' first keys are read, and the next id is one past the
        largest. */
    static method Load(fs: FsImpl) returns (r: Result<DiskComponent, string>)
      modifies fs
      ensures fs.Contents() == WithMetadata(old(fs.Contents()))
      ensures var meta := LoadMetaFile(fs.Contents(), METADATA);
              (r.Ok? <==> meta.Ok?)
              && (r.Err? ==> r.error == meta.error)
              && (r.Ok? ==> fresh(r.value) && r.value.fs == fs && r.value.Valid()
                            && r.value.blockIds == meta.value.0 && r.value.indexes == meta.value.1
                            && r.value.nextId == NextIdAfter(meta.value.0))
    {
      EnsureMetadata(fs);
      var loaded := LoadBlockIds(fs, METADATA);
      if loaded.Err? {
        return Err(loaded.error);
      }
      var (blockIds, indexes) := loaded.value;
      LoadMetaCounts(fs.Contents()[METADATA], 0, fs.Contents(), false);
      var nextId := NextIdAfter(blockIds);
      var c := new DiskComponent(fs, nextId, indexes, blockIds);
      r := Ok(c);
    }

    /** `compact_mem`: c0 is merged with the blocks from the first one that
        may hold c0's first key on, and the merged stream is cut into new
        blocks; the metadata then lists the kept blocks only. */
    method CompactMem(c0: map<seq<byte>, Option<seq<byte>>>) returns (r: Result<(), string>)
      requires Valid()
      modifies this, fs
      ensures Valid()
      ensures c0 == map[] ==> r.Ok? && unchanged(this) && fs.Contents() == old(fs.Contents())
      ensures c0 != map[] ==>
                var res := Compaction(old(fs.Contents()), old(blockIds), old(indexes), old(nextId), MemItems(c0));
                (r.Ok? <==> res.Ok?)
                && (r.Ok? ==> fs.Contents() == res.value.0 && indexes == res.value.1
                               && blockIds == res.value.2 && nextId == res.value.3)
                && (r.Err? ==> r.error == res.error && unchanged(this))
    {
      if c0 == map[] {
        return Ok(());
      }
      var items := MemItems(c0);
      assert |items| > 0 by {
        var k :| k in c0;
      }
      var stored := CompactStore(fs, nextId, indexes, blockIds, items);
      if stored.Err? {
        return Err(stored.error);
      }
      Install(stored.value.0, stored.value.1, stored.value.2);
      r := Ok(());
    }

    /** Replaces the in-memory metadata by the one just stored. */
    method Install(indexes': seq<seq<byte>>, blockIds': seq<u64>, nextId': nat)
      modifies this
      ensures indexes == indexes' && blockIds == blockIds' && nextId == nextId'
    {
      indexes, blockIds, nextId := indexes', blockIds', nextId';
    }

    /** `search`: nothing without blocks, and otherwise the block at the slot
        of k, loaded and searched.  Indexing the block ids panics when the
        slot is past them. */
    method Search(k: seq<byte>) returns (r: Result<Option<seq<byte>>, string>)
      requires blockIds == [] || Slot(indexes, k) < |blockIds|
      ensures r == DiskSearch(fs.Contents(), indexes, blockIds, k)
    {
      if blockIds == [] {
        return Ok(None);
      }
      var i := Slot(indexes, k);
      var loaded := LoadBlockFile(fs, BlockName(blockIds[i]));
      if loaded.Err? {
        return Err(loaded.error);
      }
      r := Ok(BlockSearch(loaded.value, k));
    }
  }

  /** `compact_mem`'s first loop: the leading blocks whose index is not above
      c0's first key keep their place, registered under "" (the first) or
      their index. */
  method RegisterKept(b: Builder, first: seq<byte>, indexes: seq<seq<byte>>, blockIds: seq<u64>) returns (kept: nat)
    requires |indexes| <= |blockIds|
    modifies b
    ensures kept == KeptCount(first, indexes, 0)
    ensures b.blockIds == old(b.blockIds) + blockIds[..kept] && b.indexes == old(b.indexes) + KeptIndexes(indexes, kept)
    ensures b.fill == old(b.fill) && b.nextId == old(b.nextId) && b.stream == old(b.stream) && b.count == old(b.count)
  {
    var i := 0;
    while i < |indexes| && !LexLess(first, indexes[i])
      invariant i <= |indexes| && KeptCount(first, indexes, i) == KeptCount(first, indexes, 0)
      invariant b.blockIds == old(b.blockIds) + blockIds[..i] && b.indexes == old(b.indexes) + KeptIndexes(indexes, i)
      invariant b.fill == old(b.fill) && b.nextId == old(b.nextId) && b.stream == old(b.stream) && b.count == old(b.count)
    {
      b.AddBlock(blockIds[i], if i > 0 then indexes[i] else []);
      assert blockIds[..i + 1] == blockIds[..i] + [blockIds[i]];
      assert KeptIndexes(indexes, i + 1) == KeptIndexes(indexes, i) + [if i > 0 then indexes[i] else []];
      i := i + 1;
    }
    kept := i;
  }

  /** `compact_mem` on the disk: the compacted blocks are written, then the
      metadata listing the kept blocks; the new indexes, ids and next id are
      returned. */
  method CompactStore(fs: FsImpl, nextId: nat, indexes: seq<seq<byte>>, blockIds: seq<u64>, items: seq<MemEntry>)
    returns (r: Result<(seq<seq<byte>>, seq<u64>, nat), string>)
    requires |items| > 0 && |indexes| <= |blockIds|
    requires forall i :: 0 <= i < |blockIds| ==> blockIds[i] < nextId
    modifies fs
    ensures var res := Compaction(old(fs.Contents()), blockIds, indexes, nextId, items);
            (r.Ok? <==> res.Ok?)
            && (r.Err? ==> r.error == res.error)
            && (r.Ok? ==> fs.Contents() == res.value.0 && r.value == (res.value.1, res.value.2, res.value.3))
    ensures r.Ok? ==> |r.value.0| <= |r.value.1| && forall i :: 0 <= i < |r.value.1| ==> r.value.1[i] < r.value.2
  {
    ghost var m0 := fs.Contents();
    var built, kept, blocks := BuildCompacted(fs, nextId, indexes, blockIds, items);
    if built.Err? {
      CompactionFails(m0, blockIds, indexes, nextId, items, kept);
      return Err(built.error);
    }
    var (indexes', blockIds', nextId') := built.value;
    CompactionSucceeds(m0, blockIds, indexes, nextId, items, kept, blocks, blockIds', indexes');
    KeptBelowNext(blockIds, kept, nextId, nextId');
    var _ := StoreBlockIds(fs, METADATA, blockIds');
    r := Ok((indexes', blockIds', nextId'));
  }

  /** The part of `compact_mem` that writes blocks: the blocks before the
      first one that may hold c0's first key stay registered, the rest are
      merged with c0 and written under fresh ids from nextId on. */
  method BuildCompacted(fs: FsImpl, nextId: nat, indexes: seq<seq<byte>>, blockIds: seq<u64>, items: seq<MemEntry>)
    returns (r: Result<(seq<seq<byte>>, seq<u64>, nat), string>, kept: nat, ghost blocks: seq<seq<Entry>>)
    requires |items| > 0 && |indexes| <= |blockIds|
    requires forall i :: 0 <= i < |blockIds| ==> blockIds[i] < nextId
    modifies fs
    ensures kept == KeptCount(items[0].0, indexes, 0) && kept <= |blockIds|
    ensures LoadAll(old(fs.Contents()), blockIds[kept..]).Err? <==> r.Err?
    ensures r.Err? ==> r.error == LoadAll(old(fs.Contents()), blockIds[kept..]).error
    ensures r.Ok? ==> LoadAll(old(fs.Contents()), blockIds[kept..]) == Ok(blocks)
    ensures r.Ok? ==> r.value.0 == KeptIndexes(indexes, kept) && r.value.1 == blockIds[..kept]
    ensures r.Ok? ==> var s := Stream(blocks, items);
                      (BlockCount(|s|) == 0 || 4 * (BlockCount(|s|) - 1) < |s|)
                      && r.value.2 == nextId + BlockCount(|s|)
                      && fs.Contents() == Written(old(fs.Contents()), s, nextId, BlockCount(|s|))
  {
    var b := new Builder(fs, nextId);
    kept := RegisterKept(b, items[0].0, indexes, blockIds);
    var merged;
    merged, blocks := MergeKeptOut(b, blockIds, kept, items);
    if merged.Err? {
      return Err(merged.error), kept, blocks;
    }
    WriteLiveRest(b, items, merged.value, blocks);
    r := b.Flush();
  }

  /** `compact_mem`'s second loop: every block from `kept` on is loaded and
      walked against c0.  The builder writes only blocks of ids from its
      start on, so the blocks it loads are the ones on disk before. */
  method MergeKeptOut(b: Builder, blockIds: seq<u64>, kept: nat, items: seq<MemEntry>)
    returns (r: Result<nat, string>, ghost blocks: seq<seq<Entry>>)
    requires kept <= |blockIds| && b.Valid() && b.stream == [] && b.fill == []
    requires forall i :: 0 <= i < |blockIds| ==> blockIds[i] < b.startId
    modifies b, b.fs
    ensures b.Valid() && |b.fill| < MAX_BLOCK_KV_NUM
    ensures b.blockIds == old(b.blockIds) && b.indexes == old(b.indexes)
    ensures LoadAll(b.disk0, blockIds[kept..]).Err? <==> r.Err?
    ensures r.Err? ==> r.error == LoadAll(b.disk0, blockIds[kept..]).error
    ensures r.Ok? ==> LoadAll(b.disk0, blockIds[kept..]) == Ok(blocks)
                      && MergeBlocks(blocks, items) == (b.stream, r.value)
  {
    var i := kept;
    var k := 0;
    ghost var m0 := b.disk0;
    blocks := [];
    assert blockIds[kept..kept] == [];
    while i < |blockIds|
      invariant kept <= i <= |blockIds|
      invariant LoadAll(m0, blockIds[kept..i]) == Ok(blocks)
      invariant MergeBlocks(blocks, items) == (b.stream, k)
      invariant b.Valid() && |b.fill| < MAX_BLOCK_KV_NUM
      invariant b.blockIds == old(b.blockIds) && b.indexes == old(b.indexes)
    {
      var merged, es := LoadAndMerge(b, blockIds[i], items, k);
      if merged.Err? {
        LoadAllStops(m0, blockIds, kept, i);
        return Err(merged.error), blocks;
      }
      k := merged.value;
      LoadAllSnoc(m0, blockIds, kept, i, blocks, es);
      MergeBlocksSnoc(blocks, es, items);
      blocks := blocks + [es];
      i := i + 1;
    }
    SliceToEnd(blockIds, kept, i);
    r := Ok(k);
  }

  /** One block of `compact_mem`'s second loop: it is loaded, as it was on
      disk before the builder started, and walked against c0 from k0 on. */
  method LoadAndMerge(b: Builder, id: u64, items: seq<MemEntry>, k0: nat)
    returns (r: Result<nat, string>, es: seq<Entry>)
    requires k0 <= |items| && b.Valid() && |b.fill| < MAX_BLOCK_KV_NUM && id < b.startId
    modifies b, b.fs
    ensures b.Valid() && |b.fill| < MAX_BLOCK_KV_NUM
    ensures b.blockIds == old(b.blockIds) && b.indexes == old(b.indexes)
    ensures LoadBlock(b.disk0, BlockName(id)).Err? <==> r.Err?
    ensures r.Err? ==> r.error == LoadBlock(b.disk0, BlockName(id)).error && b.stream == old(b.stream)
    ensures r.Ok? ==> LoadBlock(b.disk0, BlockName(id)) == Ok(es)
                      && b.stream == old(b.stream) + MergeBlock(es, 0, items, k0).0
                      && r.value == MergeBlock(es, 0, items, k0).1
  {
    var loaded := LoadBlockFile(b.fs, BlockName(id));
    b.KeepsOlderBlocks(id);
    if loaded.Err? {
      return Err(loaded.error), [];
    }
    es := loaded.value;
    var k := MergeLoadedBlock(b, es, items, k0);
    r := Ok(k);
  }

  /** `compact_mem`'s last loop: the c0 bindings not yet written go out, but
      tombstones do not. */
  method WriteLiveRest(b: Builder, items: seq<MemEntry>, k0: nat, ghost blocks: seq<seq<Entry>>)
    requires k0 <= |items| && b.Valid() && |b.fill| < MAX_BLOCK_KV_NUM
    requires MergeBlocks(blocks, items) == (b.stream, k0)
    modifies b, b.fs
    ensures b.Valid() && |b.fill| < MAX_BLOCK_KV_NUM
    ensures b.stream == Stream(blocks, items)
    ensures b.blockIds == old(b.blockIds) && b.indexes == old(b.indexes)
  {
    var k := k0;
    while k < |items|
      invariant k <= |items|
      invariant b.stream + LiveFrom(items, k) == Stream(blocks, items)
      invariant b.Valid() && |b.fill| < MAX_BLOCK_KV_NUM
      invariant b.blockIds == old(b.blockIds) && b.indexes == old(b.indexes)
    {
      ghost var before := b.stream;
      WriteLive(b, items[k]);
      ConcatAssoc3(before, Live(items[k]), LiveFrom(items, k + 1));
      k := k + 1;
    }
    assert b.stream + [] == b.stream;
  }

  /** One c0 binding let out: the pair is written, a tombstone is not. */
  method WriteLive(b: Builder, e: MemEntry)
    requires b.Valid() && |b.fill| < MAX_BLOCK_KV_NUM
    modifies b, b.fs
    ensures b.Valid() && |b.fill| < MAX_BLOCK_KV_NUM
    ensures b.stream == old(b.stream) + Live(e)
    ensures b.blockIds == old(b.blockIds) && b.indexes == old(b.indexes)
  {
    if e.1.Some? {
      var _ := b.WriteEntry(e.0, e.1.value);
    } else {
      assert b.stream + [] == b.stream;
    }
  }

  /** A registered block, with an id below the builder's first, is not among
      the files it writes. */
  lemma {:induction false} RegisteredUntouched(m0: map<seq<byte>, seq<byte>>, s: seq<Entry>, start: nat, c: nat, id: nat)
    requires c == 0 || 4 * (c - 1) < |s|
    requires id < start
    ensures LoadBlock(Written(m0, s, start, c), BlockName(id)) == LoadBlock(m0, BlockName(id))
  {
    forall t | start <= t < start + c ensures BlockName(id) != BlockName(t) {
      BlockNameInjective(id, t);
    }
    WrittenElsewhere(m0, s, start, c, BlockName(id));
  }

  /** A failed load stops the loading of all blocks with its error. */
  lemma {:induction false} LoadAllFails(m: map<seq<byte>, seq<byte>>, before: seq<u64>, id: u64, after: seq<u64>)
    requires LoadAll(m, before).Ok? && LoadBlock(m, BlockName(id)).Err?
    ensures LoadAll(m, before + [id] + after) == Err(LoadBlock(m, BlockName(id)).error)
    decreases |after|
  {
    if after == [] {
      assert before + [id] + after == before + [id];
      assert (before + [id])[..|before|] == before;
    } else {
      var all := before + [id] + after;
      var last := after[|after| - 1];
      assert all[..|all| - 1] == before + [id] + after[..|after| - 1];
      LoadAllFails(m, before, id, after[..|after| - 1]);
    }
  }

  /** The failure to load block i of ids[kept..] is the failure of loading them all. */
  lemma {:induction false} LoadAllStops(m: map<seq<byte>, seq<byte>>, ids: seq<u64>, kept: nat, i: nat)
    requires kept <= i < |ids|
    requires LoadAll(m, ids[kept..i]).Ok? && LoadBlock(m, BlockName(ids[i])).Err?
    ensures LoadAll(m, ids[kept..]) == Err(LoadBlock(m, BlockName(ids[i])).error)
  {
    var front, back := ids[kept..i], ids[i + 1..];
    LoadAllFails(m, front, ids[i], back);
    assert ids[kept..] == front + ([ids[i]] + back) by {
      assert ids[i..] == [ids[i]] + back;
      assert ids[kept..] == front + ids[i..];
    }
    ConcatAssoc3(front, [ids[i]], back);
  }

  lemma {:induction false} SliceToEnd<T>(s: seq<T>, lo: nat, i: nat)
    requires lo <= i == |s|
    ensures s[lo..] == s[lo..i]
  {
  }

  lemma {:induction false} LoadAllSnoc(m: map<seq<byte>, seq<byte>>, ids: seq<u64>, kept: nat, i: nat, bs: seq<seq<Entry>>, b: seq<Entry>)
    requires kept <= i < |ids|
    requires LoadAll(m, ids[kept..i]) == Ok(bs) && LoadBlock(m, BlockName(ids[i])) == Ok(b)
    ensures LoadAll(m, ids[kept..i + 1]) == Ok(bs + [b])
  {
    SliceSnoc(ids, kept, i);
    LoadAllAppend(m, ids[kept..i], ids[i], bs, b, ids[kept..i + 1]);
  }

  lemma SliceSnoc<T>(s: seq<T>, lo: nat, i: nat)
    requires lo <= i < |s|
    ensures s[lo..i + 1] == s[lo..i] + [s[i]]
  {
    assert s[lo..i + 1][i - lo] == s[i];
  }

  lemma LoadAllAppend(m: map<seq<byte>, seq<byte>>, ids: seq<u64>, id: u64, bs: seq<seq<Entry>>, b: seq<Entry>, all: seq<u64>)
    requires LoadAll(m, ids) == Ok(bs) && LoadBlock(m, BlockName(id)) == Ok(b) && all == ids + [id]
    ensures LoadAll(m, all) == Ok(bs + [b])
  {
    assert all[..|ids|] == ids;
  }

  lemma {:induction false} MergeBlocksSnoc(blocks: seq<seq<Entry>>, es: seq<Entry>, items: seq<MemEntry>)
    ensures var prev := MergeBlocks(blocks, items);
            var last := MergeBlock(es, 0, items, prev.1);
            MergeBlocks(blocks + [es], items) == (prev.0 + last.0, last.1)
  {
    assert (blocks + [es])[..|blocks|] == blocks;
  }

  /** `compact_mem`'s walk over one loaded block: block entries below the
      current c0 key are written, an equal one is skipped, a greater one
      lets the c0 binding out (if it is not a tombstone) and moves c0 on. */
  method MergeLoadedBlock(b: Builder, es: seq<Entry>, items: seq<MemEntry>, k0: nat) returns (k: nat)
    requires k0 <= |items| && b.Valid() && |b.fill| < MAX_BLOCK_KV_NUM
    modifies b, b.fs
    ensures b.Valid() && |b.fill| < MAX_BLOCK_KV_NUM
    ensures (b.stream, k) == (old(b.stream) + MergeBlock(es, 0, items, k0).0, MergeBlock(es, 0, items, k0).1)
    ensures b.indexes == old(b.indexes) && b.blockIds == old(b.blockIds)
  {
    var j := 0;
    k := k0;
    ghost var goal := MergeBlock(es, 0, items, k0);
    ghost var s0 := b.stream;
    assert s0 + goal.0 == old(b.stream) + goal.0;
    while k < |items|
      invariant k0 <= k <= |items| && j <= |es|
      invariant b.stream + MergeBlock(es, j, items, k).0 == s0 + goal.0
      invariant MergeBlock(es, j, items, k).1 == goal.1
      invariant b.Valid() && |b.fill| < MAX_BLOCK_KV_NUM
      invariant b.indexes == old(b.indexes) && b.blockIds == old(b.blockIds)
      decreases |items| - k
    {
      j := CopyBelow(b, es, j, items, k);
      if j >= |es| {
        break;
      }
      ghost var before := b.stream;
      WriteLive(b, items[k]);
      ConcatAssoc3(before, Live(items[k]), MergeBlock(es, j, items, k + 1).0);
      k := k + 1;
    }
    assert MergeBlock(es, j, items, k) == ([], k);
    assert b.stream + [] == b.stream;
  }

  /** The inner loop over one block: entries below the pending c0 key are
      written and an equal one is skipped, up to the first greater entry or
      the end of the block. */
  method CopyBelow(b: Builder, es: seq<Entry>, j0: nat, items: seq<MemEntry>, k: nat) returns (j: nat)
    requires j0 <= |es| && k < |items| && b.Valid() && |b.fill| < MAX_BLOCK_KV_NUM
    modifies b, b.fs
    ensures j0 <= j <= |es|
    ensures j < |es| ==> !LexLess(es[j].0, items[k].0) && es[j].0 != items[k].0
    ensures b.stream + MergeBlock(es, j, items, k).0 == old(b.stream) + MergeBlock(es, j0, items, k).0
    ensures MergeBlock(es, j, items, k).1 == MergeBlock(es, j0, items, k).1
    ensures b.Valid() && |b.fill| < MAX_BLOCK_KV_NUM
    ensures b.indexes == old(b.indexes) && b.blockIds == old(b.blockIds)
  {
    j := j0;
    ghost var goal := MergeBlock(es, j0, items, k);
    ghost var s0 := b.stream;
    while j < |es|
      invariant j0 <= j <= |es|
      invariant b.stream + MergeBlock(es, j, items, k).0 == s0 + goal.0
      invariant MergeBlock(es, j, items, k).1 == goal.1
      invariant b.Valid() && |b.fill| < MAX_BLOCK_KV_NUM
      invariant b.indexes == old(b.indexes) && b.blockIds == old(b.blockIds)
      decreases |es| - j
    {
      var e := es[j];
      if LexLess(e.0, items[k].0) {
        CopyEntry(b, es, j, items, k, s0 + goal.0);
      } else if e.0 == items[k].0 {
        assert MergeBlock(es, j, items, k) == MergeBlock(es, j + 1, items, k);
      } else {
        return;
      }
      j := j + 1;
    }
  }

  /** A block entry below the pending c0 key is written. */
  method CopyEntry(b: Builder, es: seq<Entry>, j: nat, items: seq<MemEntry>, k: nat, ghost target: seq<Entry>)
    requires j < |es| && k < |items| && LexLess(es[j].0, items[k].0)
    requires b.Valid() && |b.fill| < MAX_BLOCK_KV_NUM
    requires b.stream + MergeBlock(es, j, items, k).0 == target
    modifies b, b.fs
    ensures b.stream + MergeBlock(es, j + 1, items, k).0 == target
    ensures MergeBlock(es, j + 1, items, k).1 == MergeBlock(es, j, items, k).1
    ensures b.Valid() && |b.fill| < MAX_BLOCK_KV_NUM
    ensures b.indexes == old(b.indexes) && b.blockIds == old(b.blockIds)
  {
    var e := es[j];
    ghost var rest := MergeBlock(es, j + 1, items, k);
    assert MergeBlock(es, j, items, k) == ([e] + rest.0, rest.1);
    var _ := b.WriteEntry(e.0, e.1);
    assert b.stream == old(b.stream) + [e];
    ConcatAssoc3(old(b.stream), [e], rest.0);
  }

  // ---------------------------------------------------------------------------
  // The tree.

  /** `LsmTree`: the in-memory table c0 over the disk component c1. */
  class LsmTree {
    var c0: map<seq<byte>, Option<seq<byte>>>
    const c1: DiskComponent

    /** c0 never holds more than four bindings, and the disk component is
        consistent. */
    ghost predicate Valid()
      reads this, c1
    {
      |c0| <= MAX_MEM_KV_NUM && c1.Valid()
    }

    constructor(c1: DiskComponent)
      requires c1.Valid()
      ensures this.c1 == c1 && c0 == map[] && Valid()
    {
      this.c1 := c1;
      c0 := map[];
    }

    /** `load`: an empty c0 over the loaded disk component. */
    static method Load(fs: FsImpl) returns (r: Result<LsmTree, string>)
      modifies fs
      ensures fs.Contents() == WithMetadata(old(fs.Contents()))
      ensures var meta := LoadMetaFile(fs.Contents(), METADATA);
              (r.Ok? <==> meta.Ok?)
              && (r.Err? ==> r.error == meta.error)
              && (r.Ok? ==> fresh(r.value) && fresh(r.value.c1) && r.value.Valid() && r.value.c0 == map[]
                            && r.value.c1.fs == fs
                            && r.value.c1.blockIds == meta.value.0 && r.value.c1.indexes == meta.value.1
                            && r.value.c1.nextId == NextIdAfter(meta.value.0))
    {
      var c1 := DiskComponent.Load(fs);
      if c1.Err? {
        return Err(c1.error);
      }
      var t := new LsmTree(c1.value);
      r := Ok(t);
    }

    /** The first step of `insert_kv` on a full c0: c0 is compacted into c1,
        then cleared.  Here c0 is cleared first and put back if the
        compaction fails, which leaves the same states. */
    method CompactFull() returns (r: Result<(), string>)
      requires Valid() && |c0| >= MAX_MEM_KV_NUM
      modifies this, c1, c1.fs
      ensures Valid()
      ensures var res := Compaction(old(c1.fs.Contents()), old(c1.blockIds), old(c1.indexes), old(c1.nextId),
                                    MemItems(old(c0)));
              (r.Ok? <==> res.Ok?)
              && (r.Ok? ==> c0 == map[]
                            && c1.fs.Contents() == res.value.0 && c1.indexes == res.value.1
                            && c1.blockIds == res.value.2 && c1.nextId == res.value.3)
              && (r.Err? ==> r.error == res.error && c0 == old(c0) && unchanged(c1))
    {
      var full := c0;
      assert full != map[];
      ghost var m0 := c1.fs.Contents();
      c0 := map[];
      assert c1.fs.Contents() == m0;
      r := c1.CompactMem(full);
      if r.Err? {
        c0 := full;
      }
    }

    /** `insert_kv`: a full c0 is first compacted into c1 and cleared (what
        that writes is CompactFull's contract); then k is bound to v.  The
        answer says whether k was bound before, in the table after any
        clearing. */
    method InsertKv(k: seq<byte>, v: Option<seq<byte>>) returns (r: Result<bool, string>)
      requires Valid()
      modifies this, c1, c1.fs
      ensures Valid()
      ensures old(|c0|) < MAX_MEM_KV_NUM ==>
                r == Ok(k in old(c0)) && c0 == old(c0)[k := v]
                && unchanged(c1) && c1.fs.Contents() == old(c1.fs.Contents())
      ensures old(|c0|) >= MAX_MEM_KV_NUM ==>
                (r.Ok? ==> r.value == false && c0 == map[k := v])
                && (r.Err? ==> c0 == old(c0) && unchanged(c1))
    {
      if |c0| >= MAX_MEM_KV_NUM {
        var compacted := CompactFull();
        if compacted.Err? {
          return Err(compacted.error);
        }
      }
      r := Ok(k in c0);
      c0 := c0[k := v];
    }

    /** `insert`: binds k to v. */
    method Insert(k: seq<byte>, v: seq<byte>) returns (r: Result<bool, string>)
      requires Valid()
      modifies this, c1, c1.fs
      ensures Valid()
      ensures old(|c0|) < MAX_MEM_KV_NUM ==>
                r == Ok(k in old(c0)) && c0 == old(c0)[k := Some(v)] && unchanged(c1)
      ensures old(|c0|) >= MAX_MEM_KV_NUM && r.Ok? ==> c0 == map[k := Some(v)]
    {
      r := InsertKv(k, Some(v));
    }

    /** `remove`: binds k to a tombstone. */
    method Remove(k: seq<byte>) returns (r: Result<bool, string>)
      requires Valid()
      modifies this, c1, c1.fs
      ensures Valid()
      ensures old(|c0|) < MAX_MEM_KV_NUM ==>
                r == Ok(k in old(c0)) && c0 == old(c0)[k := None] && unchanged(c1)
      ensures old(|c0|) >= MAX_MEM_KV_NUM && r.Ok? ==> c0 == map[k := None]
    {
      r := InsertKv(k, None);
    }

    /** `search`: c0 answers for any key it binds (a tombstone as None);
        other keys go to the disk component. */
    method Search(k: seq<byte>) returns (r: Result<Option<seq<byte>>, string>)
      requires k !in c0 ==> c1.blockIds == [] || Slot(c1.indexes, k) < |c1.blockIds|
      ensures k in c0 ==> r == Ok(c0[k])
      ensures k !in c0 ==> r == DiskSearch(c1.fs.Contents(), c1.indexes, c1.blockIds, k)
    {
      if k in c0 {
        return Ok(c0[k]);
      }
      r := c1.Search(k);
    }
  }

  /** `test_new_table`: a table loaded on an empty file system, with "a"
      bound to "0" and "b" to "1", answers "0" for "a" and nothing for "c". */
  method NewTable() returns (a: Result<Option<seq<byte>>, string>, c: Result<Option<seq<byte>>, string>)
    ensures a == Ok(Some([48])) && c == Ok(None)
  {
    var fs := new FsImpl();
    assert fs.Contents() == map[];
    var empty: seq<byte> := [];
    assert ReadU64At(empty, 0).0 == Err("EOF");
    assert LoadMeta(empty, 0, map[METADATA := empty], false) == Ok(([], []));
    var loaded := LsmTree.Load(fs);
    var t := loaded.value;
    var _ := t.Insert([97], [48]);
    var _ := t.Insert([98], [49]);
    a := t.Search([97]);
    c := t.Search([99]);
  }
}
