/** Compaction of regular/src/lsm.rs as evidently intended.  The model in
    lsm.dfy follows `compact_mem` as written; three of its steps lose data
    or break `search`:
    - `write_fill_block` (lsm.rs:82-87) writes a block but never calls
      `add_block`, so no newly written block is registered;
    - the merge loop (lsm.rs:175-192) stops when c0 runs out, so the rest of
      the block being merged, and every later block, is not written again;
    - the kept blocks are registered with `""` in front and `indexes[i]` for
      block i (lsm.rs:167), while `load_block_ids` (lsm.rs:119-121) and
      `search` (lsm.rs:219-225) read `indexes[i]` as the first key of block
      i + 1.
    Here each step is corrected, and `search` after a compaction into an
    empty disk component is proved to answer exactly what c0 held. */
module LsmFixed {
  import opened Base
  import opened MemFs
  import opened IoUtil
  import opened Lsm

  // ---------------------------------------------------------------------------
  // The merge, copying what is left of the blocks once c0 runs out.

  /** The walk over one block from entry j and c0 item k, as `MergeBlock`,
      except that once c0 runs out the rest of the block is copied. */
  function MergeBlockFull(es: seq<Entry>, j: nat, items: seq<MemEntry>, k: nat): (r: (seq<Entry>, nat))
    requires j <= |es| && k <= |items|
    ensures k <= r.1 <= |items|
    decreases |es| - j + |items| - k
  {
    if j >= |es| then ([], k)
    else if k >= |items| then (es[j..], k)
    else if LexLess(es[j].0, items[k].0) then
      var rest := MergeBlockFull(es, j + 1, items, k);
      ([es[j]] + rest.0, rest.1)
    else if es[j].0 == items[k].0 then MergeBlockFull(es, j + 1, items, k)
    else
      var rest := MergeBlockFull(es, j, items, k + 1);
      (Live(items[k]) + rest.0, rest.1)
  }

  function MergeBlocksFull(blocks: seq<seq<Entry>>, items: seq<MemEntry>): (r: (seq<Entry>, nat))
    ensures r.1 <= |items|
  {
    if blocks == [] then ([], 0)
    else
      var prev := MergeBlocksFull(blocks[..|blocks| - 1], items);
      var last := MergeBlockFull(blocks[|blocks| - 1], 0, items, prev.1);
      (prev.0 + last.0, last.1)
  }

  /** Every entry the corrected compaction hands to the builder, in order. */
  function StreamFull(blocks: seq<seq<Entry>>, items: seq<MemEntry>): seq<Entry>
  {
    var walked := MergeBlocksFull(blocks, items);
    walked.0 + LiveFrom(items, walked.1)
  }

  /** The input on which the merge as written loses an entry: the corrected
      merge writes both the c0 binding and the greater block entry. */
  lemma MergeKeepsTail(low: seq<byte>, high: seq<byte>, v: seq<byte>, w: seq<byte>)
    requires LexLess(low, high)
    ensures StreamFull([[(high, v)]], [(low, Some(w))]) == [(low, w), (high, v)]
  {
    var es := [(high, v)];
    var items := [(low, Some(w))];
    LexLessAsymmetric(low, high);
    assert es[0..] == es;
    assert MergeBlockFull(es, 0, items, 1) == ([(high, v)], 1);
    assert !LexLess(es[0].0, items[0].0) && es[0].0 != items[0].0;
    assert Live(items[0]) == [(low, w)];
    assert [(low, w)] + [(high, v)] == [(low, w), (high, v)];
    assert MergeBlockFull(es, 0, items, 0) == ([(low, w), (high, v)], 1);
    var none: seq<seq<Entry>> := [];
    assert [es][..0] == none;
    assert MergeBlocksFull(none, items) == ([], 0);
    var nothing: seq<Entry> := [];
    assert nothing + [(low, w), (high, v)] == [(low, w), (high, v)];
    assert MergeBlocksFull([es], items) == ([(low, w), (high, v)], 1);
    assert LiveFrom(items, 1) == [];
    assert [(low, w), (high, v)] + nothing == [(low, w), (high, v)];
  }

  /** The walk over one block loses nothing: a block entry whose key no
      pending c0 item binds is written, and so is every live c0 item the walk
      lets out. */
  lemma {:induction false} MergeBlockFullKeeps(es: seq<Entry>, j: nat, items: seq<MemEntry>, k: nat)
    requires j <= |es| && k <= |items|
    ensures var r := MergeBlockFull(es, j, items, k);
            forall x :: j <= x < |es| && (forall i :: k <= i < |items| ==> items[i].0 != es[x].0) ==> es[x] in r.0
    ensures var r := MergeBlockFull(es, j, items, k);
            forall i :: k <= i < r.1 && items[i].1.Some? ==> (items[i].0, items[i].1.value) in r.0
    decreases |es| - j + |items| - k
  {
    var r := MergeBlockFull(es, j, items, k);
    if j >= |es| {
    } else if k >= |items| {
      forall x | j <= x < |es| ensures es[x] in r.0 {
        assert es[x] == es[j..][x - j];
      }
    } else if LexLess(es[j].0, items[k].0) {
      MergeBlockFullKeeps(es, j + 1, items, k);
    } else if es[j].0 == items[k].0 {
      MergeBlockFullKeeps(es, j + 1, items, k);
    } else {
      MergeBlockFullKeeps(es, j, items, k + 1);
      var rest := MergeBlockFull(es, j, items, k + 1);
      assert r.0 == Live(items[k]) + rest.0;
      if items[k].1.Some? {
        assert r.0[0] == (items[k].0, items[k].1.value);
      }
    }
  }

  /** The corrected stream loses nothing: every block entry whose key c0
      does not bind, and every live c0 binding, is written. */
  lemma {:induction false} StreamFullKeeps(blocks: seq<seq<Entry>>, items: seq<MemEntry>)
    ensures forall b, x :: 0 <= b < |blocks| && 0 <= x < |blocks[b]|
              && (forall i :: 0 <= i < |items| ==> items[i].0 != blocks[b][x].0)
              ==> blocks[b][x] in StreamFull(blocks, items)
    ensures forall i :: 0 <= i < |items| && items[i].1.Some? ==> (items[i].0, items[i].1.value) in StreamFull(blocks, items)
  {
    MergeBlocksFullKeeps(blocks, items);
    var walked := MergeBlocksFull(blocks, items);
    LiveFromKeeps(items, walked.1);
  }

  lemma {:induction false} MergeBlocksFullKeeps(blocks: seq<seq<Entry>>, items: seq<MemEntry>)
    ensures var r := MergeBlocksFull(blocks, items);
            forall b, x :: 0 <= b < |blocks| && 0 <= x < |blocks[b]|
              && (forall i :: 0 <= i < |items| ==> items[i].0 != blocks[b][x].0)
              ==> blocks[b][x] in r.0
    ensures var r := MergeBlocksFull(blocks, items);
            forall i :: 0 <= i < r.1 && items[i].1.Some? ==> (items[i].0, items[i].1.value) in r.0
    decreases |blocks|
  {
    if blocks != [] {
      var init := blocks[..|blocks| - 1];
      var es := blocks[|blocks| - 1];
      MergeBlocksFullKeeps(init, items);
      var prev := MergeBlocksFull(init, items);
      MergeBlockFullKeeps(es, 0, items, prev.1);
      var r := MergeBlocksFull(blocks, items);
      forall b, x | 0 <= b < |blocks| && 0 <= x < |blocks[b]|
          && (forall i :: 0 <= i < |items| ==> items[i].0 != blocks[b][x].0)
        ensures blocks[b][x] in r.0
      {
        if b < |blocks| - 1 {
          assert blocks[b] == init[b];
        }
      }
    }
  }

  /** The live items from k on are all there. */
  lemma {:induction false} LiveFromKeeps(items: seq<MemEntry>, k: nat)
    requires k <= |items|
    ensures forall i :: k <= i < |items| && items[i].1.Some? ==> (items[i].0, items[i].1.value) in LiveFrom(items, k)
    decreases |items| - k
  {
    if k < |items| {
      LiveFromKeeps(items, k + 1);
    }
  }

  // ---------------------------------------------------------------------------
  // Registering the blocks, and indexes paired with them.

  /** The ids of c blocks written from id next on. */
  function NewIds(next: nat, c: nat): seq<u64>
    requires next + c <= U64_LIMIT
  {
    seq(c, t requires 0 <= t < c => (next + t) as u64)
  }

  /** The first keys of the blocks cut from stream s, from block `from` on. */
  function FirstKeys(s: seq<Entry>, c: nat, from: nat): seq<seq<byte>>
    requires from <= c && (c == 0 || 4 * (c - 1) < |s|)
  {
    seq(c - from, t requires 0 <= t < c - from => s[4 * (from + t)].0)
  }

  /** The indexes after a corrected compaction, in the convention of
      `load_block_ids` and `search`: one per block after the first, that
      block's first key.  Index j of the old component is the first key of
      block j + 1, so the kept blocks contribute the first kept - 1. */
  function FixedIndexes(idx: seq<seq<byte>>, kept: nat, s: seq<Entry>, c: nat): seq<seq<byte>>
    requires kept <= |idx| + 1 && (c == 0 || 4 * (c - 1) < |s|)
  {
    if kept > 0 then idx[..kept - 1] + FirstKeys(s, c, 0)
    else if c > 0 then FirstKeys(s, c, 1)
    else []
  }

  /** `compact_mem` corrected: the merge copies the blocks' remaining
      entries, every new block is registered under its id, and the indexes
      are the first keys of the blocks after the first.  A block id past
      2^64 - 1 is an error (`next_id += 1` would overflow).  After success
      there is one index per block after the first, and the metadata lists
      every block. */
  ghost function CompactionFixed(m0: map<seq<byte>, seq<byte>>, ids: seq<u64>, idx: seq<seq<byte>>, next: nat,
                                 items: seq<MemEntry>)
    : (r: Result<(map<seq<byte>, seq<byte>>, seq<seq<byte>>, seq<u64>, nat), string>)
    requires |items| > 0 && |idx| <= |ids|
    ensures r.Ok? ==> (r.value.2 == [] && r.value.1 == []) || |r.value.1| + 1 == |r.value.2|
    ensures r.Ok? ==> METADATA in r.value.0 && r.value.0[METADATA] == EncodeIds(r.value.2)
    ensures r.Ok? ==> next <= r.value.3 && |r.value.2| == KeptCount(items[0].0, idx, 0) + (r.value.3 - next)
    ensures r.Ok? ==> var kept := |r.value.2| - (r.value.3 - next);
              forall i :: kept <= i < |r.value.2| ==> r.value.2[i] as int == next + (i - kept)
  {
    var kept := KeptCount(items[0].0, idx, 0);
    match LoadAll(m0, ids[kept..])
    case Err(e) => Err(e)
    case Ok(blocks) =>
      var s := StreamFull(blocks, items);
      var c := BlockCount(|s|);
      BlockCountBound(|s|);
      if next + c > U64_LIMIT then Err("block id overflow")
      else
        var ids' := ids[..kept] + NewIds(next, c);
        Ok((Written(m0, s, next, c)[METADATA := EncodeIds(ids')], FixedIndexes(idx, kept, s, c), ids', next + c))
  }

  // ---------------------------------------------------------------------------
  // Search after a corrected compaction into an empty disk component.

  /** Equal keys in a strictly sorted sequence sit at the same place. */
  lemma KeysDistinct(keys: seq<seq<byte>>, a: nat, b: nat)
    requires StrictlySorted(keys) && a < |keys| && b < |keys| && keys[a] == keys[b]
    ensures a == b
  {
    if a != b {
      LexLessIrreflexive(keys[a]);
    }
  }

  /** Entries in strictly ascending key order. */
  ghost predicate EntriesSorted(es: seq<Entry>)
  {
    forall i, j :: 0 <= i < j < |es| ==> LexLess(es[i].0, es[j].0)
  }

  lemma SortedKeys(es: seq<Entry>)
    requires EntriesSorted(es)
    ensures StrictlySorted(Keys(es))
  {
    forall i, j | 0 <= i < j < |es| ensures LexLess(Keys(es)[i], Keys(es)[j]) {
      assert Keys(es)[i] == es[i].0 && Keys(es)[j] == es[j].0;
    }
  }

  lemma ConsSorted(h: Entry, rest: seq<Entry>)
    requires EntriesSorted(rest) && forall j :: 0 <= j < |rest| ==> LexLess(h.0, rest[j].0)
    ensures EntriesSorted([h] + rest)
  {
    var l := [h] + rest;
    forall i, j | 0 <= i < j < |l| ensures LexLess(l[i].0, l[j].0) {
      assert l[j] == rest[j - 1];
      if i > 0 {
        assert l[i] == rest[i - 1];
      }
    }
  }

  /** Some c0 item from k on binds e's key to e's value. */
  ghost predicate Origin(items: seq<MemEntry>, k: nat, e: Entry)
  {
    exists i :: k <= i < |items| && items[i] == (e.0, Some(e.1))
  }

  /** Every entry of the live c0 items comes from an item binding it. */
  lemma {:induction false} LiveFromOrigin(items: seq<MemEntry>, k: nat)
    requires k <= |items|
    ensures forall p :: 0 <= p < |LiveFrom(items, k)| ==> Origin(items, k, LiveFrom(items, k)[p])
    decreases |items| - k
  {
    if k < |items| {
      LiveFromOrigin(items, k + 1);
      var rest := LiveFrom(items, k + 1);
      var l := LiveFrom(items, k);
      if items[k].1.Some? {
        assert l == [(items[k].0, items[k].1.value)] + rest;
        forall p | 0 <= p < |l| ensures Origin(items, k, l[p]) {
          if p > 0 {
            assert l[p] == rest[p - 1];
            var i :| k + 1 <= i < |items| && items[i] == (rest[p - 1].0, Some(rest[p - 1].1));
          } else {
            assert items[k] == (l[0].0, Some(l[0].1));
          }
        }
      } else {
        assert l == rest;
      }
    }
  }

  /** The live c0 items, sorted by key, give a sorted stream. */
  lemma {:induction false} LiveFromSorted(items: seq<MemEntry>, k: nat)
    requires k <= |items|
    requires forall i, j :: k <= i < j < |items| ==> LexLess(items[i].0, items[j].0)
    ensures EntriesSorted(LiveFrom(items, k))
    decreases |items| - k
  {
    if k < |items| {
      LiveFromSorted(items, k + 1);
      LiveFromOrigin(items, k + 1);
      var rest := LiveFrom(items, k + 1);
      if items[k].1.Some? {
        forall j | 0 <= j < |rest| ensures LexLess(items[k].0, rest[j].0) {
          assert Origin(items, k + 1, rest[j]);
          var x :| k + 1 <= x < |items| && items[x] == (rest[j].0, Some(rest[j].1));
        }
        ConsSorted((items[k].0, items[k].1.value), rest);
        assert LiveFrom(items, k) == [(items[k].0, items[k].1.value)] + rest;
      } else {
        assert LiveFrom(items, k) == rest;
      }
    }
  }

  /** The corrected indexes of a stream of several blocks are sorted. */
  lemma FirstKeysSorted(s: seq<Entry>, c: nat)
    requires StrictlySorted(Keys(s)) && 0 < c && 4 * (c - 1) < |s|
    ensures StrictlySorted(FirstKeys(s, c, 1))
  {
    var idx := FirstKeys(s, c, 1);
    forall i, j | 0 <= i < j < |idx| ensures LexLess(idx[i], idx[j]) {
      assert idx[i] == Keys(s)[4 * (1 + i)] && idx[j] == Keys(s)[4 * (1 + j)];
    }
  }

  /** A block of a sorted, storable stream is sorted and storable, and holds
      the stream's entries from four times its number on. */
  lemma ChunkOf(s: seq<Entry>, t: nat)
    requires StrictlySorted(Keys(s)) && StorableEntries(s) && 4 * t < |s|
    ensures StrictlySorted(Keys(Chunk(s, t))) && StorableEntries(Chunk(s, t))
    ensures |Chunk(s, t)| == (if 4 * t + 4 <= |s| then 4 else |s| - 4 * t)
    ensures forall i :: 0 <= i < |Chunk(s, t)| ==> Chunk(s, t)[i] == s[4 * t + i]
  {
    var ch := Chunk(s, t);
    forall i, j | 0 <= i < j < |ch| ensures LexLess(Keys(ch)[i], Keys(ch)[j]) {
      assert Keys(ch)[i] == Keys(s)[4 * t + i] && Keys(ch)[j] == Keys(s)[4 * t + j];
    }
  }

  /** With the corrected indexes, `search` picks the block that holds the
      key, if any does. */
  lemma ChunkOfKey(s: seq<Entry>, c: nat, k: seq<byte>, p: nat)
    requires StrictlySorted(Keys(s)) && 0 < c && 4 * (c - 1) < |s| <= 4 * c
    requires p < |s| && s[p].0 == k
    ensures 4 * Slot(FirstKeys(s, c, 1), k) <= p < 4 * Slot(FirstKeys(s, c, 1), k) + 4
  {
    var idx := FirstKeys(s, c, 1);
    FirstKeysSorted(s, c);
    SlotCounts(idx, k);
    var t := Slot(idx, k);
    if p < 4 * t {
      assert LexLe(idx[t - 1], k);
      assert idx[t - 1] == Keys(s)[4 * t];
      assert LexLess(Keys(s)[p], Keys(s)[4 * t]);
      LexLessAsymmetric(k, idx[t - 1]);
    }
    if 4 * t + 4 <= p {
      assert LexLess(k, idx[t]);
      assert idx[t] == Keys(s)[4 * t + 4];
      if 4 * t + 4 < p {
        assert LexLess(Keys(s)[4 * t + 4], Keys(s)[p]);
        LexLessAsymmetric(k, idx[t]);
      } else {
        LexLessIrreflexive(k);
      }
    }
  }

  /** Block t of the written stream loads back under its registered id. */
  lemma LoadWrittenBlock(m0: map<seq<byte>, seq<byte>>, s: seq<Entry>, next: nat, c: nat, ids': seq<u64>,
                         m': map<seq<byte>, seq<byte>>, t: nat)
    requires (c == 0 || 4 * (c - 1) < |s|) && next + c <= U64_LIMIT && t < c && 4 * t < |s|
    requires StorableEntries(Chunk(s, t))
    requires ids' == NewIds(next, c) && m' == Written(m0, s, next, c)[METADATA := EncodeIds(ids')]
    ensures LoadBlock(m', BlockName(ids'[t])) == Ok(Chunk(s, t))
  {
    var ch := Chunk(s, t);
    WrittenBlock(m0, s, next, c, t);
    BlockNameInjective(next + t, next + t);
    assert ids'[t] as int == next + t;
    assert m'[BlockName(next + t)] == EncodeBlock(ch);
    BlockRoundTrip([], ch);
    assert [] + EncodeBlock(ch) == EncodeBlock(ch);
  }

  /** A key sits at one place in a strictly sorted stream. */
  lemma EntryAt(s: seq<Entry>, a: nat, b: nat)
    requires StrictlySorted(Keys(s)) && a < |s| && b < |s| && s[a].0 == s[b].0
    ensures a == b
  {
    assert Keys(s)[a] == Keys(s)[b];
    KeysDistinct(Keys(s), a, b);
  }

  /** Searching a sorted block finds the binding of a key it holds. */
  lemma BlockAnswer(ch: seq<Entry>, k: seq<byte>, q: nat)
    requires StrictlySorted(Keys(ch)) && q < |ch| && ch[q].0 == k
    ensures BlockSearch(ch, k) == Some(ch[q].1)
  {
    BlockSearchComplete(ch, k);
    var v := BlockSearch(ch, k).value;
    var i :| 0 <= i < |ch| && ch[i] == (k, v);
    EntryAt(ch, i, q);
  }

  /** Searching a sorted block cut from a stream finds nothing for a key
      the stream lacks. */
  lemma BlockAnswerNone(s: seq<Entry>, ch: seq<Entry>, lo: nat, k: seq<byte>)
    requires StrictlySorted(Keys(ch)) && lo + |ch| <= |s|
    requires forall i :: 0 <= i < |ch| ==> ch[i] == s[lo + i]
    requires forall p :: 0 <= p < |s| ==> s[p].0 != k
    ensures BlockSearch(ch, k) == None
  {
    BlockSearchComplete(ch, k);
    forall i | 0 <= i < |ch| ensures ch[i].0 != k {
      assert ch[i] == s[lo + i];
    }
  }

  /** The block the corrected indexes pick for a key the stream holds
      answers that key's binding. */
  lemma ChunkHasKey(s: seq<Entry>, c: nat, t: nat, k: seq<byte>, p: nat)
    requires StrictlySorted(Keys(s)) && StorableEntries(s)
    requires 0 < c && 4 * (c - 1) < |s| <= 4 * c
    requires t == Slot(FirstKeys(s, c, 1), k)
    requires p < |s| && s[p].0 == k
    ensures 4 * t < |s| && BlockSearch(Chunk(s, t), k) == Some(s[p].1)
  {
    ChunkOfKey(s, c, k, p);
    ChunkOf(s, t);
    assert Chunk(s, t)[p - 4 * t] == s[p];
    BlockAnswer(Chunk(s, t), k, p - 4 * t);
  }

  /** No block of a stream holds a key the stream lacks. */
  lemma ChunkLacksKey(s: seq<Entry>, t: nat, k: seq<byte>)
    requires StrictlySorted(Keys(s)) && StorableEntries(s) && 4 * t < |s|
    requires forall p :: 0 <= p < |s| ==> s[p].0 != k
    ensures BlockSearch(Chunk(s, t), k) == None
  {
    ChunkOf(s, t);
    BlockAnswerNone(s, Chunk(s, t), 4 * t, k);
  }

  /** The block the corrected indexes pick for k answers as the whole
      stream does. */
  lemma StreamAnswer(s: seq<Entry>, c: nat, t: nat, k: seq<byte>)
    requires StrictlySorted(Keys(s)) && StorableEntries(s)
    requires 0 < c && 4 * (c - 1) < |s| <= 4 * c
    requires t == Slot(FirstKeys(s, c, 1), k)
    ensures t < c && 4 * t < |s|
    ensures forall p :: 0 <= p < |s| && s[p].0 == k ==> BlockSearch(Chunk(s, t), k) == Some(s[p].1)
    ensures (forall p :: 0 <= p < |s| ==> s[p].0 != k) ==> BlockSearch(Chunk(s, t), k) == None
  {
    assert 4 * t < |s|;
    forall p | 0 <= p < |s| && s[p].0 == k ensures BlockSearch(Chunk(s, t), k) == Some(s[p].1) {
      ChunkHasKey(s, c, t, k, p);
    }
    if forall p :: 0 <= p < |s| ==> s[p].0 != k {
      ChunkLacksKey(s, t, k);
    }
  }

  /** After a sorted, storable stream is written to blocks from id next on
      and registered with the corrected ids and indexes, `search` answers
      the stream's binding for every key, and nothing for a key it lacks. */
  lemma SearchWrittenStream(m0: map<seq<byte>, seq<byte>>, s: seq<Entry>, next: nat, c: nat, ids': seq<u64>,
                            idx': seq<seq<byte>>, m': map<seq<byte>, seq<byte>>, k: seq<byte>)
    requires StrictlySorted(Keys(s)) && StorableEntries(s)
    requires (c == 0 || 4 * (c - 1) < |s|) && |s| <= 4 * c && next + c <= U64_LIMIT
    requires ids' == NewIds(next, c) && idx' == FixedIndexes([], 0, s, c)
    requires m' == Written(m0, s, next, c)[METADATA := EncodeIds(ids')]
    ensures ids' == [] || Slot(idx', k) < |ids'|
    ensures forall p :: 0 <= p < |s| && s[p].0 == k ==> DiskSearch(m', idx', ids', k) == Ok(Some(s[p].1))
    ensures (forall p :: 0 <= p < |s| ==> s[p].0 != k) ==> DiskSearch(m', idx', ids', k) == Ok(None)
  {
    if c > 0 {
      assert idx' == FirstKeys(s, c, 1);
      var t := Slot(idx', k);
      StreamAnswer(s, c, t, k);
      ChunkOf(s, t);
      LoadWrittenBlock(m0, s, next, c, ids', m', t);
      assert DiskSearch(m', idx', ids', k) == Ok(BlockSearch(Chunk(s, t), k));
    }
  }

  /** Into an empty disk component, the corrected compaction writes the
      live c0 items as they are. */
  lemma CompactionIntoEmpty(m0: map<seq<byte>, seq<byte>>, next: nat, items: seq<MemEntry>)
    requires |items| > 0 && CompactionFixed(m0, [], [], next, items).Ok?
    ensures var s := LiveFrom(items, 0); var c := BlockCount(|s|);
            (c == 0 || 4 * (c - 1) < |s|) && |s| <= 4 * c && next + c <= U64_LIMIT
            && var r := CompactionFixed(m0, [], [], next, items).value;
               r.0 == Written(m0, s, next, c)[METADATA := EncodeIds(NewIds(next, c))]
               && r.1 == FixedIndexes([], 0, s, c) && r.2 == NewIds(next, c)
  {
    var noIds: seq<u64> := [];
    var noBlocks: seq<seq<Entry>> := [];
    assert KeptCount(items[0].0, [], 0) == 0;
    assert noIds[0..] == noIds && LoadAll(m0, noIds) == Ok(noBlocks);
    var s := StreamFull(noBlocks, items);
    assert MergeBlocksFull(noBlocks, items) == ([], 0);
    assert s == LiveFrom(items, 0);
    BlockCountBound(|s|);
    var c := BlockCount(|s|);
    assert noIds[..0] + NewIds(next, c) == NewIds(next, c);
  }

  /** The live c0 items form a sorted, storable stream of c0's bindings. */
  lemma LiveStream(c0: map<seq<byte>, Option<seq<byte>>>)
    requires forall key :: key in c0 ==> Storable(key) && (c0[key].Some? ==> Storable(c0[key].value))
    ensures var s := LiveFrom(MemItems(c0), 0);
            StrictlySorted(Keys(s)) && StorableEntries(s)
            && forall p :: 0 <= p < |s| ==> s[p].0 in c0 && c0[s[p].0] == Some(s[p].1)
  {
    var items := MemItems(c0);
    var s := LiveFrom(items, 0);
    MemItemsSorted(c0);
    LiveFromSorted(items, 0);
    SortedKeys(s);
    LiveFromOrigin(items, 0);
    forall p | 0 <= p < |s| ensures s[p].0 in c0 && c0[s[p].0] == Some(s[p].1) {
      assert Origin(items, 0, s[p]);
      var i :| 0 <= i < |items| && items[i] == (s[p].0, Some(s[p].1));
    }
  }

  /** Every live c0 binding is in the stream. */
  lemma LiveHas(c0: map<seq<byte>, Option<seq<byte>>>, k: seq<byte>)
    requires k in c0 && c0[k].Some?
    ensures exists p :: 0 <= p < |LiveFrom(MemItems(c0), 0)| && LiveFrom(MemItems(c0), 0)[p] == (k, c0[k].value)
  {
    var items := MemItems(c0);
    LiveFromKeeps(items, 0);
    MemItemsComplete(c0, k);
    var i :| 0 <= i < |items| && items[i].0 == k;
    assert (k, c0[k].value) in LiveFrom(items, 0);
  }

  /** An answer that agrees with a stream of c0's live bindings for every
      key is c0's answer. */
  lemma AnswerOfStream(s: seq<Entry>, c0: map<seq<byte>, Option<seq<byte>>>, k: seq<byte>,
                       ans: Result<Option<seq<byte>>, string>)
    requires forall p :: 0 <= p < |s| ==> s[p].0 in c0 && c0[s[p].0] == Some(s[p].1)
    requires k in c0 && c0[k].Some? ==> exists p :: 0 <= p < |s| && s[p] == (k, c0[k].value)
    requires forall p :: 0 <= p < |s| && s[p].0 == k ==> ans == Ok(Some(s[p].1))
    requires (forall p :: 0 <= p < |s| ==> s[p].0 != k) ==> ans == Ok(None)
    ensures ans == Ok(if k in c0 then c0[k] else None)
  {
    if k in c0 && c0[k].Some? {
      var p :| 0 <= p < |s| && s[p] == (k, c0[k].value);
    }
  }

  /** The corrected compaction of a non-empty c0 into an empty disk
      component: `search` then answers, for every key, exactly what c0 bound
      it to, and nothing for a tombstone or an absent key. */
  lemma SearchAfterCompaction(m0: map<seq<byte>, seq<byte>>, next: nat, c0: map<seq<byte>, Option<seq<byte>>>,
                              k: seq<byte>)
    requires |c0| > 0
    requires forall key :: key in c0 ==> Storable(key) && (c0[key].Some? ==> Storable(c0[key].value))
    requires CompactionFixed(m0, [], [], next, MemItems(c0)).Ok?
    ensures var r := CompactionFixed(m0, [], [], next, MemItems(c0)).value;
            (r.2 == [] || Slot(r.1, k) < |r.2|) && DiskSearch(r.0, r.1, r.2, k) == Ok(if k in c0 then c0[k] else None)
  {
    var s := LiveFrom(MemItems(c0), 0);
    CompactionIntoEmpty(m0, next, MemItems(c0));
    LiveStream(c0);
    var r := CompactionFixed(m0, [], [], next, MemItems(c0)).value;
    SearchWrittenStream(m0, s, next, BlockCount(|s|), r.2, r.1, r.0, k);
    if k in c0 && c0[k].Some? {
      LiveHas(c0, k);
    }
    AnswerOfStream(s, c0, k, DiskSearch(r.0, r.1, r.2, k));
  }
}
