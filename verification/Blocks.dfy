/** Record blocks (internal/storage/master_data_blocks.go): grouping an entity's
    records by key, last one wins, and cutting them into bounded blocks sorted
    by block sort key. The JSON and zstd encoding of a block is an inverse pair
    and is left as the entry list itself. */
module Blocks {
  import opened Text
  import opened BlockSortKeys

  /** masterBlockMaxRecords and masterBlockMaxBytes. */
  const MAX_RECORDS := 32
  const MAX_BYTES := 65536

  /** blockEntry: a record key with the record stored last under it and every
      position it occupies in source order. */
  datatype Entry = Entry(key: string, positions: seq<nat>, record: string) {
    function SortKey(): string {
      BlockSortKey(key)
    }
  }

  datatype Block = Block(firstKey: string, entries: seq<Entry>)

  // ---------------------------------------------------------------- specification

  /** The plain list of (key, record) pairs read as a last-wins map. */
  function LastRecord(keys: seq<string>, records: seq<string>, key: string): Option<string>
    requires |keys| == |records|
  {
    if keys == [] then None
    else
      var n := |keys| - 1;
      if keys[n] == key then Some(records[n]) else LastRecord(keys[..n], records[..n], key)
  }

  function PositionsOf(keys: seq<string>, key: string): seq<nat> {
    if keys == [] then []
    else
      var n := |keys| - 1;
      PositionsOf(keys[..n], key) + if keys[n] == key then [n] else []
  }

  predicate EntryFor(e: Entry, keys: seq<string>, records: seq<string>)
    requires |keys| == |records|
  {
    e.key in keys && e.positions == PositionsOf(keys, e.key) && LastRecord(keys, records, e.key) == Some(e.record)
  }

  predicate DistinctKeys(entries: seq<Entry>) {
    forall i, j :: 0 <= i < j < |entries| ==> entries[i].key != entries[j].key
  }

  /** One entry per key of the list, each with the key's last record. */
  ghost predicate Grouped(entries: seq<Entry>, keys: seq<string>, records: seq<string>)
    requires |keys| == |records|
  {
    && DistinctKeys(entries)
    && (forall i :: 0 <= i < |entries| ==> EntryFor(entries[i], keys, records))
    && (forall key :: key in keys ==> HasEntry(entries, key))
  }

  predicate HasEntry(entries: seq<Entry>, key: string) {
    exists i :: 0 <= i < |entries| && entries[i].key == key
  }

  lemma {:induction false} PositionsExact(keys: seq<string>, key: string)
    ensures forall p :: p in PositionsOf(keys, key) <==> 0 <= p < |keys| && keys[p] == key
    ensures forall i, j :: 0 <= i < j < |PositionsOf(keys, key)| ==> PositionsOf(keys, key)[i] < PositionsOf(keys, key)[j]
  {
    if keys != [] {
      PositionsExact(keys[..|keys| - 1], key);
      var front := PositionsOf(keys[..|keys| - 1], key);
      assert forall i :: 0 <= i < |front| ==> front[i] in front;
    }
  }

  lemma {:induction false} LastRecordPresent(keys: seq<string>, records: seq<string>, key: string)
    requires |keys| == |records|
    ensures LastRecord(keys, records, key).Some? <==> key in keys
  {
    if keys != [] {
      var n := |keys| - 1;
      LastRecordPresent(keys[..n], records[..n], key);
      assert keys == keys[..n] + [keys[n]];
    }
  }

  /** The record a key has is the one at its last place in the list. */
  lemma {:induction false} LastRecordExact(keys: seq<string>, records: seq<string>, key: string, i: nat)
    requires |keys| == |records| && i < |keys| && keys[i] == key
    requires forall j :: i < j < |keys| ==> keys[j] != key
    ensures LastRecord(keys, records, key) == Some(records[i])
  {
    var n := |keys| - 1;
    if i < n {
      assert keys[n] != key;
      LastRecordExact(keys[..n], records[..n], key, i);
    }
  }

  // ---------------------------------------------------------------- grouping

  ghost predicate EntriesFor(entries: seq<Entry>, keys: seq<string>, records: seq<string>)
    requires |keys| == |records|
  {
    forall i :: 0 <= i < |entries| ==> EntryFor(entries[i], keys, records)
  }

  /** Recording one more occurrence leaves every other key's entry right. */
  lemma Occurrence(entries: seq<Entry>, keys: seq<string>, records: seq<string>, n: nat, index: nat)
    requires |keys| == |records| && n < |keys| && index < |entries|
    requires forall i :: 0 <= i < |entries| && i != index ==>
               EntryFor(entries[i], keys[..n], records[..n]) && entries[i].key != keys[n]
    requires entries[index].positions == PositionsOf(keys[..n], keys[n])
    ensures EntriesFor(entries[index := Entry(keys[n], entries[index].positions + [n], records[n])],
                       keys[..n + 1], records[..n + 1])
  {
    assert keys[..n + 1][..n] == keys[..n] && records[..n + 1][..n] == records[..n];
    assert keys[..n + 1][n] == keys[n] && records[..n + 1][n] == records[n];
  }

  lemma {:induction false} NoPositions(keys: seq<string>, key: string)
    requires key !in keys
    ensures PositionsOf(keys, key) == []
  {
    if keys != [] {
      NoPositions(keys[..|keys| - 1], key);
    }
  }

  /** indexByKey points at the one entry of each key. */
  ghost predicate PointsAt(indexByKey: map<string, nat>, entries: seq<Entry>) {
    && (forall key :: key in indexByKey ==> indexByKey[key] < |entries| && entries[indexByKey[key]].key == key)
    && (forall i :: 0 <= i < |entries| ==> entries[i].key in indexByKey && indexByKey[entries[i].key] == i)
  }

  lemma PointsAtNew(indexByKey: map<string, nat>, entries: seq<Entry>, e: Entry)
    requires PointsAt(indexByKey, entries) && e.key !in indexByKey
    ensures PointsAt(indexByKey[e.key := |entries|], entries + [e])
  {
  }

  lemma PointsAtSame(indexByKey: map<string, nat>, entries: seq<Entry>, e: Entry)
    requires PointsAt(indexByKey, entries) && e.key in indexByKey
    ensures PointsAt(indexByKey, entries[indexByKey[e.key] := e])
  {
  }

  lemma GroupedWhenIndexed(indexByKey: map<string, nat>, entries: seq<Entry>, keys: seq<string>, records: seq<string>)
    requires |keys| == |records| && PointsAt(indexByKey, entries) && EntriesFor(entries, keys, records)
    requires forall key :: key in keys <==> key in indexByKey
    ensures Grouped(entries, keys, records)
  {
    forall key | key in keys ensures HasEntry(entries, key) {
      assert entries[indexByKey[key]].key == key;
    }
  }

  method BlockEntries(keys: seq<string>, records: seq<string>) returns (entries: seq<Entry>)
    requires |keys| == |records|
    ensures Grouped(entries, keys, records)
  {
    var indexByKey: map<string, nat> := map[];
    entries := [];
    for position := 0 to |keys|
      invariant PointsAt(indexByKey, entries)
      invariant forall key :: key in keys[..position] <==> key in indexByKey
      invariant EntriesFor(entries, keys[..position], records[..position])
    {
      var key := keys[position];
      assert keys[..position + 1] == keys[..position] + [key];
      if key !in indexByKey {
        NoPositions(keys[..position], key);
        PointsAtNew(indexByKey, entries, Entry(key, [], ""));
        indexByKey := indexByKey[key := |entries|];
        entries := entries + [Entry(key, [], "")];
      }
      var index := indexByKey[key];
      var e := Entry(key, entries[index].positions + [position], records[position]);
      Occurrence(entries, keys, records, position, index);
      PointsAtSame(indexByKey, entries, e);
      entries := entries[index := e];
    }
    assert keys[..|keys|] == keys && records[..|records|] == records;
    GroupedWhenIndexed(indexByKey, entries, keys, records);
  }

  // ---------------------------------------------------------------- sorting

  ghost predicate SortedByKey(entries: seq<Entry>) {
    forall i, j :: 0 <= i < j < |entries| ==> Less(entries[i].SortKey(), entries[j].SortKey())
  }

  /** The place an entry takes among sorted ones. */
  method InsertionPoint(sorted: seq<Entry>, e: Entry) returns (at: nat)
    requires SortedByKey(sorted) && forall i :: 0 <= i < |sorted| ==> sorted[i].key != e.key
    ensures at <= |sorted|
    ensures forall i :: 0 <= i < at ==> Less(sorted[i].SortKey(), e.SortKey())
    ensures forall i :: at <= i < |sorted| ==> Less(e.SortKey(), sorted[i].SortKey())
  {
    at := |sorted|;
    while at > 0 && Less(e.SortKey(), sorted[at - 1].SortKey())
      invariant at <= |sorted|
      invariant forall i :: at <= i < |sorted| ==> Less(e.SortKey(), sorted[i].SortKey())
    {
      at := at - 1;
    }
    forall i | 0 <= i < at ensures Less(sorted[i].SortKey(), e.SortKey()) {
      LessTotal(sorted[at - 1].SortKey(), e.SortKey());
      if sorted[at - 1].SortKey() == e.SortKey() {
        BlockSortKeyInjective(sorted[at - 1].key, e.key);
      }
      if i < at - 1 {
        LessTransitive(sorted[i].SortKey(), sorted[at - 1].SortKey(), e.SortKey());
      }
    }
  }

  lemma InsertedInOrder(sorted: seq<Entry>, e: Entry, at: nat)
    requires SortedByKey(sorted) && at <= |sorted|
    requires forall i :: 0 <= i < at ==> Less(sorted[i].SortKey(), e.SortKey())
    requires forall i :: at <= i < |sorted| ==> Less(e.SortKey(), sorted[i].SortKey())
    ensures SortedByKey(sorted[..at] + [e] + sorted[at..])
    ensures multiset(sorted[..at] + [e] + sorted[at..]) == multiset(sorted) + multiset{e}
  {
    assert sorted == sorted[..at] + sorted[at..];
  }

  /** sort.Slice by sort key. Keys are distinct, so the order is strict and the
      instability of the library sort cannot show. */
  method SortEntries(entries: seq<Entry>) returns (sorted: seq<Entry>)
    requires DistinctKeys(entries)
    ensures SortedByKey(sorted) && multiset(sorted) == multiset(entries)
  {
    sorted := [];
    for n := 0 to |entries|
      invariant SortedByKey(sorted) && multiset(sorted) == multiset(entries[..n])
    {
      var e := entries[n];
      assert entries[..n + 1] == entries[..n] + [e];
      forall i | 0 <= i < |sorted| ensures sorted[i].key != e.key {
        assert sorted[i] in multiset(sorted);
        assert sorted[i] in entries[..n];
      }
      var at := InsertionPoint(sorted, e);
      InsertedInOrder(sorted, e, at);
      sorted := sorted[..at] + [e] + sorted[at..];
    }
    assert entries[..|entries|] == entries;
  }

  // ---------------------------------------------------------------- cutting

  function Bytes(entries: seq<Entry>): nat {
    if entries == [] then 0
    else Bytes(entries[..|entries| - 1]) + |entries[|entries| - 1].record|
  }

  /** Neither limit is reached, so the block stays open. */
  predicate Open(entries: seq<Entry>) {
    |entries| < MAX_RECORDS && Bytes(entries) < MAX_BYTES
  }

  /** The closing rule: a block is closed by the first entry that reaches either
      limit, or by the last entry of all. */
  predicate Closes(entries: seq<Entry>, last: bool) {
    && entries != []
    && (forall n :: 0 <= n < |entries| ==> Open(entries[..n]))
    && (last || !Open(entries))
  }

  /** Some blocks are the cut of sorted entries. */
  predicate CutOf(blocks: seq<Block>, sorted: seq<Entry>) {
    if blocks == [] then sorted == []
    else
      var first := blocks[0].entries;
      && first <= sorted
      && Closes(first, first == sorted)
      && blocks[0].firstKey == first[0].SortKey()
      && CutOf(blocks[1..], sorted[|first|..])
  }

  lemma {:induction false} CutSnoc(blocks: seq<Block>, done: seq<Entry>, tail: seq<Entry>)
    requires OpenCut(blocks, done) && Closes(tail, true)
    ensures CutOf(blocks + [Block(tail[0].SortKey(), tail)], done + tail)
    ensures !Open(tail) ==> OpenCut(blocks + [Block(tail[0].SortKey(), tail)], done + tail)
  {
    var b := Block(tail[0].SortKey(), tail);
    if blocks == [] {
      assert done + tail == tail && [b][1..] == [] && tail[|tail|..] == [];
    } else {
      var first := blocks[0].entries;
      CutSnoc(blocks[1..], done[|first|..], tail);
      assert (blocks + [b])[1..] == blocks[1..] + [b];
      assert (done + tail)[|first|..] == done[|first|..] + tail;
    }
  }

  /** A cut whose last block is closed by a limit, so that more may follow. */
  predicate OpenCut(blocks: seq<Block>, sorted: seq<Entry>) {
    if blocks == [] then sorted == []
    else
      var first := blocks[0].entries;
      && first <= sorted
      && Closes(first, false)
      && blocks[0].firstKey == first[0].SortKey()
      && OpenCut(blocks[1..], sorted[|first|..])
  }

  lemma {:induction false} OpenPrefix(entries: seq<Entry>, n: nat)
    requires n <= |entries| && Open(entries)
    ensures Open(entries[..n])
  {
    if n == |entries| {
      assert entries[..n] == entries;
    } else {
      OpenPrefix(entries[..|entries| - 1], n);
      assert entries[..|entries| - 1][..n] == entries[..n];
    }
  }

  lemma CloseRun(blocks: seq<Block>, entries: seq<Entry>, start: nat, end: nat)
    requires start < end <= |entries| && OpenCut(blocks, entries[..start])
    requires Open(entries[start..end - 1])
    ensures var closed := blocks + [Block(entries[start].SortKey(), entries[start..end])];
            (end == |entries| ==> CutOf(closed, entries)) &&
            (!Open(entries[start..end]) ==> OpenCut(closed, entries[..end]))
  {
    var run := entries[start..end];
    assert run[..|run| - 1] == entries[start..end - 1];
    forall n | 0 <= n < |run| ensures Open(run[..n]) {
      OpenPrefix(run[..|run| - 1], n);
      assert run[..|run| - 1][..n] == run[..n];
    }
    CutSnoc(blocks, entries[..start], run);
    assert entries[..start] + run == entries[..end];
    assert end == |entries| ==> entries[..end] == entries;
  }

  lemma BytesSnoc(entries: seq<Entry>, start: nat, index: nat)
    requires start <= index < |entries|
    ensures Bytes(entries[start..index + 1]) == Bytes(entries[start..index]) + |entries[index].record|
  {
    assert entries[start..index + 1][..index - start] == entries[start..index];
  }

  /** The start/size loop of buildBlocks. */
  method CutBlocks(entries: seq<Entry>) returns (blocks: seq<Block>)
    ensures CutOf(blocks, entries)
  {
    blocks := [];
    var start := 0;
    var size := 0;
    assert entries[..0] == [];
    for index := 0 to |entries|
      invariant start <= index && (index == |entries| ==> start == index)
      invariant index < |entries| || |entries| == 0 ==> OpenCut(blocks, entries[..start])
      invariant index == |entries| ==> CutOf(blocks, entries)
      invariant size == Bytes(entries[start..index])
      invariant index < |entries| ==> Open(entries[start..index])
    {
      BytesSnoc(entries, start, index);
      size := size + |entries[index].record|;
      if index + 1 - start < MAX_RECORDS && size < MAX_BYTES && index + 1 < |entries| {
        continue;
      }
      CloseRun(blocks, entries, start, index + 1);
      blocks := blocks + [Block(entries[start].SortKey(), entries[start..index + 1])];
      start := index + 1;
      size := 0;
    }
  }

  method BuildBlocks(entries: seq<Entry>) returns (blocks: seq<Block>)
    requires DistinctKeys(entries)
    ensures exists sorted :: SortedByKey(sorted) && multiset(sorted) == multiset(entries) && CutOf(blocks, sorted)
  {
    var sorted := SortEntries(entries);
    blocks := CutBlocks(sorted);
  }

  // ---------------------------------------------------------------- what is stored

  /** The blocks an entity's records are stored as. */
  ghost predicate BlocksFor(blocks: seq<Block>, keys: seq<string>, records: seq<string>)
    requires |keys| == |records|
  {
    exists sorted :: Grouped(sorted, keys, records) && SortedByKey(sorted) && CutOf(blocks, sorted)
  }

  lemma GroupedAnyOrder(entries: seq<Entry>, sorted: seq<Entry>, keys: seq<string>, records: seq<string>)
    requires |keys| == |records| && Grouped(entries, keys, records)
    requires multiset(sorted) == multiset(entries) && SortedByKey(sorted)
    ensures Grouped(sorted, keys, records)
  {
    forall i | 0 <= i < |sorted| ensures EntryFor(sorted[i], keys, records) {
      assert sorted[i] in multiset(sorted);
      assert sorted[i] in entries;
    }
    forall key | key in keys ensures HasEntry(sorted, key) {
      var i :| 0 <= i < |entries| && entries[i].key == key;
      assert entries[i] in multiset(entries);
      assert entries[i] in sorted;
    }
    forall i, j | 0 <= i < j < |sorted| ensures sorted[i].key != sorted[j].key {
      LessAsymmetric(sorted[i].SortKey(), sorted[j].SortKey());
    }
  }

  /** buildBlocks(blockEntries(keys, records)). */
  method StoreBlocks(keys: seq<string>, records: seq<string>) returns (blocks: seq<Block>)
    requires |keys| == |records|
    ensures BlocksFor(blocks, keys, records)
  {
    var entries := BlockEntries(keys, records);
    blocks := BuildBlocks(entries);
    ghost var sorted :| SortedByKey(sorted) && multiset(sorted) == multiset(entries) && CutOf(blocks, sorted);
    GroupedAnyOrder(entries, sorted, keys, records);
  }

  // The blocks are determined by the records: nothing about the map iteration,
  // the unstable sort or the loop bounds is left open.

  lemma {:induction false} CutUnique(a: seq<Block>, b: seq<Block>, sorted: seq<Entry>)
    requires CutOf(a, sorted) && CutOf(b, sorted)
    ensures a == b
  {
    if a != [] && b != [] {
      var p, q := a[0].entries, b[0].entries;
      FirstCutUnique(p, q, sorted);
      FirstCutUnique(q, p, sorted);
      assert p == sorted[..|p|] && q == sorted[..|q|];
      CutUnique(a[1..], b[1..], sorted[|p|..]);
      assert a == [a[0]] + a[1..] && b == [b[0]] + b[1..];
    }
  }

  lemma FirstCutUnique(p: seq<Entry>, q: seq<Entry>, sorted: seq<Entry>)
    requires p <= sorted && q <= sorted && Closes(p, p == sorted) && Closes(q, q == sorted)
    ensures |q| <= |p|
  {
    assert |p| < |q| ==> p < q;
    if p < q {
      OpenBeforeEnd(q, p, q == sorted);
    }
  }

  lemma OpenBeforeEnd(entries: seq<Entry>, prefix: seq<Entry>, last: bool)
    requires Closes(entries, last) && prefix < entries
    ensures Open(prefix)
  {
    assert prefix == entries[..|prefix|];
  }

  lemma SameEntry(a: Entry, b: Entry, keys: seq<string>, records: seq<string>)
    requires |keys| == |records| && EntryFor(a, keys, records) && EntryFor(b, keys, records) && a.key == b.key
    ensures a == b
  {
  }

  /** The i-th entry in sort-key order is the same in any two groupings. */
  lemma {:induction false} SortedUnique(a: seq<Entry>, b: seq<Entry>, keys: seq<string>, records: seq<string>, i: nat)
    requires |keys| == |records| && Grouped(a, keys, records) && Grouped(b, keys, records)
    requires SortedByKey(a) && SortedByKey(b) && i <= |a| && i <= |b|
    ensures a[..i] == b[..i]
    ensures forall k :: 0 <= k < i ==> a[k] == b[k]
  {
    if i > 0 {
      SortedUnique(a, b, keys, records, i - 1);
      NotBefore(a, b, keys, records, i - 1);
      NotBefore(b, a, keys, records, i - 1);
      LessTotal(a[i - 1].SortKey(), b[i - 1].SortKey());
      BlockSortKeyInjectiveIfEqual(a[i - 1].key, b[i - 1].key);
      SameEntry(a[i - 1], b[i - 1], keys, records);
      assert a[..i] == a[..i - 1] + [a[i - 1]] && b[..i] == b[..i - 1] + [b[i - 1]];
    }
  }

  lemma BlockSortKeyInjectiveIfEqual(a: string, b: string)
    ensures BlockSortKey(a) == BlockSortKey(b) ==> a == b
  {
    if BlockSortKey(a) == BlockSortKey(b) {
      BlockSortKeyInjective(a, b);
    }
  }

  lemma KeysDiffer(a: seq<Entry>, k: nat, i: nat)
    requires SortedByKey(a) && k < i < |a|
    ensures a[k].key != a[i].key
  {
    LessIrreflexive(a[i].SortKey());
  }

  lemma NotBefore(a: seq<Entry>, b: seq<Entry>, keys: seq<string>, records: seq<string>, i: nat)
    requires |keys| == |records| && Grouped(a, keys, records) && Grouped(b, keys, records)
    requires SortedByKey(a) && SortedByKey(b) && i < |a| && i < |b| && a[..i] == b[..i]
    ensures !Less(a[i].SortKey(), b[i].SortKey())
  {
    assert EntryFor(a[i], keys, records);
    forall k | 0 <= k < i ensures b[k].key != a[i].key {
      KeysDiffer(a, k, i);
      assert a[..i][k] == b[..i][k];
    }
    var j :| 0 <= j < |b| && b[j].key == a[i].key;
    LessIrreflexive(a[i].SortKey());
    if Less(a[i].SortKey(), b[i].SortKey()) && i < j {
      LessTransitive(a[i].SortKey(), b[i].SortKey(), b[j].SortKey());
    }
  }

  /** Groupings of the same list have the same length: each holds one entry per
      distinct key. */
  lemma GroupedLength(a: seq<Entry>, b: seq<Entry>, keys: seq<string>, records: seq<string>)
    requires |keys| == |records| && Grouped(a, keys, records) && Grouped(b, keys, records)
    requires SortedByKey(a) && SortedByKey(b)
    ensures |a| <= |b|
  {
    if |b| < |a| {
      var n := |b|;
      assert EntryFor(a[n], keys, records);
      assert HasEntry(b, a[n].key);
      SortedUnique(a, b, keys, records, n);
    }
  }

  lemma SortedGroupingUnique(s: seq<Entry>, t: seq<Entry>, keys: seq<string>, records: seq<string>)
    requires |keys| == |records| && Grouped(s, keys, records) && Grouped(t, keys, records)
    requires SortedByKey(s) && SortedByKey(t)
    ensures s == t
  {
    GroupedLength(s, t, keys, records);
    GroupedLength(t, s, keys, records);
    SortedUnique(s, t, keys, records, |s|);
    assert s[..|s|] == s && t[..|t|] == t;
  }

  lemma BlocksDetermined(a: seq<Block>, b: seq<Block>, keys: seq<string>, records: seq<string>)
    requires |keys| == |records| && BlocksFor(a, keys, records) && BlocksFor(b, keys, records)
    ensures a == b
  {
    var s :| Grouped(s, keys, records) && SortedByKey(s) && CutOf(a, s);
    var t :| Grouped(t, keys, records) && SortedByKey(t) && CutOf(b, t);
    SortedGroupingUnique(s, t, keys, records);
    CutUnique(a, b, s);
  }

  /** Every block holds 1 to 32 keys, stays under the byte limit until its last
      entry, and is cut short only by a limit or the end of the entity. */
  lemma {:induction false} BlockBounds(blocks: seq<Block>, sorted: seq<Entry>, i: nat)
    requires CutOf(blocks, sorted) && i < |blocks|
    ensures var entries := blocks[i].entries;
            1 <= |entries| <= 32 && Bytes(entries[..|entries| - 1]) < 65536 &&
            (i + 1 < |blocks| ==> |entries| == 32 || 65536 <= Bytes(entries))
  {
    var entries := blocks[i].entries;
    if i == 0 {
      assert Open(entries[..|entries| - 1]);
      assert |blocks| > 1 ==> CutOf(blocks[1..], sorted[|entries|..]) && blocks[1..] != [];
    } else {
      BlockBounds(blocks[1..], sorted[|blocks[0].entries|..], i - 1);
    }
  }
}
