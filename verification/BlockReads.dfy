/** Reading record blocks back (internal/storage/master_data_postgres_store.go):
    locating keys through "greatest first_key at or below the sort key", and
    rebuilding source order from positions. One entity's master_blocks rows are
    a map from first_key, the primary key, to the block's entries. */
module BlockReads {
  import opened Text
  import opened BlockSortKeys
  import opened Blocks

  type Table = map<string, seq<Entry>>

  function TableOf(blocks: seq<Block>): Table {
    if blocks == [] then map[]
    else TableOf(blocks[1..])[blocks[0].firstKey := blocks[0].entries]
  }

  /** The copied rows keep the primary key: no two blocks share a first_key. */
  predicate IncreasingFirstKeys(blocks: seq<Block>) {
    forall i, j :: 0 <= i < j < |blocks| ==> Less(blocks[i].firstKey, blocks[j].firstKey)
  }

  /** What every stored table satisfies: each block starts with its first_key,
      and everything in it sorts before every later first_key. */
  ghost predicate Searchable(table: Table) {
    && (forall f, e :: f in table && e in table[f] ==> AtMost(f, e.SortKey()))
    && (forall f, g, e :: f in table && g in table && e in table[f] && Less(f, g) ==> Less(e.SortKey(), g))
  }

  ghost predicate Holds(table: Table, e: Entry) {
    exists f :: f in table && e in table[f]
  }

  /** A table stores exactly the last-wins entries of a list of records. */
  ghost predicate TableFor(table: Table, keys: seq<string>, records: seq<string>)
    requires |keys| == |records|
  {
    && Searchable(table)
    && (forall f :: f in table ==> SortedByKey(table[f]))
    && (forall f, e :: f in table && e in table[f] ==> EntryFor(e, keys, records))
    && (forall key :: key in keys ==> exists e: Entry :: e.key == key && Holds(table, e))
  }

  // ---------------------------------------------------------------- building the table

  lemma {:induction false} FirstKeysIn(blocks: seq<Block>, sorted: seq<Entry>, f: string)
    requires CutOf(blocks, sorted) && f in TableOf(blocks)
    ensures exists e :: e in sorted && e.SortKey() == f
    ensures forall e :: e in TableOf(blocks)[f] ==> e in sorted
  {
    var first := blocks[0].entries;
    assert sorted == first + sorted[|first|..];
    if f == blocks[0].firstKey {
      assert first[0] in sorted && first[0].SortKey() == f;
    } else {
      FirstKeysIn(blocks[1..], sorted[|first|..], f);
    }
  }

  lemma {:induction false} EntriesKept(blocks: seq<Block>, sorted: seq<Entry>, e: Entry)
    requires CutOf(blocks, sorted) && SortedByKey(sorted) && e in sorted
    ensures Holds(TableOf(blocks), e)
  {
    var first := blocks[0].entries;
    var rest := sorted[|first|..];
    assert sorted == first + rest;
    if e in first {
      assert e in TableOf(blocks)[blocks[0].firstKey];
    } else {
      EntriesKept(blocks[1..], rest, e);
      var f :| f in TableOf(blocks[1..]) && e in TableOf(blocks[1..])[f];
      FirstKeyBelow(first, rest, blocks[1..], f);
      assert f in TableOf(blocks) && e in TableOf(blocks)[f];
    }
  }

  lemma AcrossTheCut(first: seq<Entry>, rest: seq<Entry>, d: Entry, e: Entry)
    requires SortedByKey(first + rest) && d in first && e in rest
    ensures Less(d.SortKey(), e.SortKey())
  {
    var i :| 0 <= i < |first| && first[i] == d;
    var j :| 0 <= j < |rest| && rest[j] == e;
    assert (first + rest)[i] == d && (first + rest)[|first| + j] == e;
  }

  /** The first block sorts strictly before every later first_key. */
  lemma FirstKeyBelow(first: seq<Entry>, rest: seq<Entry>, blocks: seq<Block>, g: string)
    requires SortedByKey(first + rest) && first != [] && CutOf(blocks, rest) && g in TableOf(blocks)
    ensures forall e :: e in first ==> Less(e.SortKey(), g)
    ensures Less(first[0].SortKey(), g) && g != first[0].SortKey()
  {
    FirstKeysIn(blocks, rest, g);
    var e' :| e' in rest && e'.SortKey() == g;
    forall e | e in first ensures Less(e.SortKey(), g) {
      AcrossTheCut(first, rest, e, e');
    }
    assert first[0] in first;
    LessAsymmetric(first[0].SortKey(), g);
  }

  lemma {:induction false} CutIsSearchable(blocks: seq<Block>, sorted: seq<Entry>)
    requires CutOf(blocks, sorted) && SortedByKey(sorted)
    ensures Searchable(TableOf(blocks))
  {
    if blocks != [] {
      var first := blocks[0].entries;
      var rest := sorted[|first|..];
      assert sorted == first + rest;
      CutIsSearchable(blocks[1..], rest);
      FirstBlockInOrder(first);
      forall g | g in TableOf(blocks[1..])
        ensures Less(blocks[0].firstKey, g) && g != blocks[0].firstKey
        ensures forall e :: e in first ==> Less(e.SortKey(), g)
      {
        FirstKeyBelow(first, rest, blocks[1..], g);
      }
      SearchableGrows(TableOf(blocks[1..]), blocks[0].firstKey, first);
    }
  }

  lemma {:induction false} CutBlocksSorted(blocks: seq<Block>, sorted: seq<Entry>, f: string)
    requires CutOf(blocks, sorted) && SortedByKey(sorted) && f in TableOf(blocks)
    ensures SortedByKey(TableOf(blocks)[f])
  {
    var first := blocks[0].entries;
    assert sorted == first + sorted[|first|..];
    if f != blocks[0].firstKey {
      CutBlocksSorted(blocks[1..], sorted[|first|..], f);
    }
  }

  lemma FirstBlockInOrder(first: seq<Entry>)
    requires SortedByKey(first) && first != []
    ensures forall e :: e in first ==> AtMost(first[0].SortKey(), e.SortKey())
  {
    forall e | e in first ensures AtMost(first[0].SortKey(), e.SortKey()) {
      var i :| 0 <= i < |first| && first[i] == e;
    }
  }

  lemma SearchableGrows(table: Table, f: string, entries: seq<Entry>)
    requires Searchable(table) && f !in table
    requires forall e :: e in entries ==> AtMost(f, e.SortKey())
    requires forall g :: g in table ==> Less(f, g) && forall e :: e in entries ==> Less(e.SortKey(), g)
    ensures Searchable(table[f := entries])
  {
    var grown := table[f := entries];
    forall h, g, e: Entry | h in grown && g in grown && e in grown[h] && Less(h, g) ensures Less(e.SortKey(), g) {
      if g == f {
        LessIrreflexive(f);
        LessAsymmetric(h, f);
      }
    }
  }

  lemma {:induction false} TableKeys(blocks: seq<Block>, f: string)
    ensures f in TableOf(blocks) <==> exists i :: 0 <= i < |blocks| && blocks[i].firstKey == f
  {
    if blocks != [] {
      TableKeys(blocks[1..], f);
      assert forall i :: 0 < i < |blocks| ==> blocks[i] == blocks[1..][i - 1];
    }
  }

  lemma {:induction false} FirstKeysIncrease(blocks: seq<Block>, sorted: seq<Entry>)
    requires CutOf(blocks, sorted) && SortedByKey(sorted)
    ensures IncreasingFirstKeys(blocks)
  {
    if blocks != [] {
      var first := blocks[0].entries;
      var rest := sorted[|first|..];
      assert sorted == first + rest;
      FirstKeysIncrease(blocks[1..], rest);
      forall j | 0 < j < |blocks| ensures Less(blocks[0].firstKey, blocks[j].firstKey) {
        assert blocks[j] == blocks[1..][j - 1];
        TableKeys(blocks[1..], blocks[j].firstKey);
        FirstKeyBelow(first, rest, blocks[1..], blocks[j].firstKey);
      }
      assert forall i, j :: 0 < i < j < |blocks| ==> blocks[i] == blocks[1..][i - 1] && blocks[j] == blocks[1..][j - 1];
    }
  }

  /** Storing an entity's blocks gives a table that stores exactly its records. */
  lemma StoredTable(blocks: seq<Block>, keys: seq<string>, records: seq<string>)
    requires |keys| == |records| && BlocksFor(blocks, keys, records)
    ensures TableFor(TableOf(blocks), keys, records) && IncreasingFirstKeys(blocks)
  {
    var sorted: seq<Entry> :| Grouped(sorted, keys, records) && SortedByKey(sorted) && CutOf(blocks, sorted);
    CutIsSearchable(blocks, sorted);
    FirstKeysIncrease(blocks, sorted);
    forall f | f in TableOf(blocks) ensures SortedByKey(TableOf(blocks)[f]) {
      CutBlocksSorted(blocks, sorted, f);
    }
    forall f, e | f in TableOf(blocks) && e in TableOf(blocks)[f] ensures EntryFor(e, keys, records) {
      FirstKeysIn(blocks, sorted, f);
    }
    forall key | key in keys ensures exists e: Entry :: e.key == key && Holds(TableOf(blocks), e) {
      var i :| 0 <= i < |sorted| && sorted[i].key == key;
      EntriesKept(blocks, sorted, sorted[i]);
    }
  }

  // ---------------------------------------------------------------- locating keys

  /** SELECT first_key WHERE first_key <= sort_key ORDER BY first_key DESC LIMIT 1. */
  predicate Located(table: Table, sortKey: string, f: string) {
    f in table && AtMost(f, sortKey) && forall g :: g in table && AtMost(g, sortKey) ==> AtMost(g, f)
  }

  /** The bodies of the blocks located for some sort keys. */
  ghost predicate Selected(bodies: seq<seq<Entry>>, table: Table, sortKeys: seq<string>) {
    forall body :: body in bodies <==>
      exists f, i :: 0 <= i < |sortKeys| && Located(table, sortKeys[i], f) && body == table[f]
  }

  /** The located blocks, in whatever order the database returns them. */
  method SelectLocated(table: Table, sortKeys: seq<string>) returns (bodies: seq<seq<Entry>>)
    ensures Selected(bodies, table, sortKeys)
  {
    bodies := [];
    var pending := table.Keys;
    while pending != {}
      invariant pending <= table.Keys
      invariant forall body :: body in bodies <==>
                  exists f, i :: f !in pending && 0 <= i < |sortKeys| && Located(table, sortKeys[i], f) && body == table[f]
    {
      var f :| f in pending;
      pending := pending - {f};
      if exists i :: 0 <= i < |sortKeys| && Located(table, sortKeys[i], f) {
        bodies := bodies + [table[f]];
      }
    }
  }

  /** The records of some blocks by key. */
  ghost predicate RecordsOf(raws: map<string, string>, bodies: seq<seq<Entry>>) {
    && (forall key :: key in raws ==> exists b, e :: b in bodies && e in b && e.key == key && e.record == raws[key])
    && (forall b, e :: b in bodies && e in b ==> e.key in raws)
  }

  /** blockRecordsByKey. */
  method BlockRecordsByKey(bodies: seq<seq<Entry>>) returns (raws: map<string, string>)
    ensures RecordsOf(raws, bodies)
  {
    raws := map[];
    for i := 0 to |bodies|
      invariant RecordsOf(raws, bodies[..i])
    {
      var body := bodies[i];
      assert bodies[..i + 1] == bodies[..i] + [body];
      raws := AddRecords(raws, body);
    }
    assert bodies[..|bodies|] == bodies;
  }

  method AddRecords(before: map<string, string>, body: seq<Entry>) returns (raws: map<string, string>)
    ensures forall key :: key in raws ==> FromBody(body, key, raws[key]) || (key in before && before[key] == raws[key])
    ensures forall key :: key in before ==> key in raws
    ensures forall e :: e in body ==> e.key in raws
  {
    raws := before;
    for j := 0 to |body|
      invariant forall key :: key in raws ==> FromBody(body, key, raws[key]) || (key in before && before[key] == raws[key])
      invariant forall key :: key in before ==> key in raws
      invariant forall e :: e in body[..j] ==> e.key in raws
    {
      assert body[..j + 1] == body[..j] + [body[j]];
      assert FromBody(body, body[j].key, body[j].record);
      raws := raws[body[j].key := body[j].record];
    }
    assert body[..|body|] == body;
  }

  predicate FromBody(body: seq<Entry>, key: string, record: string) {
    exists e :: e in body && e.key == key && e.record == record
  }

  function LastRecords(keys: seq<string>, records: seq<string>, query: seq<string>): seq<Option<string>>
    requires |keys| == |records|
  {
    seq(|query|, i requires 0 <= i < |query| => LastRecord(keys, records, query[i]))
  }

  /** The block with the greatest first_key at or below a stored key's sort key
      is the one that holds it. */
  lemma LocatedHolds(table: Table, keys: seq<string>, records: seq<string>, key: string)
    requires |keys| == |records| && TableFor(table, keys, records) && key in keys
    ensures exists f, e :: Located(table, BlockSortKey(key), f) && e in table[f] && e.key == key
  {
    var e: Entry :| e.key == key && Holds(table, e);
    var f :| f in table && e in table[f];
    forall g | g in table && AtMost(g, e.SortKey()) ensures AtMost(g, f) {
      LessTotal(f, g);
      if Less(f, g) {
        LessAsymmetric(e.SortKey(), g);
      }
    }
    assert Located(table, BlockSortKey(key), f);
  }

  /** The distinct sort keys of the non-empty query keys. */
  method SortKeysOf(query: seq<string>) returns (sortKeys: seq<string>)
    ensures forall s :: s in sortKeys <==> exists i :: 0 <= i < |query| && query[i] != "" && s == BlockSortKey(query[i])
  {
    sortKeys := [];
    var seen: set<string> := {};
    for i := 0 to |query|
      invariant forall s :: s in sortKeys <==> s in seen
      invariant forall s :: s in seen <==> exists j :: 0 <= j < i && query[j] != "" && s == BlockSortKey(query[j])
    {
      if query[i] == "" {
        continue;
      }
      var sortKey := BlockSortKey(query[i]);
      if sortKey !in seen {
        seen := seen + {sortKey};
        sortKeys := sortKeys + [sortKey];
      }
    }
  }

  /** The raw part of fetchRecords: for every query list, with repeats, absent
      and empty keys, each answer is the last record stored under that key. */
  method FetchRaws(table: Table, query: seq<string>, ghost keys: seq<string>, ghost records: seq<string>)
    returns (aligned: seq<Option<string>>)
    requires |keys| == |records| && TableFor(table, keys, records) && "" !in keys
    ensures aligned == LastRecords(keys, records, query)
  {
    var sortKeys := SortKeysOf(query);
    assert forall i :: 0 <= i < |query| && query[i] != "" ==> BlockSortKey(query[i]) in sortKeys;
    if |sortKeys| == 0 {
      forall i | 0 <= i < |query| ensures LastRecord(keys, records, query[i]) == None {
        LastRecordPresent(keys, records, query[i]);
      }
      return seq(|query|, _ => None);
    }
    var bodies := SelectLocated(table, sortKeys);
    var raws := BlockRecordsByKey(bodies);
    aligned := AlignRaws(raws, query);
    forall i | 0 <= i < |query| ensures aligned[i] == LastRecord(keys, records, query[i]) {
      LoadedRecordIsLast(table, sortKeys, bodies, raws, keys, records, query[i]);
    }
  }

  method AlignRaws(raws: map<string, string>, query: seq<string>) returns (aligned: seq<Option<string>>)
    ensures |aligned| == |query|
    ensures forall i :: 0 <= i < |query| ==> aligned[i] == if query[i] in raws then Some(raws[query[i]]) else None
  {
    aligned := [];
    for i := 0 to |query|
      invariant |aligned| == i
      invariant forall j :: 0 <= j < i ==> aligned[j] == if query[j] in raws then Some(raws[query[j]]) else None
    {
      aligned := aligned + [if query[i] in raws then Some(raws[query[i]]) else None];
    }
  }

  lemma StoredKeyLoaded(table: Table, sortKeys: seq<string>, bodies: seq<seq<Entry>>, raws: map<string, string>,
                        keys: seq<string>, records: seq<string>, key: string)
    requires |keys| == |records| && TableFor(table, keys, records)
    requires Selected(bodies, table, sortKeys) && RecordsOf(raws, bodies)
    requires key in keys && BlockSortKey(key) in sortKeys
    ensures key in raws
  {
    LocatedHolds(table, keys, records, key);
    var f, e :| Located(table, BlockSortKey(key), f) && e in table[f] && e.key == key;
    var i :| 0 <= i < |sortKeys| && sortKeys[i] == BlockSortKey(key);
    assert table[f] in bodies;
  }

  lemma LoadedRecordIsLast(table: Table, sortKeys: seq<string>, bodies: seq<seq<Entry>>, raws: map<string, string>,
                           keys: seq<string>, records: seq<string>, key: string)
    requires |keys| == |records| && TableFor(table, keys, records) && "" !in keys
    requires Selected(bodies, table, sortKeys) && RecordsOf(raws, bodies)
    requires key != "" ==> BlockSortKey(key) in sortKeys
    ensures LastRecord(keys, records, key) == if key in raws then Some(raws[key]) else None
  {
    LastRecordPresent(keys, records, key);
    if key in keys {
      StoredKeyLoaded(table, sortKeys, bodies, raws, keys, records, key);
    }
    if key in raws {
      var b, e :| b in bodies && e in b && e.key == key && e.record == raws[key];
      var f, i :| 0 <= i < |sortKeys| && Located(table, sortKeys[i], f) && b == table[f];
      assert EntryFor(e, keys, records);
    }
  }

  // ---------------------------------------------------------------- source order

  /** All of an entity's blocks, in whatever order the database returns them. */
  ghost predicate Listing(bodies: seq<seq<Entry>>, firstKeys: seq<string>, table: Table) {
    && |bodies| == |firstKeys|
    && (forall i, j :: 0 <= i < j < |firstKeys| ==> firstKeys[i] != firstKeys[j])
    && (forall f :: f in table <==> f in firstKeys)
    && (forall i :: 0 <= i < |bodies| ==> firstKeys[i] in table && bodies[i] == table[firstKeys[i]])
  }

  method SelectAll(table: Table) returns (bodies: seq<seq<Entry>>, ghost firstKeys: seq<string>)
    ensures Listing(bodies, firstKeys, table)
  {
    bodies := [];
    firstKeys := [];
    var pending := table.Keys;
    while pending != {}
      invariant pending <= table.Keys && |bodies| == |firstKeys|
      invariant forall i, j :: 0 <= i < j < |firstKeys| ==> firstKeys[i] != firstKeys[j]
      invariant forall f :: f in table <==> f in firstKeys || f in pending
      invariant forall i :: 0 <= i < |bodies| ==>
                  firstKeys[i] in table && firstKeys[i] !in pending && bodies[i] == table[firstKeys[i]]
    {
      var f :| f in pending;
      pending := pending - {f};
      bodies := bodies + [table[f]];
      firstKeys := firstKeys + [f];
    }
  }

  function Flat(bodies: seq<seq<Entry>>): seq<Entry> {
    if bodies == [] then [] else Flat(bodies[..|bodies| - 1]) + bodies[|bodies| - 1]
  }

  function AllPositions(entries: seq<Entry>): seq<nat> {
    if entries == [] then [] else AllPositions(entries[..|entries| - 1]) + entries[|entries| - 1].positions
  }

  lemma {:induction false} FlatMembers(bodies: seq<seq<Entry>>, e: Entry)
    ensures e in Flat(bodies) <==> exists i :: 0 <= i < |bodies| && e in bodies[i]
  {
    if bodies != [] {
      FlatMembers(bodies[..|bodies| - 1], e);
    }
  }

  lemma SortedBodyDistinct(body: seq<Entry>)
    requires SortedByKey(body)
    ensures DistinctKeys(body)
  {
    forall i, j | 0 <= i < j < |body| ensures body[i].key != body[j].key {
      LessAsymmetric(body[i].SortKey(), body[j].SortKey());
    }
  }

  lemma DifferentBlocksDifferentKeys(table: Table, f: string, g: string, d: Entry, e: Entry)
    requires Searchable(table) && f in table && g in table && f != g && d in table[f] && e in table[g]
    ensures d.key != e.key
  {
    LessTotal(f, g);
    if Less(f, g) {
      assert Less(d.SortKey(), g) && AtMost(g, e.SortKey());
      LessAsymmetric(d.SortKey(), g);
    } else {
      assert Less(e.SortKey(), f) && AtMost(f, d.SortKey());
      LessAsymmetric(e.SortKey(), f);
    }
  }

  lemma {:induction false} FlatDistinct(table: Table, bodies: seq<seq<Entry>>, firstKeys: seq<string>, n: nat)
    requires Searchable(table) && (forall f :: f in table ==> SortedByKey(table[f]))
    requires Listing(bodies, firstKeys, table) && n <= |bodies|
    ensures DistinctKeys(Flat(bodies[..n]))
  {
    if n > 0 {
      FlatDistinct(table, bodies, firstKeys, n - 1);
      assert bodies[..n][..n - 1] == bodies[..n - 1];
      SortedBodyDistinct(bodies[n - 1]);
      var front := Flat(bodies[..n - 1]);
      var last := bodies[n - 1];
      forall i, j | 0 <= i < |front| && 0 <= j < |last| ensures front[i].key != last[j].key {
        FlatMembers(bodies[..n - 1], front[i]);
        var k :| 0 <= k < n - 1 && front[i] in bodies[..n - 1][k];
        DifferentBlocksDifferentKeys(table, firstKeys[k], firstKeys[n - 1], front[i], last[j]);
      }
    }
  }

  lemma {:induction false} PositionsDisjoint(entries: seq<Entry>, keys: seq<string>, records: seq<string>)
    requires |keys| == |records| && DistinctKeys(entries) && EntriesFor(entries, keys, records)
    ensures Unrepeated(AllPositions(entries))
    ensures forall p :: p in AllPositions(entries) <==>
              0 <= p < |keys| && exists i :: 0 <= i < |entries| && entries[i].key == keys[p]
  {
    if entries != [] {
      var n := |entries| - 1;
      var front, last := AllPositions(entries[..n]), entries[n];
      PositionsDisjoint(entries[..n], keys, records);
      PositionsExact(keys, last.key);
      assert EntryFor(last, keys, records);
      forall i, j | 0 <= i < |front| && 0 <= j < |last.positions| ensures front[i] != last.positions[j] {
        assert front[i] in front && last.positions[j] in last.positions;
      }
      forall p ensures p in AllPositions(entries) <==>
                         0 <= p < |keys| && exists i :: 0 <= i < |entries| && entries[i].key == keys[p] {
        assert p in AllPositions(entries) <==> p in front || p in last.positions;
        assert forall i :: 0 <= i < n ==> entries[..n][i] == entries[i];
      }
    }
  }

  lemma RemovedAt(positions: seq<nat>, i: nat) returns (rest: seq<nat>)
    requires Unrepeated(positions) && i < |positions|
    ensures Unrepeated(rest) && |rest| == |positions| - 1
    ensures forall p :: p in rest <==> p in positions && p != positions[i]
  {
    var front, back := positions[..i], positions[i + 1..];
    rest := front + back;
    assert positions == front + [positions[i]] + back;
    assert forall k :: 0 <= k < |rest| ==> rest[k] == positions[if k < i then k else k + 1];
  }

  /** A list without repeats holding exactly 0..n-1 has length n. */
  lemma {:induction false} RangeLength(positions: seq<nat>, n: nat)
    requires Unrepeated(positions) && forall p :: p in positions <==> 0 <= p < n
    ensures |positions| == n
    decreases n
  {
    assert positions == [] || positions[0] in positions;
    if n > 0 {
      assert n - 1 in positions;
      var i :| 0 <= i < |positions| && positions[i] == n - 1;
      var rest := RemovedAt(positions, i);
      RangeLength(rest, n - 1);
    }
  }

  /** Positions partition 0..n-1 whatever order the blocks come back in. */
  lemma PositionsPartition(table: Table, bodies: seq<seq<Entry>>, firstKeys: seq<string>,
                           keys: seq<string>, records: seq<string>)
    requires |keys| == |records| && TableFor(table, keys, records) && Listing(bodies, firstKeys, table)
    ensures EntriesFor(Flat(bodies), keys, records)
    ensures Unrepeated(AllPositions(Flat(bodies))) && |AllPositions(Flat(bodies))| == |keys|
    ensures forall p :: p in AllPositions(Flat(bodies)) <==> 0 <= p < |keys|
  {
    var entries := Flat(bodies);
    assert bodies[..|bodies|] == bodies;
    FlatDistinct(table, bodies, firstKeys, |bodies|);
    forall i | 0 <= i < |entries| ensures EntryFor(entries[i], keys, records) {
      FlatMembers(bodies, entries[i]);
    }
    PositionsDisjoint(entries, keys, records);
    forall p ensures p in AllPositions(entries) <==> 0 <= p < |keys| {
      if 0 <= p < |keys| {
        assert keys[p] in keys;
        var e: Entry :| e.key == keys[p] && Holds(table, e);
        var f :| f in table && e in table[f];
        var i :| 0 <= i < |firstKeys| && firstKeys[i] == f;
        FlatMembers(bodies, e);
      }
    }
    RangeLength(AllPositions(entries), |keys|);
  }

  lemma {:induction false} PositionOf(entries: seq<Entry>, e: Entry, p: nat)
    requires e in entries && p in e.positions
    ensures p in AllPositions(entries)
  {
    var n := |entries| - 1;
    assert entries == entries[..n] + [entries[n]];
    if e != entries[n] {
      PositionOf(entries[..n], e, p);
    }
  }

  /** What rebuilding an entity aims at: at each position the source's key and
      the record stored last under it. */
  ghost predicate PlacedAt(placed: Rows, p: int, keys: seq<string>, records: seq<string>)
    requires |keys| == |records| == |placed.keys| == |placed.raws| && 0 <= p < |keys|
  {
    placed.keys[p] == keys[p] && placed.raws[p] == LastRecord(keys, records, keys[p])
  }

  /** Row slots by position: a key and its raw record. */
  datatype Rows = Rows(keys: seq<string>, raws: seq<Option<string>>)

  ghost predicate SameShape(placed: Rows, keys: seq<string>) {
    |placed.keys| == |placed.raws| == |keys|
  }

  method PlaceEntry(before: Rows, entry: Entry, ghost keys: seq<string>, ghost records: seq<string>)
    returns (inRange: bool, placed: Rows)
    requires |keys| == |records| && SameShape(before, keys) && EntryFor(entry, keys, records)
    ensures inRange && SameShape(placed, keys)
    ensures forall p :: 0 <= p < |keys| && (p in entry.positions || PlacedAt(before, p, keys, records))
              ==> PlacedAt(placed, p, keys, records)
  {
    PositionsExact(keys, entry.key);
    placed := before;
    var total := |before.keys|;
    for k := 0 to |entry.positions|
      invariant SameShape(placed, keys)
      invariant forall p :: 0 <= p < |keys| && (p in entry.positions[..k] || PlacedAt(before, p, keys, records))
                  ==> PlacedAt(placed, p, keys, records)
    {
      var position := entry.positions[k];
      assert entry.positions[..k + 1] == entry.positions[..k] + [position];
      assert position in entry.positions;
      if position < 0 || position >= total {
        return false, placed;
      }
      placed := Rows(placed.keys[position := entry.key], placed.raws[position := Some(entry.record)]);
    }
    assert entry.positions[..|entry.positions|] == entry.positions;
    return true, placed;
  }

  method PlaceBlock(before: Rows, body: seq<Entry>, ghost keys: seq<string>, ghost records: seq<string>)
    returns (inRange: bool, placed: Rows)
    requires |keys| == |records| && SameShape(before, keys) && EntriesFor(body, keys, records)
    ensures inRange && SameShape(placed, keys)
    ensures forall p :: 0 <= p < |keys| && (p in AllPositions(body) || PlacedAt(before, p, keys, records))
              ==> PlacedAt(placed, p, keys, records)
  {
    placed := before;
    for k := 0 to |body|
      invariant SameShape(placed, keys)
      invariant forall p :: 0 <= p < |keys| && (p in AllPositions(body[..k]) || PlacedAt(before, p, keys, records))
                  ==> PlacedAt(placed, p, keys, records)
    {
      assert body[..k + 1][..k] == body[..k];
      inRange, placed := PlaceEntry(placed, body[k], keys, records);
      if !inRange {
        return false, placed;
      }
    }
    assert body[..|body|] == body;
    return true, placed;
  }

  lemma {:induction false} AllPositionsConcat(a: seq<Entry>, b: seq<Entry>)
    ensures AllPositions(a + b) == AllPositions(a) + AllPositions(b)
  {
    if b == [] {
      assert a + b == a;
    } else {
      var n := |b| - 1;
      AllPositionsConcat(a, b[..n]);
      assert (a + b)[..|a + b| - 1] == a + b[..n];
      assert AllPositions(a + b) == AllPositions(a + b[..n]) + b[n].positions;
      assert AllPositions(b) == AllPositions(b[..n]) + b[n].positions;
    }
  }

  method CountPositions(bodies: seq<seq<Entry>>) returns (total: nat)
    ensures total == |AllPositions(Flat(bodies))|
  {
    total := 0;
    for i := 0 to |bodies|
      invariant total == |AllPositions(Flat(bodies[..i]))|
    {
      assert bodies[..i + 1][..i] == bodies[..i];
      AllPositionsConcat(Flat(bodies[..i]), bodies[i]);
      var body := bodies[i];
      var inBody := 0;
      for k := 0 to |body|
        invariant inBody == |AllPositions(body[..k])|
      {
        assert body[..k + 1][..k] == body[..k];
        inBody := inBody + |body[k].positions|;
      }
      assert body[..|body|] == body;
      total := total + inBody;
    }
    assert bodies[..|bodies|] == bodies;
  }

  /** loadEntityInOrder inverts storing: it never reports a position out of
      range, fills every slot, and returns the original key sequence with each
      key's last record. */
  method LoadEntityInOrder(table: Table, ghost keys: seq<string>, ghost records: seq<string>) returns (rows: Result<Rows>)
    requires |keys| == |records| && TableFor(table, keys, records)
    ensures rows == Ok(Rows(keys, LastRecords(keys, records, keys)))
  {
    ghost var firstKeys;
    var bodies;
    bodies, firstKeys := SelectAll(table);
    PositionsPartition(table, bodies, firstKeys, keys, records);
    var total := CountPositions(bodies);
    var inRange, placed := PlaceBlocks(bodies, total, keys, records);
    if !inRange {
      return Err;
    }
    EverySlotFilled(placed, AllPositions(Flat(bodies)), keys, records);
    return Ok(placed);
  }

  ghost predicate AllPlaced(placed: Rows, positions: seq<nat>, keys: seq<string>, records: seq<string>)
    requires |keys| == |records| && SameShape(placed, keys)
  {
    forall p :: 0 <= p < |keys| && p in positions ==> PlacedAt(placed, p, keys, records)
  }

  lemma EverySlotFilled(placed: Rows, positions: seq<nat>, keys: seq<string>, records: seq<string>)
    requires |keys| == |records| && SameShape(placed, keys) && AllPlaced(placed, positions, keys, records)
    requires forall p :: p in positions <==> 0 <= p < |keys|
    ensures placed == Rows(keys, LastRecords(keys, records, keys))
  {
    forall p | 0 <= p < |keys| ensures placed.keys[p] == keys[p] && placed.raws[p] == LastRecord(keys, records, keys[p]) {
      assert p in positions;
      assert PlacedAt(placed, p, keys, records);
    }
  }

  method PlaceBlocks(bodies: seq<seq<Entry>>, total: nat, ghost keys: seq<string>, ghost records: seq<string>)
    returns (inRange: bool, placed: Rows)
    requires |keys| == |records| == total && EntriesFor(Flat(bodies), keys, records)
    ensures inRange && SameShape(placed, keys)
    ensures AllPlaced(placed, AllPositions(Flat(bodies)), keys, records)
  {
    placed := Rows(seq(total, _ => ""), seq(total, _ => None));
    for i := 0 to |bodies|
      invariant SameShape(placed, keys)
      invariant AllPlaced(placed, AllPositions(Flat(bodies[..i])), keys, records)
    {
      BodyEntries(bodies, i, keys, records);
      ghost var before := placed;
      inRange, placed := PlaceBlock(placed, bodies[i], keys, records);
      if !inRange {
        return false, placed;
      }
      assert bodies[..i + 1][..i] == bodies[..i];
      AllPositionsConcat(Flat(bodies[..i]), bodies[i]);
    }
    assert bodies[..|bodies|] == bodies;
    return true, placed;
  }

  lemma BodyEntries(bodies: seq<seq<Entry>>, i: nat, keys: seq<string>, records: seq<string>)
    requires |keys| == |records| && i < |bodies| && EntriesFor(Flat(bodies), keys, records)
    ensures EntriesFor(bodies[i], keys, records)
  {
    forall k | 0 <= k < |bodies[i]| ensures EntryFor(bodies[i][k], keys, records) {
      FlatMembers(bodies, bodies[i][k]);
    }
  }
}
