/** Relation index postings (internal/storage/master_data_store_shared.go and
    master_data_postgres_store.go): built record by record, and equal to a scan
    of the records they were built from. */
module Postings {
  import opened Text
  import opened Json
  import opened IndexKeys

  /** index name -> index key -> record keys in stored order. */
  type Index = map<string, seq<string>>
  type Indexes = map<string, Index>

  function PostedIn(index: Index, key: string): seq<string> {
    if key in index then index[key] else []
  }

  function Posted(indexes: Indexes, name: string, key: string): seq<string> {
    if name in indexes then PostedIn(indexes[name], key) else []
  }

  predicate HasIndexKey(record: Option<Record>, name: string, key: string) {
    record.Some? && key in KeysOfRecord(record.value, name)
  }

  /** The record keys an index posts under one index key: those of the records
      carrying it, in order. */
  function PostedKeys(keys: seq<string>, records: seq<Option<Record>>, name: string, key: string): seq<string>
    requires |keys| == |records|
  {
    if keys == [] then []
    else
      var n := |keys| - 1;
      PostedKeys(keys[..n], records[..n], name, key) + if HasIndexKey(records[n], name, key) then [keys[n]] else []
  }

  /** Postings built for some index names from some keyed records. */
  ghost predicate PostingsFor(indexes: Indexes, names: seq<string>, keys: seq<string>, records: seq<Option<Record>>)
    requires |keys| == |records|
  {
    forall name, key :: Posted(indexes, name, key) == if name in names then PostedKeys(keys, records, name, key) else []
  }

  method NewEntityIndexes(names: seq<string>) returns (indexes: Indexes)
    ensures PostingsFor(indexes, names, [], []) && forall name :: name in indexes <==> name in names
  {
    indexes := map name | name in names :: map[];
  }

  /** Some keys of one index each gained a record key. */
  ghost predicate Gained(before: Index, after: Index, keys: seq<string>, storageKey: string) {
    forall key :: PostedIn(after, key) == PostedIn(before, key) + if key in keys then [storageKey] else []
  }

  /** index[key] = append(index[key], storageKey) */
  function Append(index: Index, key: string, storageKey: string): Index {
    index[key := PostedIn(index, key) + [storageKey]]
  }

  lemma AppendGains(before: Index, after: Index, keys: seq<string>, i: nat, storageKey: string)
    requires i < |keys| && Unrepeated(keys) && Gained(before, after, keys[..i], storageKey)
    ensures Gained(before, Append(after, keys[i], storageKey), keys[..i + 1], storageKey)
  {
    assert keys[..i + 1] == keys[..i] + [keys[i]];
    assert keys[i] !in keys[..i];
  }

  method AddToIndex(index: Index, name: string, storageKey: string, record: Record) returns (grown: Index)
    ensures Gained(index, grown, KeysOfRecord(record, name), storageKey)
  {
    var keys := IndexKeys.IndexKeys(record, name);
    RecordKeysUnrepeated(record, name);
    grown := index;
    for i := 0 to |keys|
      invariant Gained(index, grown, keys[..i], storageKey)
    {
      AppendGains(index, grown, keys, i, storageKey);
      grown := Append(grown, keys[i], storageKey);
    }
    assert keys[..|keys|] == keys;
  }

  /** One record's keys were posted under its storage key. */
  ghost predicate Added(before: Indexes, after: Indexes, name: string, storageKey: string, record: Option<Record>) {
    forall key :: Posted(after, name, key)
               == Posted(before, name, key) + if HasIndexKey(record, name, key) then [storageKey] else []
  }

  lemma GainedIsAdded(before: Indexes, after: Indexes, name: string, storageKey: string, record: Record)
    requires name in before && name in after
    requires Gained(before[name], after[name], KeysOfRecord(record, name), storageKey)
    ensures Added(before, after, name, storageKey, Some(record))
  {
  }

  lemma AddedElsewhere(before: Indexes, after: Indexes, name: string, index: Index, other: string, storageKey: string,
                       record: Option<Record>)
    requires other != name && Added(before, after, other, storageKey, record)
    ensures Added(before, after[name := index], other, storageKey, record)
  {
    forall key ensures Posted(after[name := index], other, key) == Posted(after, other, key) {
    }
  }

  /** addToEntityIndexes: one record's keys are posted under its storage key in
      every index, whatever order the indexes are visited in. */
  method AddToEntityIndexes(indexes: Indexes, storageKey: string, record: Option<Record>) returns (grown: Indexes)
    ensures forall name :: name in grown <==> name in indexes
    ensures forall name :: name in indexes ==> Added(indexes, grown, name, storageKey, record)
  {
    grown := indexes;
    if record.None? {
      return;
    }
    var pending := indexes.Keys;
    while pending != {}
      invariant pending <= indexes.Keys && forall name :: name in grown <==> name in indexes
      invariant forall name :: name in pending ==> grown[name] == indexes[name]
      invariant forall name :: name in indexes && name !in pending ==> Added(indexes, grown, name, storageKey, record)
    {
      var name :| name in pending;
      pending := pending - {name};
      var index := AddToIndex(indexes[name], name, storageKey, record.value);
      forall other | other in indexes && other !in pending && other != name
        ensures Added(indexes, grown[name := index], other, storageKey, record)
      {
        AddedElsewhere(indexes, grown, name, index, other, storageKey, record);
      }
      grown := grown[name := index];
      GainedIsAdded(indexes, grown, name, storageKey, record.value);
    }
  }

  lemma PostingsGrow(before: Indexes, after: Indexes, names: seq<string>, keys: seq<string>, records: seq<Option<Record>>,
                     n: nat)
    requires |keys| == |records| && n < |keys|
    requires PostingsFor(before, names, keys[..n], records[..n])
    requires forall name :: name in after <==> name in names
    requires forall name :: name in names ==> Added(before, after, name, keys[n], records[n])
    ensures PostingsFor(after, names, keys[..n + 1], records[..n + 1])
  {
    assert keys[..n + 1][..n] == keys[..n] && records[..n + 1][..n] == records[..n];
    forall name, key
      ensures Posted(after, name, key)
           == if name in names then PostedKeys(keys[..n + 1], records[..n + 1], name, key) else []
    {
      assert name in names ==> Posted(before, name, key) == PostedKeys(keys[..n], records[..n], name, key);
      assert name in names ==> Added(before, after, name, keys[n], records[n]);
    }
  }

  /** The loop over an entity's rows when its postings are rebuilt. */
  method BuildIndexes(names: seq<string>, keys: seq<string>, records: seq<Option<Record>>) returns (indexes: Indexes)
    requires |keys| == |records|
    ensures PostingsFor(indexes, names, keys, records)
  {
    indexes := NewEntityIndexes(names);
    for position := 0 to |keys|
      invariant forall name :: name in indexes <==> name in names
      invariant PostingsFor(indexes, names, keys[..position], records[..position])
    {
      var grown := AddToEntityIndexes(indexes, keys[position], records[position]);
      PostingsGrow(indexes, grown, names, keys, records, position);
      indexes := grown;
    }
    assert keys[..|keys|] == keys && records[..|records|] == records;
  }

  // ---------------------------------------------------------------- scanning

  /** A scan's answer for one index key: the records carrying it, in order and
      with multiplicity. */
  function Matching(records: seq<Record>, name: string, key: string): seq<Record> {
    if records == [] then []
    else
      var n := |records| - 1;
      Matching(records[..n], name, key) + if key in KeysOfRecord(records[n], name) then [records[n]] else []
  }
}
