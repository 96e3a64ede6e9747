/** collectEntity (internal/storage/master_data_postgres_store.go): one pass over
    a source file's raw records that keys them and builds their derived data. */
module Collecting {
  import opened Text
  import opened Json
  import opened RecordKeys
  import opened StoreReads
  import opened Postings
  import opened Projections
  import opened EntityContents

  datatype CollectedEntity = CollectedEntity(
    keys: seq<string>,
    records: seq<string>,
    revision: string,
    indexes: Indexes,
    projection: Option<Projection>)

  /** Everything collected belongs to the same contents. */
  ghost predicate CollectedFrom(collected: CollectedEntity, sha: string -> string, decode: Decoder,
                                names: seq<string>, fields: seq<string>, contents: Contents)
    requires |contents.keys| == |contents.bodies|
  {
    && Contents(collected.keys, collected.records) == contents
    && collected.revision == Revision(sha, contents)
    && PostingsFor(collected.indexes, names, contents.keys, CollectedRecords(decode, contents.bodies))
    && collected.projection == ProjectionFor(fields, contents.keys, CollectedRecords(decode, contents.bodies))
  }

  lemma EarlierKeysStay(sha: string -> string, entity: string, inputs: seq<Input>, input: Input, i: nat)
    requires i < |inputs|
    ensures KeyAt(sha, entity, inputs + [input], i) == KeyAt(sha, entity, inputs, i)
  {
    assert (inputs + [input])[..i] == inputs[..i];
  }

  lemma LastKey(sha: string -> string, entity: string, inputs: seq<Input>, input: Input)
    ensures (KeyAt(sha, entity, inputs + [input], |inputs|), OccurrencesAfter(sha, entity, inputs + [input]))
         == KeyStep(sha, entity, OccurrencesAfter(sha, entity, inputs), input)
  {
    assert (inputs + [input])[..|inputs|] == inputs;
  }

  lemma InputsGrow(decode: Decoder, bodies: seq<string>, body: string)
    ensures InputsOf(decode, bodies + [body]) == InputsOf(decode, bodies) + [Input(decode(body), body)]
  {
  }

  lemma KeysGrow(sha: string -> string, decode: Decoder, entity: string, bodies: seq<string>, body: string, key: string,
                 inputs: seq<Input>)
    requires inputs == InputsOf(decode, bodies)
    requires key == KeyAt(sha, entity, inputs + [Input(decode(body), body)], |inputs|)
    ensures KeysFor(sha, decode, entity, bodies + [body]) == KeysFor(sha, decode, entity, bodies) + [key]
  {
    InputsGrow(decode, bodies, body);
    forall i | 0 <= i < |bodies|
      ensures KeyAt(sha, entity, inputs + [Input(decode(body), body)], i) == KeyAt(sha, entity, inputs, i)
    {
      EarlierKeysStay(sha, entity, inputs, Input(decode(body), body), i);
    }
  }

  lemma RawsGrow(raws: seq<string>, i: nat)
    requires i < |raws|
    ensures NonEmpty(raws[..i + 1]) == NonEmpty(raws[..i]) + if raws[i] == "" then [] else [raws[i]]
  {
    assert raws[..i + 1][..i] == raws[..i];
  }

  /** The first i raw records are keyed: the rows so far and the keyer's state. */
  ghost predicate KeyedSoFar(sha: string -> string, decode: Decoder, entity: string, raws: seq<string>, i: nat,
                             rows: Contents, occurrences: Occurrences)
    requires i <= |raws|
  {
    && rows == ContentsOf(sha, decode, entity, raws[..i])
    && occurrences == OccurrencesAfter(sha, entity, InputsOf(decode, rows.bodies))
  }

  lemma NothingKeyed(sha: string -> string, decode: Decoder, entity: string, raws: seq<string>)
    ensures KeyedSoFar(sha, decode, entity, raws, 0, NOTHING, map[])
  {
    assert InputsOf(decode, []) == [];
  }

  lemma SkippedOne(sha: string -> string, decode: Decoder, entity: string, raws: seq<string>, i: nat,
                   rows: Contents, occurrences: Occurrences)
    requires i < |raws| && raws[i] == "" && KeyedSoFar(sha, decode, entity, raws, i, rows, occurrences)
    ensures KeyedSoFar(sha, decode, entity, raws, i + 1, rows, occurrences)
  {
    RawsGrow(raws, i);
    assert NonEmpty(raws[..i]) + [] == NonEmpty(raws[..i]);
    assert NonEmpty(raws[..i + 1]) == NonEmpty(raws[..i]);
  }

  lemma KeyedOneMore(sha: string -> string, decode: Decoder, entity: string, raws: seq<string>, i: nat,
                     rows: Contents, before: Occurrences, key: string, after: Occurrences)
    requires i < |raws| && raws[i] != "" && KeyedSoFar(sha, decode, entity, raws, i, rows, before)
    requires (key, after) == KeyStep(sha, entity, before, Input(decode(raws[i]), raws[i]))
    ensures key != ""
    ensures KeyedSoFar(sha, decode, entity, raws, i + 1, Contents(rows.keys + [key], rows.bodies + [raws[i]]), after)
  {
    var inputs, input := InputsOf(decode, rows.bodies), Input(decode(raws[i]), raws[i]);
    RawsGrow(raws, i);
    InputsGrow(decode, rows.bodies, raws[i]);
    KeyNeverEmpty(sha, entity, before, input);
    LastKey(sha, entity, inputs, input);
    KeysGrow(sha, decode, entity, rows.bodies, raws[i], key, inputs);
  }

  /** Derived state that describes some rows: the digest text, the postings, and
      what was fed to the projection builder. */
  datatype Derived = Derived(digest: string, indexes: Indexes, projectedKeys: seq<string>, projected: seq<Record>)

  ghost predicate Describes(derived: Derived, decode: Decoder, names: seq<string>, rows: Contents) {
    && |rows.keys| == |rows.bodies|
    && derived.digest == RevisionText(rows)
    && (forall name :: name in derived.indexes <==> name in names)
    && PostingsFor(derived.indexes, names, rows.keys, CollectedRecords(decode, rows.bodies))
    && derived.projectedKeys == PresentKeys(rows.keys, CollectedRecords(decode, rows.bodies))
    && derived.projected == Present(CollectedRecords(decode, rows.bodies))
  }

  lemma RecordsGrow(decode: Decoder, bodies: seq<string>, body: string)
    ensures CollectedRecords(decode, bodies + [body]) == CollectedRecords(decode, bodies) + [RawRecordMap(decode, body)]
  {
  }

  lemma PresentGrow(keys: seq<string>, records: seq<Option<Record>>, key: string, record: Option<Record>)
    requires |keys| == |records|
    ensures PresentKeys(keys + [key], records + [record])
         == PresentKeys(keys, records) + if record.Some? then [key] else []
    ensures Present(records + [record]) == Present(records) + if record.Some? then [record.value] else []
  {
    assert (records + [record])[..|records|] == records && (keys + [key])[..|keys|] == keys;
  }

  lemma PostingsOfOneMore(before: Indexes, after: Indexes, names: seq<string>,
                          keys: seq<string>, records: seq<Option<Record>>, key: string, record: Option<Record>)
    requires |keys| == |records| && PostingsFor(before, names, keys, records)
    requires forall name :: name in after <==> name in names
    requires forall name :: name in names ==> Added(before, after, name, key, record)
    ensures PostingsFor(after, names, keys + [key], records + [record])
  {
    var n, allKeys, allRecords := |keys|, keys + [key], records + [record];
    assert allKeys[..n] == keys && allRecords[..n] == records;
    PostingsGrow(before, after, names, allKeys, allRecords, n);
    assert allKeys[..n + 1] == allKeys && allRecords[..n + 1] == allRecords;
  }

  lemma DescribesOneMore(before: Derived, after: Derived, decode: Decoder, names: seq<string>, rows: Contents,
                         key: string, body: string)
    requires Describes(before, decode, names, rows)
    requires after.digest == before.digest + RevisionPart(key, body)
    requires forall name :: name in after.indexes <==> name in names
    requires forall name :: name in names ==> Added(before.indexes, after.indexes, name, key, RawRecordMap(decode, body))
    requires var record := RawRecordMap(decode, body);
             after.projectedKeys == before.projectedKeys + (if record.Some? then [key] else []) &&
             after.projected == before.projected + if record.Some? then [record.value] else []
    ensures Describes(after, decode, names, Contents(rows.keys + [key], rows.bodies + [body]))
  {
    var records, record := CollectedRecords(decode, rows.bodies), RawRecordMap(decode, body);
    RevisionSnoc(rows, key, body);
    RecordsGrow(decode, rows.bodies, body);
    PresentGrow(rows.keys, records, key, record);
    PostingsOfOneMore(before.indexes, after.indexes, names, rows.keys, records, key, record);
  }

  /** The closure `add` of collectEntity and the state it appends to. */
  class EntityCollector {
    const decode: Decoder
    const names: seq<string>
    const fields: seq<string>
    const builder: ProjectionBuilder
    var keys: seq<string>
    var records: seq<string>
    var indexes: Indexes
    var digest: string

    ghost predicate Valid()
      reads this, builder
    {
      builder.Valid() && builder.fields == fields && Describes(State(), decode, names, Rows())
    }

    ghost function Rows(): Contents
      reads this
    {
      Contents(keys, records)
    }

    ghost function State(): Derived
      reads this, builder
    {
      Derived(digest, indexes, builder.keys, builder.records)
    }

    constructor (decode: Decoder, names: seq<string>, fields: seq<string>)
      ensures Valid() && fresh(builder) && Rows() == NOTHING
      ensures this.decode == decode && this.names == names && this.fields == fields
    {
      this.decode, this.names, this.fields := decode, names, fields;
      keys, records, digest := [], [], "";
      builder := new ProjectionBuilder(fields);
      new;
      indexes := NewEntityIndexes(names);
      assert CollectedRecords(decode, []) == [];
    }

    method Add(key: string, body: string)
      requires Valid()
      modifies this, builder
      ensures Valid() && Rows() == Contents(old(keys) + [key], old(records) + [body])
    {
      ghost var before := State();
      var record := RawRecordMap(decode, body);
      keys := keys + [key];
      records := records + [body];
      indexes := AddToEntityIndexes(indexes, key, record);
      if record.Some? {
        builder.Add(key, record.value);
      }
      digest := digest + RevisionPart(key, body);
      DescribesOneMore(before, State(), decode, names, old(Rows()), key, body);
    }

    method Projection() returns (projection: Option<Projection>)
      requires Valid()
      ensures projection == ProjectionFor(fields, keys, CollectedRecords(decode, records))
    {
      if fields == [] {
        return None;
      }
      var built := builder.Build();
      return Some(built);
    }

    /** The collected entity once every record is in. */
    method Finish(sha: string -> string) returns (collected: CollectedEntity)
      requires Valid()
      ensures |keys| == |records| && CollectedFrom(collected, sha, decode, names, fields, Rows())
    {
      var projection := Projection();
      return CollectedEntity(keys, records, sha(digest), indexes, projection);
    }
  }

  method CollectEntity(sha: string -> string, decode: Decoder, entity: string, names: seq<string>, fields: seq<string>,
                       raws: seq<string>)
    returns (collected: CollectedEntity)
    ensures CollectedFrom(collected, sha, decode, names, fields, ContentsOf(sha, decode, entity, raws))
  {
    var keyer := new RecordKeyer(entity, sha);
    var collector := new EntityCollector(decode, names, fields);
    NothingKeyed(sha, decode, entity, raws);
    for i := 0 to |raws|
      invariant fresh(keyer) && keyer.sha == sha && keyer.entity == entity
      invariant fresh(collector) && fresh(collector.builder) && collector.Valid()
      invariant collector.decode == decode && collector.names == names && collector.fields == fields
      invariant KeyedSoFar(sha, decode, entity, raws, i, collector.Rows(), keyer.fallbackOccurrences)
    {
      var raw := raws[i];
      ghost var rows, before := collector.Rows(), keyer.fallbackOccurrences;
      if raw == "" {
        SkippedOne(sha, decode, entity, raws, i, rows, before);
        continue;
      }
      var key := keyer.Key(decode(raw), raw);
      KeyedOneMore(sha, decode, entity, raws, i, rows, before, key, keyer.fallbackOccurrences);
      if key != "" {
        collector.Add(key, raw);
      }
    }
    assert raws[..|raws|] == raws;
    collected := collector.Finish(sha);
  }
}
