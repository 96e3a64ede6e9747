/** What one entity holds: keyed records in source order, their revision, and
    the derived data built while collecting them or rebuilt from storage
    (internal/storage/master_data_postgres_store.go, collectEntity). */
module EntityContents {
  import opened Text
  import opened Json
  import opened RecordKeys
  import opened Blocks
  import opened BlockReads
  import opened StoreReads
  import opened IndexKeys
  import opened Postings
  import opened Projections

  /** The plain list of (key, body) pairs an entity was last written from. */
  datatype Contents = Contents(keys: seq<string>, bodies: seq<string>) {
    predicate Valid() {
      |keys| == |bodies| && "" !in keys && "" !in bodies
    }

    /** The record stored last under each row's key. */
    function Raws(): seq<Option<string>>
      requires Valid()
    {
      LastRecords(keys, bodies, keys)
    }
  }

  const NOTHING := Contents([], [])

  // ---------------------------------------------------------------- revision

  /** sha256 and hex encoding, taken to be injective. */
  ghost predicate Injective(sha: string -> string) {
    forall a, b :: sha(a) == sha(b) ==> a == b
  }

  /** What one record adds to the digest: `<len>:<key>:<len>:<body>;` */
  function RevisionPart(key: string, body: string): string {
    Part(key) + ":" + Part(body) + ";"
  }

  function RevisionText(contents: Contents): string
    requires |contents.keys| == |contents.bodies|
    decreases |contents.keys|
  {
    if contents.keys == [] then ""
    else RevisionPart(contents.keys[0], contents.bodies[0])
         + RevisionText(Contents(contents.keys[1..], contents.bodies[1..]))
  }

  lemma {:induction false} RevisionSnoc(contents: Contents, key: string, body: string)
    requires |contents.keys| == |contents.bodies|
    ensures RevisionText(Contents(contents.keys + [key], contents.bodies + [body]))
         == RevisionText(contents) + RevisionPart(key, body)
    decreases |contents.keys|
  {
    if contents.keys == [] {
      assert [key][1..] == [] && [body][1..] == [];
      assert contents.keys + [key] == [key] && contents.bodies + [body] == [body];
    } else {
      RevisionSnoc(Contents(contents.keys[1..], contents.bodies[1..]), key, body);
      assert (contents.keys + [key])[1..] == contents.keys[1..] + [key];
      assert (contents.bodies + [body])[1..] == contents.bodies[1..] + [body];
    }
  }

  lemma RevisionPartUnique(k: string, b: string, s: string, k': string, b': string, s': string)
    requires RevisionPart(k, b) + s == RevisionPart(k', b') + s'
    ensures k == k' && b == b' && s == s'
  {
    var t, t' := ":" + Part(b) + ";" + s, ":" + Part(b') + ";" + s';
    assert RevisionPart(k, b) + s == Part(k) + t && RevisionPart(k', b') + s' == Part(k') + t';
    PartUnique(k, t, k', t');
    assert t[1..] == Part(b) + (";" + s) && t'[1..] == Part(b') + (";" + s');
    PartUnique(b, ";" + s, b', ";" + s');
    assert s == (";" + s)[1..] && s' == (";" + s')[1..];
  }

  /** The digested text determines every key and body, so equal revisions mean
      equal contents, and skipping a rewrite on an equal revision skips nothing. */
  lemma {:induction false} RevisionTextInjective(a: Contents, b: Contents)
    requires |a.keys| == |a.bodies| && |b.keys| == |b.bodies|
    requires RevisionText(a) == RevisionText(b)
    ensures a == b
    decreases |a.keys|
  {
    if a.keys != [] && b.keys != [] {
      var a', b' := Contents(a.keys[1..], a.bodies[1..]), Contents(b.keys[1..], b.bodies[1..]);
      RevisionPartUnique(a.keys[0], a.bodies[0], RevisionText(a'), b.keys[0], b.bodies[0], RevisionText(b'));
      RevisionTextInjective(a', b');
      assert a.keys == [a.keys[0]] + a'.keys && b.keys == [b.keys[0]] + b'.keys;
      assert a.bodies == [a.bodies[0]] + a'.bodies && b.bodies == [b.bodies[0]] + b'.bodies;
    }
  }

  function Revision(sha: string -> string, contents: Contents): string
    requires |contents.keys| == |contents.bodies|
  {
    sha(RevisionText(contents))
  }

  // ---------------------------------------------------------------- collecting

  /** Empty raw records are skipped. */
  function NonEmpty(raws: seq<string>): seq<string> {
    if raws == [] then []
    else
      var n := |raws| - 1;
      NonEmpty(raws[..n]) + if raws[n] == "" then [] else [raws[n]]
  }

  function InputsOf(decode: Decoder, bodies: seq<string>): seq<Input> {
    seq(|bodies|, i requires 0 <= i < |bodies| => Input(decode(bodies[i]), bodies[i]))
  }

  function KeysFor(sha: string -> string, decode: Decoder, entity: string, bodies: seq<string>): seq<string> {
    seq(|bodies|, i requires 0 <= i < |bodies| => KeyAt(sha, entity, InputsOf(decode, bodies), i))
  }

  /** What an entity holds once a source file's raw records are stored. */
  function ContentsOf(sha: string -> string, decode: Decoder, entity: string, raws: seq<string>): Contents {
    var bodies := NonEmpty(raws);
    Contents(KeysFor(sha, decode, entity, bodies), bodies)
  }

  lemma {:induction false} NoneEmpty(raws: seq<string>)
    ensures "" !in NonEmpty(raws)
  {
    if raws != [] {
      NoneEmpty(raws[..|raws| - 1]);
    }
  }

  lemma KeyNeverEmpty(sha: string -> string, entity: string, occurrences: Occurrences, input: Input)
    requires input.body != ""
    ensures KeyStep(sha, entity, occurrences, input).0 != ""
  {
  }

  lemma CollectedValid(sha: string -> string, decode: Decoder, entity: string, raws: seq<string>)
    ensures ContentsOf(sha, decode, entity, raws).Valid()
  {
    var bodies := NonEmpty(raws);
    NoneEmpty(raws);
    var inputs := InputsOf(decode, bodies);
    forall i | 0 <= i < |bodies| ensures KeyAt(sha, entity, inputs, i) != "" {
      assert bodies[i] in bodies;
      KeyNeverEmpty(sha, entity, OccurrencesAfter(sha, entity, inputs[..i]), inputs[i]);
    }
  }

  /** rawRecordMap: a body as the indexes and the projection see it when it is
      collected. An empty object counts as no record. */
  function RawRecordMap(decode: Decoder, body: string): Option<Record> {
    var decoded := decode(body);
    if body == "" || !decoded.Fields? || decoded.record == map[] then None else Some(decoded.record)
  }

  /** Each occurrence's own record. */
  function CollectedRecords(decode: Decoder, bodies: seq<string>): seq<Option<Record>> {
    seq(|bodies|, i requires 0 <= i < |bodies| => RawRecordMap(decode, bodies[i]))
  }

  /** Each row's record as it reads back from storage. */
  function RebuiltRecords(decode: Decoder, contents: Contents): seq<Option<Record>>
    requires contents.Valid()
  {
    StoredRecords(decode, contents.Raws())
  }

  function PresentKeys(keys: seq<string>, records: seq<Option<Record>>): seq<string>
    requires |keys| == |records|
  {
    if keys == [] then []
    else
      var n := |keys| - 1;
      PresentKeys(keys[..n], records[..n]) + if records[n].Some? then [keys[n]] else []
  }

  lemma {:induction false} PresentAligned(keys: seq<string>, records: seq<Option<Record>>)
    requires |keys| == |records|
    ensures |PresentKeys(keys, records)| == |Present(records)|
  {
    if keys != [] {
      PresentAligned(keys[..|keys| - 1], records[..|keys| - 1]);
    }
  }

  /** The projection of some keyed records, or none when no field is projected. */
  function ProjectionFor(fields: seq<string>, keys: seq<string>, records: seq<Option<Record>>): Option<Projection>
    requires |keys| == |records|
  {
    if fields == [] then None else Some(ProjectionOf(fields, PresentKeys(keys, records), Present(records)))
  }

  /** The loop feeding keyed records to an entity's builder; there is no builder
      without fields. */
  method ProjectRows(fields: seq<string>, keys: seq<string>, records: seq<Option<Record>>)
    returns (projection: Option<Projection>)
    requires |keys| == |records|
    ensures projection == ProjectionFor(fields, keys, records)
  {
    if fields == [] {
      return None;
    }
    var builder := new ProjectionBuilder(fields);
    for position := 0 to |records|
      invariant fresh(builder) && builder.Valid() && builder.fields == fields
      invariant builder.keys == PresentKeys(keys[..position], records[..position])
      invariant builder.records == Present(records[..position])
    {
      assert keys[..position + 1][..position] == keys[..position];
      assert records[..position + 1][..position] == records[..position];
      if records[position].Some? {
        builder.Add(keys[position], records[position].value);
      }
    }
    assert keys[..|keys|] == keys && records[..|records|] == records;
    var built := builder.Build();
    return Some(built);
  }

  /** BuildProjection: an entity without projected fields gets an empty projection. */
  method BuildProjection(fields: seq<string>, keys: seq<string>, records: seq<Option<Record>>)
    returns (projection: Projection)
    requires |keys| == |records|
    ensures projection == if fields == [] then Projection([], map[])
                          else ProjectionOf(fields, PresentKeys(keys, records), Present(records))
  {
    var built := ProjectRows(fields, keys, records);
    return if built.Some? then built.value else Projection([], map[]);
  }
}
