/** ListByIndex and scanByIndex (internal/storage/master_data_postgres_store.go):
    reading records by relation index, from postings or by scanning. */
module IndexReads {
  import opened Text
  import opened Json
  import opened BlockSortKeys
  import opened Blocks
  import opened BlockReads
  import opened StoreReads
  import opened IndexKeys
  import opened Postings
  import opened EntityContents
  import opened DerivedData

  type Lookup = seq<Value>

  /** The index key each lookup asks for, if any. */
  function AskedKeys(lookups: seq<Lookup>): seq<Option<string>> {
    seq(|lookups|, p requires 0 <= p < |lookups| => LookupKey(lookups[p]))
  }

  /** What a read by index answers: nothing for a lookup without a key, else the
      records carrying its key. */
  function Answer(records: seq<Record>, index: string, asked: Option<string>): Option<seq<Record>> {
    if asked.None? then None else Some(Matching(records, index, asked.value))
  }

  function Answers(records: seq<Record>, index: string, asked: seq<Option<string>>): seq<Option<seq<Record>>> {
    seq(|asked|, p requires 0 <= p < |asked| => Answer(records, index, asked[p]))
  }

  /** A lookup without values, or with one that cannot be a key part, has no answer;
      every other one has the records carrying its key. */
  lemma AnswersExact(records: seq<Record>, index: string, lookups: seq<Lookup>, p: nat)
    requires p < |lookups|
    ensures |Answers(records, index, AskedKeys(lookups))| == |lookups|
    ensures var answer := Answers(records, index, AskedKeys(lookups))[p];
            && (answer.None? <==>
                  lookups[p] == [] || exists i :: 0 <= i < |lookups[p]| && CanonicalKeyPart(lookups[p][i]).None?)
            && (answer.Some? ==>
                  LookupKey(lookups[p]).Some? && answer.value == Matching(records, index, LookupKey(lookups[p]).value))
  {
    UsableParts(lookups[p]);
  }

  lemma {:induction false} UsableParts(values: seq<Value>)
    ensures LookupParts(values).None? <==> exists i :: 0 <= i < |values| && CanonicalKeyPart(values[i]).None?
  {
    if values != [] {
      var n := |values| - 1;
      UsableParts(values[..n]);
      assert forall i :: 0 <= i < n ==> values[..n][i] == values[i];
    }
  }

  /** The keyed lookups, by position. */
  ghost predicate Wanted(asked: seq<Option<string>>, keys: seq<string>, positions: seq<nat>) {
    && |keys| == |positions|
    && (forall j :: 0 <= j < |keys| ==> positions[j] < |asked| && asked[positions[j]] == Some(keys[j]))
    && Unrepeated(positions)
    && (forall p :: 0 <= p < |asked| && asked[p].Some? ==> p in positions)
  }

  lemma OneMoreLookup(asked: seq<Option<string>>, n: nat, keys: seq<string>, positions: seq<nat>)
    requires n < |asked| && Wanted(asked[..n], keys, positions)
    ensures asked[n].None? ==> Wanted(asked[..n + 1], keys, positions)
    ensures asked[n].Some? ==> Wanted(asked[..n + 1], keys + [asked[n].value], positions + [n])
  {
    assert asked[..n + 1] == asked[..n] + [asked[n]];
  }

  method KeyedLookups(lookups: seq<Lookup>) returns (keys: seq<string>, positions: seq<nat>)
    ensures Wanted(AskedKeys(lookups), keys, positions)
  {
    ghost var asked := AskedKeys(lookups);
    keys, positions := [], [];
    for p := 0 to |lookups|
      invariant Wanted(asked[..p], keys, positions)
    {
      OneMoreLookup(asked, p, keys, positions);
      var key := IndexLookupKey(lookups[p]);
      assert key == asked[p];
      if key.Some? {
        keys := keys + [key.value];
        positions := positions + [p];
      }
    }
    assert asked[..|lookups|] == asked;
  }

  // ---------------------------------------------------------------- scanning

  type Results = seq<Option<seq<Record>>>
  type Positions = map<string, seq<nat>>

  function PositionsWanting(wanted: Positions, key: string): seq<nat> {
    if key in wanted then wanted[key] else []
  }

  /** wanted holds, for each key, the positions of the lookups asking for it. */
  ghost predicate WantedBy(wanted: Positions, asked: seq<Option<string>>) {
    forall key :: WantedUnder(wanted, asked, key)
  }

  ghost predicate WantedUnder(wanted: Positions, asked: seq<Option<string>>, key: string) {
    && Unrepeated(PositionsWanting(wanted, key))
    && forall p :: p in PositionsWanting(wanted, key) <==> 0 <= p < |asked| && asked[p] == Some(key)
  }

  ghost predicate WantedSoFar(wanted: Positions, keys: seq<string>, positions: seq<nat>, n: nat, key: string)
    requires n <= |keys| == |positions|
  {
    && Unrepeated(PositionsWanting(wanted, key))
    && forall p :: p in PositionsWanting(wanted, key) <==> AskedBefore(keys, positions, n, p, key)
  }

  predicate AskedBefore(keys: seq<string>, positions: seq<nat>, n: nat, p: nat, key: string)
    requires n <= |keys| == |positions|
  {
    exists j :: 0 <= j < n && positions[j] == p && keys[j] == key
  }

  lemma AskedOneMore(keys: seq<string>, positions: seq<nat>, n: nat, p: nat, key: string)
    requires n < |keys| == |positions|
    ensures AskedBefore(keys, positions, n + 1, p, key) <==>
            AskedBefore(keys, positions, n, p, key) || (positions[n] == p && keys[n] == key)
  {
  }

  lemma OneMoreWanted(wanted: Positions, keys: seq<string>, positions: seq<nat>, n: nat, key: string)
    requires n < |keys| == |positions| && Unrepeated(positions) && WantedSoFar(wanted, keys, positions, n, key)
    ensures WantedSoFar(wanted[keys[n] := PositionsWanting(wanted, keys[n]) + [positions[n]]], keys, positions, n + 1, key)
  {
    var after := wanted[keys[n] := PositionsWanting(wanted, keys[n]) + [positions[n]]];
    assert PositionsWanting(after, key) == PositionsWanting(wanted, key) + if key == keys[n] then [positions[n]] else [];
    assert !AskedBefore(keys, positions, n, positions[n], key);
    forall p: nat ensures p in PositionsWanting(after, key) <==> AskedBefore(keys, positions, n + 1, p, key) {
      AskedOneMore(keys, positions, n, p, key);
    }
  }

  lemma AllWanted(wanted: Positions, asked: seq<Option<string>>, keys: seq<string>, positions: seq<nat>, key: string)
    requires Wanted(asked, keys, positions) && WantedSoFar(wanted, keys, positions, |keys|, key)
    ensures WantedUnder(wanted, asked, key)
  {
    forall p: nat
      ensures AskedBefore(keys, positions, |keys|, p, key) <==> p < |asked| && asked[p] == Some(key)
    {
      if p < |asked| && asked[p] == Some(key) {
        assert p in positions;
      }
    }
  }

  method WantedPositions(ghost asked: seq<Option<string>>, keys: seq<string>, positions: seq<nat>)
    returns (wanted: Positions)
    requires Wanted(asked, keys, positions)
    ensures WantedBy(wanted, asked)
  {
    wanted := map[];
    for j := 0 to |keys|
      invariant forall key :: WantedSoFar(wanted, keys, positions, j, key)
    {
      var next, n := wanted[keys[j] := PositionsWanting(wanted, keys[j]) + [positions[j]]], j + 1;
      forall key ensures WantedSoFar(next, keys, positions, n, key) {
        OneMoreWanted(wanted, keys, positions, j, key);
      }
      wanted := next;
    }
    forall key ensures WantedUnder(wanted, asked, key) {
      AllWanted(wanted, asked, keys, positions, key);
    }
  }

  method AppendAt(results: Results, positions: seq<nat>, record: Record) returns (grown: Results)
    requires Unrepeated(positions)
    requires forall p :: p in positions ==> p < |results| && results[p].Some?
    ensures |grown| == |results|
    ensures forall p :: 0 <= p < |results| ==>
              grown[p] == if p in positions then Some(results[p].value + [record]) else results[p]
  {
    grown := results;
    for i := 0 to |positions|
      invariant |grown| == |results|
      invariant forall p :: 0 <= p < |results| ==>
                  grown[p] == if p in positions[..i] then Some(results[p].value + [record]) else results[p]
    {
      assert positions[..i + 1] == positions[..i] + [positions[i]];
      assert positions[i] in positions && positions[i] !in positions[..i];
      grown := grown[positions[i] := Some(grown[positions[i]].value + [record])];
    }
    assert positions[..|positions|] == positions;
  }

  predicate Asks(asked: Option<string>, keys: seq<string>) {
    asked.Some? && asked.value in keys
  }

  function WithRecord(result: Option<seq<Record>>, asked: Option<string>, keys: seq<string>, record: Record)
    : Option<seq<Record>>
    requires asked.Some? ==> result.Some?
  {
    if Asks(asked, keys) then Some(result.value + [record]) else result
  }

  /** One scanned record lands once in every result that asks for one of its keys. */
  method AppendRecord(results: Results, wanted: Positions, ghost asked: seq<Option<string>>, record: Record,
                      keys: seq<string>)
    returns (grown: Results)
    requires |results| == |asked| && WantedBy(wanted, asked) && Unrepeated(keys)
    requires forall p :: 0 <= p < |asked| && asked[p].Some? ==> results[p].Some?
    ensures |grown| == |results|
    ensures forall p :: 0 <= p < |results| ==> grown[p] == WithRecord(results[p], asked[p], keys, record)
  {
    grown := results;
    for k := 0 to |keys|
      invariant |grown| == |results|
      invariant forall p :: 0 <= p < |results| ==> grown[p] == WithRecord(results[p], asked[p], keys[..k], record)
    {
      assert keys[..k + 1] == keys[..k] + [keys[k]];
      assert keys[k] !in keys[..k];
      assert WantedUnder(wanted, asked, keys[k]);
      grown := AppendAt(grown, PositionsWanting(wanted, keys[k]), record);
    }
    assert keys[..|keys|] == keys;
  }

  lemma AnswerGrows(records: seq<Record>, record: Record, index: string, asked: Option<string>)
    ensures Answer(records + [record], index, asked)
         == WithRecord(Answer(records, index, asked), asked, KeysOfRecord(record, index), record)
  {
    if asked.Some? {
      var keys := KeysOfRecord(record, index);
      var before := Matching(records, index, asked.value);
      MatchingSnoc(records, record, index, asked.value);
      if asked.value !in keys {
        assert before + [] == before;
      }
    }
  }

  lemma AnswersGrow(before: Results, after: Results, records: seq<Record>, record: Record, index: string,
                    asked: seq<Option<string>>)
    requires before == Answers(records, index, asked) && |after| == |before|
    requires forall p :: 0 <= p < |before| ==>
               after[p] == WithRecord(before[p], asked[p], KeysOfRecord(record, index), record)
    ensures after == Answers(records + [record], index, asked)
  {
    forall p | 0 <= p < |asked| ensures after[p] == Answer(records + [record], index, asked[p]) {
      AnswerGrows(records, record, index, asked[p]);
    }
  }

  lemma ScanStep(before: Results, after: Results, records: seq<Record>, i: nat, index: string, asked: seq<Option<string>>,
                 keys: seq<string>)
    requires i < |records| && keys == KeysOfRecord(records[i], index)
    requires before == Answers(records[..i], index, asked) && |after| == |before|
    requires forall p :: 0 <= p < |before| ==> after[p] == WithRecord(before[p], asked[p], keys, records[i])
    ensures after == Answers(records[..i + 1], index, asked)
  {
    AnswersGrow(before, after, records[..i], records[i], index, asked);
    assert records[..i + 1] == records[..i] + [records[i]];
  }

  /** The empty answers of the keyed lookups. */
  method NoRecords(ghost asked: seq<Option<string>>, lookups: nat, positions: seq<nat>, ghost keys: seq<string>,
                   ghost index: string)
    returns (results: Results)
    requires Wanted(asked, keys, positions) && lookups == |asked|
    ensures results == Answers([], index, asked)
  {
    results := seq(lookups, _ => None);
    for j := 0 to |positions|
      invariant |results| == |asked|
      invariant forall p :: 0 <= p < |asked| ==> results[p] == if p in positions[..j] then Some([]) else None
    {
      assert positions[..j + 1] == positions[..j] + [positions[j]];
      results := results[positions[j] := Some([])];
    }
    assert positions[..|positions|] == positions;
  }

  /** scanByIndex over an entity's records. */
  method ScanByIndex(records: seq<Record>, index: string, ghost asked: seq<Option<string>>, lookups: nat,
                     keys: seq<string>, positions: seq<nat>)
    returns (results: Results)
    requires Wanted(asked, keys, positions) && lookups == |asked|
    ensures results == Answers(records, index, asked)
  {
    var wanted := WantedPositions(asked, keys, positions);
    results := NoRecords(asked, lookups, positions, keys, index);
    assert records[..0] == [];
    for i := 0 to |records|
      invariant results == Answers(records[..i], index, asked)
    {
      ghost var before := results;
      var recordKeys := IndexKeys.IndexKeys(records[i], index);
      RecordKeysUnrepeated(records[i], index);
      results := AppendRecord(results, wanted, asked, records[i], recordKeys);
      ScanStep(before, results, records, i, index, asked, recordKeys);
    }
    assert records[..|records|] == records;
  }

  // ---------------------------------------------------------------- postings

  /** The posting rows of some index keys. */
  method QueryPostings(indexes: Indexes, index: string, keys: seq<string>) returns (postings: Index)
    ensures forall key :: key in keys ==> PostedIn(postings, key) == Posted(indexes, index, key)
  {
    if index !in indexes {
      return map[];
    }
    postings := map key | key in indexes[index] && key in keys :: indexes[index][key];
  }

  predicate PostedUnder(postings: Index, keys: seq<string>, recordKey: string) {
    exists j :: 0 <= j < |keys| && recordKey in PostedIn(postings, keys[j])
  }

  /** Every posted record key, as `unnest(record_keys)` lists them. */
  method PostedRecordKeys(postings: Index, keys: seq<string>) returns (posted: seq<string>)
    ensures forall recordKey :: recordKey in posted <==> PostedUnder(postings, keys, recordKey)
  {
    posted := [];
    for j := 0 to |keys|
      invariant forall recordKey :: recordKey in posted <==> PostedUnder(postings, keys[..j], recordKey)
    {
      forall recordKey
        ensures PostedUnder(postings, keys[..j + 1], recordKey)
           <==> PostedUnder(postings, keys[..j], recordKey) || recordKey in PostedIn(postings, keys[j])
      {
        PostedUnderOneMore(postings, keys, j, recordKey);
      }
      posted := posted + PostedIn(postings, keys[j]);
    }
    assert keys[..|keys|] == keys;
  }

  lemma PostedUnderOneMore(postings: Index, keys: seq<string>, j: nat, recordKey: string)
    requires j < |keys|
    ensures PostedUnder(postings, keys[..j + 1], recordKey)
       <==> PostedUnder(postings, keys[..j], recordKey) || recordKey in PostedIn(postings, keys[j])
  {
    assert forall i :: 0 <= i < j ==> keys[..j][i] == keys[i] == keys[..j + 1][i];
    assert keys[..j + 1][j] == keys[j];
  }

  /** The posted record keys that have a raw record, each once. */
  method UniqueLoaded(posted: seq<string>, raws: map<string, string>) returns (unique: seq<string>)
    ensures forall recordKey :: recordKey in unique <==> recordKey in posted && recordKey in raws
  {
    unique := [];
    var seen: set<string> := {};
    for i := 0 to |posted|
      invariant forall recordKey :: recordKey in seen <==> recordKey in unique
      invariant forall recordKey :: recordKey in unique <==> recordKey in posted[..i] && recordKey in raws
    {
      assert posted[..i + 1] == posted[..i] + [posted[i]];
      if posted[i] !in seen && posted[i] in raws {
        seen := seen + {posted[i]};
        unique := unique + [posted[i]];
      }
    }
    assert posted[..|posted|] == posted;
  }

  /** What an index key's posted records read back as. */
  function PostedAnswer(decode: Decoder, contents: Contents, indexes: Indexes, index: string, asked: Option<string>)
    : Option<seq<Record>>
    requires contents.Valid()
  {
    if asked.None? then None else Some(ReadBack(decode, contents, Posted(indexes, index, asked.value)))
  }

  ghost predicate KeysDecode(decode: Decoder, contents: Contents, recordKeys: seq<string>)
    requires contents.Valid()
  {
    forall i :: 0 <= i < |recordKeys| ==> Decodes(decode, LastRecord(contents.keys, contents.bodies, recordKeys[i]))
  }

  /** The blocks located for the posted record keys, and the records in them. */
  method LoadPosted(table: Table, posted: seq<string>, ghost contents: Contents) returns (raws: map<string, string>)
    requires contents.Valid() && TableFor(table, contents.keys, contents.bodies)
    ensures forall recordKey :: recordKey in posted ==>
              LastRecord(contents.keys, contents.bodies, recordKey)
                == if recordKey in raws then Some(raws[recordKey]) else None
  {
    var sortKeys := SortKeysOf(posted);
    var bodies := SelectLocated(table, sortKeys);
    raws := BlockRecordsByKey(bodies);
    forall recordKey | recordKey in posted
      ensures LastRecord(contents.keys, contents.bodies, recordKey)
           == if recordKey in raws then Some(raws[recordKey]) else None
    {
      var i :| 0 <= i < |posted| && posted[i] == recordKey;
      LoadedRecordIsLast(table, sortKeys, bodies, raws, contents.keys, contents.bodies, recordKey);
    }
  }

  /** Each loaded record decoded once, by record key. */
  method DecodeLoaded(decode: Decoder, posted: seq<string>, raws: map<string, string>)
    returns (records: Result<map<string, Option<Record>>>)
    ensures records.Ok? <==>
            forall recordKey :: recordKey in posted && recordKey in raws ==> decode(raws[recordKey]) != Undecodable
    ensures records.Ok? ==> forall recordKey :: recordKey in posted ==>
              (recordKey in records.value <==> recordKey in raws) &&
              (recordKey in raws ==> records.value[recordKey] == StoredRecord(decode, Some(raws[recordKey])))
  {
    var unique := UniqueLoaded(posted, raws);
    assert forall i :: 0 <= i < |unique| ==> unique[i] in unique;
    var uniqueRaws := seq(|unique|, i requires 0 <= i < |unique| && unique[i] in raws => Some(raws[unique[i]]));
    assert forall i :: 0 <= i < |unique| ==> uniqueRaws[i] == Some(raws[unique[i]]);
    var decoded := DecodeRecords(decode, uniqueRaws);
    if decoded.Err? {
      var i :| 0 <= i < |uniqueRaws| && !Decodes(decode, uniqueRaws[i]);
      assert unique[i] in posted && decode(raws[unique[i]]) == Undecodable;
      return Err;
    }
    forall recordKey | recordKey in posted && recordKey in raws ensures decode(raws[recordKey]) != Undecodable {
      var i :| 0 <= i < |unique| && unique[i] == recordKey;
      assert Decodes(decode, uniqueRaws[i]);
    }
    var byKey: map<string, Option<Record>> := map[];
    for i := 0 to |unique|
      invariant forall recordKey :: recordKey in byKey <==> recordKey in unique[..i]
      invariant forall recordKey :: recordKey in byKey ==> byKey[recordKey] == StoredRecord(decode, Some(raws[recordKey]))
    {
      assert unique[..i + 1] == unique[..i] + [unique[i]];
      byKey := byKey[unique[i] := decoded.value[i]];
    }
    assert unique[..|unique|] == unique;
    return Ok(byKey);
  }

  /** One lookup's records, in posted order. */
  method MatchPosted(decode: Decoder, posted: seq<string>, records: map<string, Option<Record>>, ghost contents: Contents)
    returns (matched: seq<Record>)
    requires contents.Valid()
    requires forall i :: 0 <= i < |posted| ==>
               StoredRecord(decode, LastRecord(contents.keys, contents.bodies, posted[i]))
                 == if posted[i] in records then records[posted[i]] else None
    ensures matched == ReadBack(decode, contents, posted)
  {
    matched := [];
    assert LastRecords(contents.keys, contents.bodies, []) == [];
    for i := 0 to |posted|
      invariant matched == ReadBack(decode, contents, posted[..i])
    {
      assert posted[..i + 1] == posted[..i] + [posted[i]];
      ReadBackSnoc(decode, contents, posted[..i], posted[i]);
      if posted[i] in records && records[posted[i]].Some? {
        matched := matched + [records[posted[i]].value];
      }
    }
    assert posted[..|posted|] == posted;
  }

  function PostedAnswers(decode: Decoder, contents: Contents, indexes: Indexes, index: string, asked: seq<Option<string>>)
    : Results
    requires contents.Valid()
  {
    seq(|asked|, p requires 0 <= p < |asked| => PostedAnswer(decode, contents, indexes, index, asked[p]))
  }

  ghost predicate AllKeysDecode(decode: Decoder, contents: Contents, indexes: Indexes, index: string, keys: seq<string>)
    requires contents.Valid()
  {
    forall j :: 0 <= j < |keys| ==> KeysDecode(decode, contents, Posted(indexes, index, keys[j]))
  }

  /** What the query loads for some looked-up keys: their posting rows, and the
      records those name, decoded. */
  method LoadByPostings(table: Table, indexes: Indexes, index: string, keys: seq<string>, decode: Decoder,
                        ghost contents: Contents)
    returns (postings: Index, records: Result<map<string, Option<Record>>>)
    requires contents.Valid() && TableFor(table, contents.keys, contents.bodies)
    ensures forall key :: key in keys ==> PostedIn(postings, key) == Posted(indexes, index, key)
    ensures records.Ok? <==> AllKeysDecode(decode, contents, indexes, index, keys)
    ensures records.Ok? ==> forall j, recordKey :: 0 <= j < |keys| && recordKey in PostedIn(postings, keys[j]) ==>
              Loaded(decode, contents, records.value, recordKey)
  {
    postings := QueryPostings(indexes, index, keys);
    var posted := PostedRecordKeys(postings, keys);
    var raws := LoadPosted(table, posted, contents);
    records := DecodeLoaded(decode, posted, raws);
    if records.Err? {
      var recordKey :| recordKey in posted && recordKey in raws && decode(raws[recordKey]) == Undecodable;
      assert PostedUnder(postings, keys, recordKey);
      var j :| 0 <= j < |keys| && recordKey in PostedIn(postings, keys[j]);
      NotAllDecode(decode, contents, indexes, index, keys, j, recordKey);
    } else {
      forall j, recordKey | 0 <= j < |keys| && recordKey in PostedIn(postings, keys[j])
        ensures Loaded(decode, contents, records.value, recordKey)
        ensures Decodes(decode, LastRecord(contents.keys, contents.bodies, recordKey))
      {
        assert PostedUnder(postings, keys, recordKey);
        assert recordKey in posted;
      }
    }
  }

  lemma NotAllDecode(decode: Decoder, contents: Contents, indexes: Indexes, index: string, keys: seq<string>, j: nat,
                     recordKey: string)
    requires contents.Valid() && j < |keys| && recordKey in Posted(indexes, index, keys[j])
    requires !Decodes(decode, LastRecord(contents.keys, contents.bodies, recordKey))
    ensures !AllKeysDecode(decode, contents, indexes, index, keys)
  {
    assert !KeysDecode(decode, contents, Posted(indexes, index, keys[j]));
  }

  ghost predicate Loaded(decode: Decoder, contents: Contents, records: map<string, Option<Record>>, recordKey: string)
    requires contents.Valid()
  {
    StoredRecord(decode, LastRecord(contents.keys, contents.bodies, recordKey))
      == if recordKey in records then records[recordKey] else None
  }

  /** The second half of ListByIndex: every keyed lookup gets the records its
      posted keys read back as. */
  method ReadByPostings(table: Table, indexes: Indexes, index: string, ghost asked: seq<Option<string>>, lookups: nat,
                        keys: seq<string>, positions: seq<nat>, decode: Decoder, ghost contents: Contents)
    returns (results: Result<Results>)
    requires contents.Valid() && TableFor(table, contents.keys, contents.bodies)
    requires Wanted(asked, keys, positions) && lookups == |asked|
    ensures results == if AllKeysDecode(decode, contents, indexes, index, keys)
                       then Ok(PostedAnswers(decode, contents, indexes, index, asked)) else Err
  {
    var postings, records := LoadByPostings(table, indexes, index, keys, decode, contents);
    if records.Err? {
      return Err;
    }
    var filled: Results := seq(lookups, _ => None);
    for j := 0 to |keys|
      invariant |filled| == |asked|
      invariant forall p :: 0 <= p < |asked| ==>
                  filled[p] == if p in positions[..j] then PostedAnswer(decode, contents, indexes, index, asked[p]) else None
    {
      assert positions[..j + 1] == positions[..j] + [positions[j]];
      assert keys[j] in keys;
      var posted := PostedIn(postings, keys[j]);
      forall i | 0 <= i < |posted| ensures Loaded(decode, contents, records.value, posted[i]) {
        assert posted[i] in posted;
      }
      var matched := MatchPosted(decode, posted, records.value, contents);
      filled := filled[positions[j] := Some(matched)];
    }
    assert positions[..|positions|] == positions;
    assert filled == PostedAnswers(decode, contents, indexes, index, asked);
    return Ok(filled);
  }

  /** Every asked key was collected as its rows' stored records carry it. */
  ghost predicate AskedAsStored(decode: Decoder, contents: Contents, index: string, asked: seq<Option<string>>)
    requires contents.Valid()
  {
    forall p :: 0 <= p < |asked| && asked[p].Some? ==> CollectedAsStored(decode, contents, index, asked[p].value)
  }

  /** What a by-index read answers through postings is what a scan answers: for
      rebuilt postings always, for collected ones exactly when every asked key
      was collected as stored. */
  lemma PostedAnswersEqualScan(indexes: Indexes, names: seq<string>, decode: Decoder, contents: Contents, index: string,
                               asked: seq<Option<string>>)
    requires contents.Valid() && index in names && IndexesRight(indexes, names, decode, contents)
    ensures var same := PostedAnswers(decode, contents, indexes, index, asked)
                          == Answers(Present(RebuiltRecords(decode, contents)), index, asked);
            && (RebuiltIndexes(indexes, names, decode, contents) ==> same)
            && (CollectedIndexes(indexes, names, decode, contents) ==>
                  (same <==> AskedAsStored(decode, contents, index, asked)))
  {
    var posted := PostedAnswers(decode, contents, indexes, index, asked);
    var scanned := Answers(Present(RebuiltRecords(decode, contents)), index, asked);
    forall p | 0 <= p < |asked|
      ensures RebuiltIndexes(indexes, names, decode, contents) ==> posted[p] == scanned[p]
      ensures CollectedIndexes(indexes, names, decode, contents) ==>
                (posted[p] == scanned[p] <==>
                   asked[p].None? || CollectedAsStored(decode, contents, index, asked[p].value))
    {
      if asked[p].Some? {
        IndexReadsEqualScans(indexes, names, decode, contents, index, asked[p].value);
      }
    }
    if posted == scanned {
      assert forall p :: 0 <= p < |asked| ==> posted[p] == scanned[p];
    }
  }

  /** For rebuilt postings, and for distinct keys, every posted record decodes. */
  lemma PostedAlwaysDecode(indexes: Indexes, names: seq<string>, decode: Decoder, contents: Contents, index: string,
                           asked: seq<Option<string>>)
    requires contents.Valid() && IndexesRight(indexes, names, decode, contents)
    requires RebuiltIndexes(indexes, names, decode, contents) || Unrepeated(contents.keys)
    ensures AskedDecode(decode, contents, indexes, index, asked)
    ensures Unrepeated(contents.keys) ==> AskedAsStored(decode, contents, index, asked)
  {
    forall p | 0 <= p < |asked| && asked[p].Some?
      ensures KeysDecode(decode, contents, Posted(indexes, index, asked[p].value))
      ensures Unrepeated(contents.keys) ==> CollectedAsStored(decode, contents, index, asked[p].value)
    {
      var posted := Posted(indexes, index, asked[p].value);
      forall i | 0 <= i < |posted| ensures Decodes(decode, LastRecord(contents.keys, contents.bodies, posted[i])) {
        PostedDecode(indexes, names, decode, contents, index, asked[p].value, posted[i]);
      }
      if Unrepeated(contents.keys) {
        DistinctCollectedAsStored(decode, contents, index, asked[p].value);
      }
    }
  }

  /** Every record posted under an asked key decodes. */
  ghost predicate AskedDecode(decode: Decoder, contents: Contents, indexes: Indexes, index: string,
                              asked: seq<Option<string>>)
    requires contents.Valid()
  {
    forall p :: 0 <= p < |asked| && asked[p].Some? ==> KeysDecode(decode, contents, Posted(indexes, index, asked[p].value))
  }

  lemma AskedAreKeys(decode: Decoder, contents: Contents, indexes: Indexes, index: string, asked: seq<Option<string>>,
                     keys: seq<string>, positions: seq<nat>)
    requires contents.Valid() && Wanted(asked, keys, positions)
    ensures AllKeysDecode(decode, contents, indexes, index, keys) <==> AskedDecode(decode, contents, indexes, index, asked)
  {
    if AllKeysDecode(decode, contents, indexes, index, keys) {
      forall p | 0 <= p < |asked| && asked[p].Some?
        ensures KeysDecode(decode, contents, Posted(indexes, index, asked[p].value))
      {
        var j :| 0 <= j < |positions| && positions[j] == p;
        assert KeysDecode(decode, contents, Posted(indexes, index, keys[j]));
      }
    }
    if AskedDecode(decode, contents, indexes, index, asked) {
      forall j | 0 <= j < |keys| ensures KeysDecode(decode, contents, Posted(indexes, index, keys[j])) {
        assert asked[positions[j]].Some?;
      }
    }
  }
}
