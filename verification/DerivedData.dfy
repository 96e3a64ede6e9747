/** Postings and projections against the records they stand for: reading through
    postings equals scanning, and what is collected with an entity equals what is
    rebuilt from its stored blocks (internal/storage/master_data_postgres_store.go,
    collectEntity and EnsureDerivedEntityData). */
module DerivedData {
  import opened Text
  import opened Json
  import opened Blocks
  import opened BlockReads
  import opened StoreReads
  import opened IndexKeys
  import opened Postings
  import opened Projections
  import opened EntityContents

  // ---------------------------------------------------------------- the two builds

  /** Postings a collect or a rebuild leaves behind. */
  ghost predicate IndexesRight(indexes: Indexes, names: seq<string>, decode: Decoder, contents: Contents)
    requires contents.Valid()
  {
    CollectedIndexes(indexes, names, decode, contents) || RebuiltIndexes(indexes, names, decode, contents)
  }

  ghost predicate CollectedIndexes(indexes: Indexes, names: seq<string>, decode: Decoder, contents: Contents)
    requires contents.Valid()
  {
    PostingsFor(indexes, names, contents.keys, CollectedRecords(decode, contents.bodies))
  }

  ghost predicate RebuiltIndexes(indexes: Indexes, names: seq<string>, decode: Decoder, contents: Contents)
    requires contents.Valid()
  {
    && AllDecode(decode, contents.Raws())
    && PostingsFor(indexes, names, contents.keys, RebuiltRecords(decode, contents))
  }

  /** The projection a collect or a rebuild leaves behind. */
  ghost predicate ProjectionRight(projection: Option<Projection>, fields: seq<string>, decode: Decoder, contents: Contents)
    requires contents.Valid()
  {
    CollectedProjection(projection, fields, decode, contents) || RebuiltProjection(projection, fields, decode, contents)
  }

  ghost predicate CollectedProjection(projection: Option<Projection>, fields: seq<string>, decode: Decoder, contents: Contents)
    requires contents.Valid()
  {
    projection == ProjectionFor(fields, contents.keys, CollectedRecords(decode, contents.bodies))
  }

  ghost predicate RebuiltProjection(projection: Option<Projection>, fields: seq<string>, decode: Decoder, contents: Contents)
    requires contents.Valid()
  {
    && AllDecode(decode, contents.Raws())
    && projection == ProjectionFor(fields, contents.keys, RebuiltRecords(decode, contents))
  }

  lemma {:induction false} DistinctLast(keys: seq<string>, bodies: seq<string>, i: nat)
    requires |keys| == |bodies| && i < |keys| && Unrepeated(keys)
    ensures LastRecord(keys, bodies, keys[i]) == Some(bodies[i])
  {
    var n := |keys| - 1;
    if i < n {
      DistinctLast(keys[..n], bodies[..n], i);
    }
  }

  // ---------------------------------------------------------------- empty records

  lemma {:induction false} NothingBelowEmpty(path: seq<string>)
    requires path != []
    ensures ValuesAt([Object(map[])], path) == []
  {
    var n := |path| - 1;
    if n == 0 {
      assert path[..0] == [];
      var empty: Record := map[];
      assert [Object(empty)][..0] == [] && [empty][..0] == [];
      assert ObjectChildren([empty], path[0]) == [];
      assert Children([Object(empty)], path[0]) == [];
    } else {
      NothingBelowEmpty(path[..n]);
    }
  }

  /** An object without fields has no keys in any index. */
  lemma EmptyRecordHasNoKeys(index: string)
    ensures KeysOfRecord(map[], index) == []
  {
    match ParseElementIndex(index) {
      case Some(element) =>
        NothingBelowEmpty(element.path);
      case None =>
        var fields := Split(index, ',');
        var options := Options(map[], fields);
        NothingBelowEmpty(Split(fields[0], '.'));
        assert options[0] == [];
        assert options[..1][..0] == [];
        ExtendByNothing([""], |fields|);
        assert Combinations(options[..1], |fields|) == [];
        NoKeysStayNone(options, |fields|, 1);
    }
  }

  // ---------------------------------------------------------------- scans

  /** The records read back for some posted record keys. */
  function ReadBack(decode: Decoder, contents: Contents, posted: seq<string>): seq<Record>
    requires contents.Valid()
  {
    Present(StoredRecords(decode, LastRecords(contents.keys, contents.bodies, posted)))
  }

  lemma ReadBackSnoc(decode: Decoder, contents: Contents, posted: seq<string>, key: string)
    requires contents.Valid()
    ensures var record := StoredRecord(decode, LastRecord(contents.keys, contents.bodies, key));
            ReadBack(decode, contents, posted + [key])
              == ReadBack(decode, contents, posted) + if record.Some? then [record.value] else []
  {
    var raws := LastRecords(contents.keys, contents.bodies, posted);
    var raw := LastRecord(contents.keys, contents.bodies, key);
    assert LastRecords(contents.keys, contents.bodies, posted + [key]) == raws + [raw];
    assert StoredRecords(decode, raws + [raw]) == StoredRecords(decode, raws) + [StoredRecord(decode, raw)];
    PresentConcat(StoredRecords(decode, raws), [StoredRecord(decode, raw)]);
    assert [StoredRecord(decode, raw)][..0] == [];
  }

  lemma MatchingSnoc(records: seq<Record>, record: Record, name: string, key: string)
    ensures Matching(records + [record], name, key)
         == Matching(records, name, key) + if key in KeysOfRecord(record, name) then [record] else []
  {
    assert (records + [record])[..|records|] == records;
  }

  lemma PostedSnoc(keys: seq<string>, records: seq<Option<Record>>, rowKey: string, record: Option<Record>,
                   name: string, key: string)
    requires |keys| == |records|
    ensures PostedKeys(keys + [rowKey], records + [record], name, key)
         == PostedKeys(keys, records, name, key) + if HasIndexKey(record, name, key) then [rowKey] else []
  {
    assert (keys + [rowKey])[..|keys|] == keys && (records + [record])[..|records|] == records;
  }

  lemma PostedRowReads(decode: Decoder, contents: Contents, name: string, key: string,
                       keys: seq<string>, posted: seq<Option<Record>>, rowKey: string, row: Option<Record>, stored: Option<Record>)
    requires contents.Valid() && |keys| == |posted|
    requires stored == StoredRecord(decode, LastRecord(contents.keys, contents.bodies, rowKey))
    ensures ReadBack(decode, contents, PostedKeys(keys + [rowKey], posted + [row], name, key))
         == ReadBack(decode, contents, PostedKeys(keys, posted, name, key))
            + if HasIndexKey(row, name, key) && stored.Some? then [stored.value] else []
  {
    var before := PostedKeys(keys, posted, name, key);
    PostedSnoc(keys, posted, rowKey, row, name, key);
    if HasIndexKey(row, name, key) {
      ReadBackSnoc(decode, contents, before, rowKey);
    } else {
      assert before + [] == before;
    }
  }

  lemma ScannedRow(records: seq<Option<Record>>, record: Option<Record>, name: string, key: string)
    ensures Matching(Present(records + [record]), name, key)
         == Matching(Present(records), name, key) + if HasIndexKey(record, name, key) then [record.value] else []
  {
    PresentConcat(records, [record]);
    assert [record][..0] == [];
    if record.Some? {
      MatchingSnoc(Present(records), record.value, name, key);
    } else {
      assert Present(records) + [] == Present(records);
    }
  }

  /** Each row's record is the one stored last under its key. */
  ghost predicate StoredUnder(decode: Decoder, contents: Contents, keys: seq<string>, records: seq<Option<Record>>)
    requires contents.Valid()
  {
    && |keys| == |records|
    && forall i :: 0 <= i < |keys| ==>
         records[i] == StoredRecord(decode, LastRecord(contents.keys, contents.bodies, keys[i]))
  }

  /** Rows that read back are posted exactly when their stored record carries the key. */
  predicate PostedAsStored(posted: seq<Option<Record>>, stored: seq<Option<Record>>, name: string, key: string) {
    |posted| == |stored| &&
    forall i :: 0 <= i < |stored| && stored[i].Some? ==> PostedAsRow(posted[i], stored[i], name, key)
  }

  predicate PostedAsRow(posted: Option<Record>, stored: Option<Record>, name: string, key: string) {
    HasIndexKey(posted, name, key) <==> HasIndexKey(stored, name, key)
  }

  predicate AllCarry(records: seq<Record>, name: string, key: string) {
    forall i :: 0 <= i < |records| ==> key in KeysOfRecord(records[i], name)
  }

  lemma {:induction false} MatchingCarry(records: seq<Record>, name: string, key: string)
    ensures AllCarry(Matching(records, name, key), name, key)
  {
    if records != [] {
      MatchingCarry(records[..|records| - 1], name, key);
    }
  }

  /** One more row: what it adds to the records read back and to those scanned. */
  lemma CompareOneMore(read: seq<Record>, scanned: seq<Record>, posted: Option<Record>, stored: Option<Record>,
                       name: string, key: string, read': seq<Record>, scanned': seq<Record>)
    requires read' == read + if HasIndexKey(posted, name, key) && stored.Some? then [stored.value] else []
    requires scanned' == scanned + if HasIndexKey(stored, name, key) then [stored.value] else []
    ensures AllCarry(read', name, key) ==> AllCarry(read, name, key)
    ensures AllCarry(read', name, key) && |read| <= |scanned| ==> |read'| <= |scanned'|
    ensures AllCarry(read', name, key) && |read| <= |scanned| && |read'| == |scanned'| ==>
              |read| == |scanned| && (stored.Some? ==> PostedAsRow(posted, stored, name, key))
    ensures read == scanned && (stored.Some? ==> PostedAsRow(posted, stored, name, key)) ==> read' == scanned'
  {
    assert forall i :: 0 <= i < |read| ==> read[i] == read'[i];
    if HasIndexKey(posted, name, key) && stored.Some? {
      assert read'[|read|] == stored.value;
    }
  }

  /** Reading posted rows back and scanning the stored ones: equal when every row
      is posted as stored; and when all that is read carries the key, no more is
      read than scanned, and as much only when every row is posted as stored. */
  lemma {:induction false} ReadsCompare(decode: Decoder, contents: Contents, name: string, key: string, keys: seq<string>,
                                        posted: seq<Option<Record>>, stored: seq<Option<Record>>)
    requires contents.Valid() && |posted| == |stored| && StoredUnder(decode, contents, keys, stored)
    ensures var read := ReadBack(decode, contents, PostedKeys(keys, posted, name, key));
            var scanned := Matching(Present(stored), name, key);
            && (PostedAsStored(posted, stored, name, key) ==> read == scanned)
            && (AllCarry(read, name, key) ==> |read| <= |scanned|)
            && (AllCarry(read, name, key) && |read| == |scanned| ==> PostedAsStored(posted, stored, name, key))
    decreases |keys|
  {
    if keys == [] {
      assert LastRecords(contents.keys, contents.bodies, []) == [];
    } else {
      var n := |keys| - 1;
      var front, p, s := keys[..n], posted[..n], stored[..n];
      assert keys == front + [keys[n]] && posted == p + [posted[n]] && stored == s + [stored[n]];
      ReadsCompare(decode, contents, name, key, front, p, s);
      PostedRowReads(decode, contents, name, key, front, p, keys[n], posted[n], stored[n]);
      ScannedRow(s, stored[n], name, key);
      CompareOneMore(ReadBack(decode, contents, PostedKeys(front, p, name, key)), Matching(Present(s), name, key),
                     posted[n], stored[n], name, key,
                     ReadBack(decode, contents, PostedKeys(keys, posted, name, key)), Matching(Present(stored), name, key));
      PostedAsStoredSnoc(p, s, posted[n], stored[n], name, key);
    }
  }

  lemma PostedAsStoredSnoc(posted: seq<Option<Record>>, stored: seq<Option<Record>>, p: Option<Record>, s: Option<Record>,
                           name: string, key: string)
    requires |posted| == |stored|
    ensures PostedAsStored(posted + [p], stored + [s], name, key) <==>
            PostedAsStored(posted, stored, name, key) && (s.Some? ==> PostedAsRow(p, s, name, key))
  {
    var ps, ss := posted + [p], stored + [s];
    assert forall i :: 0 <= i < |stored| ==> ps[i] == posted[i] && ss[i] == stored[i];
    assert ps[|stored|] == p && ss[|stored|] == s;
  }

  /** Postings of some rows, stored rows known: reading an index key back gives
      what a scan finds if and only if every row that reads back is posted as its
      stored record says. */
  lemma ReadsEqualScanExactly(decode: Decoder, contents: Contents, name: string, key: string, posted: seq<Option<Record>>)
    requires contents.Valid() && |posted| == |contents.keys|
    ensures ReadBack(decode, contents, PostedKeys(contents.keys, posted, name, key))
              == Matching(Present(RebuiltRecords(decode, contents)), name, key)
       <==> PostedAsStored(posted, RebuiltRecords(decode, contents), name, key)
  {
    var stored := RebuiltRecords(decode, contents);
    ReadsCompare(decode, contents, name, key, contents.keys, posted, stored);
    MatchingCarry(Present(stored), name, key);
  }

  /** Any rows, repeated keys included: reading the posted keys of the stored
      records back gives what a scan of the stored records finds. */
  lemma PostedReadsEqualScan(decode: Decoder, contents: Contents, name: string, key: string)
    requires contents.Valid()
    ensures ReadBack(decode, contents, PostedKeys(contents.keys, RebuiltRecords(decode, contents), name, key))
         == Matching(Present(RebuiltRecords(decode, contents)), name, key)
  {
    ReadsEqualScanExactly(decode, contents, name, key, RebuiltRecords(decode, contents));
  }

  // ---------------------------------------------------------------- agreement

  lemma RowsAgree(decode: Decoder, contents: Contents, i: nat)
    requires contents.Valid() && i < |contents.keys| && Unrepeated(contents.keys)
    ensures var collected, rebuilt := CollectedRecords(decode, contents.bodies)[i], RebuiltRecords(decode, contents)[i];
            collected == rebuilt || (collected.None? && rebuilt == Some(map[]))
  {
    DistinctLast(contents.keys, contents.bodies, i);
    assert contents.bodies[i] in contents.bodies;
  }

  lemma RowsAgreeOnKeys(decode: Decoder, contents: Contents, i: nat, name: string, key: string)
    requires contents.Valid() && i < |contents.keys| && Unrepeated(contents.keys)
    ensures HasIndexKey(CollectedRecords(decode, contents.bodies)[i], name, key)
       <==> HasIndexKey(RebuiltRecords(decode, contents)[i], name, key)
  {
    RowsAgree(decode, contents, i);
    EmptyRecordHasNoKeys(name);
  }

  /** With distinct keys, postings collected from each occurrence's own record
      are the postings rebuilt from the stored records. */
  lemma {:induction false} CollectedPostingsAgree(decode: Decoder, contents: Contents, name: string, key: string, n: nat)
    requires contents.Valid() && Unrepeated(contents.keys) && n <= |contents.keys|
    ensures PostedKeys(contents.keys[..n], CollectedRecords(decode, contents.bodies)[..n], name, key)
         == PostedKeys(contents.keys[..n], RebuiltRecords(decode, contents)[..n], name, key)
  {
    if n > 0 {
      var collected, rebuilt := CollectedRecords(decode, contents.bodies), RebuiltRecords(decode, contents);
      CollectedPostingsAgree(decode, contents, name, key, n - 1);
      assert contents.keys[..n][..n - 1] == contents.keys[..n - 1];
      assert collected[..n][..n - 1] == collected[..n - 1] && rebuilt[..n][..n - 1] == rebuilt[..n - 1];
      RowsAgreeOnKeys(decode, contents, n - 1, name, key);
    }
  }

  /** What each occurrence carried is what the record stored last under its key
      carries, for every row that reads back. */
  ghost predicate CollectedAsStored(decode: Decoder, contents: Contents, name: string, key: string)
    requires contents.Valid()
  {
    PostedAsStored(CollectedRecords(decode, contents.bodies), RebuiltRecords(decode, contents), name, key)
  }

  /** With distinct keys it always is. */
  lemma DistinctCollectedAsStored(decode: Decoder, contents: Contents, name: string, key: string)
    requires contents.Valid() && Unrepeated(contents.keys)
    ensures CollectedAsStored(decode, contents, name, key)
  {
    forall i | 0 <= i < |contents.keys|
      ensures PostedAsRow(CollectedRecords(decode, contents.bodies)[i], RebuiltRecords(decode, contents)[i], name, key)
    {
      RowsAgreeOnKeys(decode, contents, i, name, key);
    }
  }

  /** Index reads equal scans, in records, order and multiplicity: for postings
      rebuilt from storage, whatever the rows; and for collected postings exactly
      when every row that reads back was collected with the key if and only if its
      stored record carries it. */
  lemma IndexReadsEqualScans(indexes: Indexes, names: seq<string>, decode: Decoder, contents: Contents,
                             name: string, key: string)
    requires contents.Valid() && name in names && IndexesRight(indexes, names, decode, contents)
    ensures var same := ReadBack(decode, contents, Posted(indexes, name, key))
                          == Matching(Present(RebuiltRecords(decode, contents)), name, key);
            && (RebuiltIndexes(indexes, names, decode, contents) ==> same)
            && (CollectedIndexes(indexes, names, decode, contents) ==>
                  (same <==> CollectedAsStored(decode, contents, name, key)))
  {
    PostedReadsEqualScan(decode, contents, name, key);
    ReadsEqualScanExactly(decode, contents, name, key, CollectedRecords(decode, contents.bodies));
  }

  /** Records with at least one field, so that none is dropped while collecting. */
  predicate NoEmptyObjects(decode: Decoder, bodies: seq<string>) {
    forall i :: 0 <= i < |bodies| ==> decode(bodies[i]) != Fields(map[])
  }

  lemma CollectedRecordsAgree(decode: Decoder, contents: Contents)
    requires contents.Valid() && Unrepeated(contents.keys)
    requires NoEmptyObjects(decode, contents.bodies)
    ensures CollectedRecords(decode, contents.bodies) == RebuiltRecords(decode, contents)
  {
    forall i | 0 <= i < |contents.keys|
      ensures CollectedRecords(decode, contents.bodies)[i] == RebuiltRecords(decode, contents)[i]
    {
      DistinctLast(contents.keys, contents.bodies, i);
      assert contents.bodies[i] in contents.bodies;
    }
  }

  /** A row projects alike from either record: there is one in both or in
      neither, and each projected field reads the same. */
  predicate RowAlike(fields: seq<string>, a: Option<Record>, b: Option<Record>) {
    (a.Some? <==> b.Some?) && forall field :: field in fields ==> FieldAlike(a, b, field)
  }

  predicate FieldAlike(a: Option<Record>, b: Option<Record>, field: string) {
    a.Some? && b.Some? ==> Cell(a.value, field) == Cell(b.value, field)
  }

  predicate RowsAlike(fields: seq<string>, a: seq<Option<Record>>, b: seq<Option<Record>>) {
    |a| == |b| && forall i :: 0 <= i < |a| ==> RowAlike(fields, a[i], b[i])
  }

  predicate SamePresence(a: seq<Option<Record>>, b: seq<Option<Record>>) {
    |a| == |b| && forall i :: 0 <= i < |a| ==> (a[i].Some? <==> b[i].Some?)
  }

  predicate FieldsAlike(a: seq<Option<Record>>, b: seq<Option<Record>>, field: string) {
    |a| == |b| && forall i :: 0 <= i < |a| ==> FieldAlike(a[i], b[i], field)
  }

  lemma FieldsAlikeSnoc(a: seq<Option<Record>>, b: seq<Option<Record>>, field: string)
    requires |a| == |b| > 0
    ensures var n := |a| - 1; FieldsAlike(a, b, field) <==> FieldsAlike(a[..n], b[..n], field) && FieldAlike(a[n], b[n], field)
  {
    var n := |a| - 1;
    assert forall i :: 0 <= i < n ==> a[..n][i] == a[i] && b[..n][i] == b[i];
  }

  /** What one row adds to the cells of a field. */
  lemma CellsOfRow(records: seq<Option<Record>>, field: string)
    requires records != []
    ensures var n := |records| - 1;
            Cells(Present(records), field)
              == Cells(Present(records[..n]), field)
                 + if records[n].Some? then [Cell(records[n].value, field)] else []
  {
    var n := |records| - 1;
    if records[n].None? {
      assert Cells(Present(records[..n]), field) + [] == Cells(Present(records[..n]), field);
    }
  }

  /** Rows present alike: a field's cells agree exactly when they agree row by row. */
  lemma {:induction false} CellsAlike(a: seq<Option<Record>>, b: seq<Option<Record>>, field: string)
    requires SamePresence(a, b)
    ensures Cells(Present(a), field) == Cells(Present(b), field) <==> FieldsAlike(a, b, field)
  {
    if a != [] {
      var n := |a| - 1;
      CellsAlike(a[..n], b[..n], field);
      PresentLengths(a[..n], b[..n]);
      FieldsAlikeSnoc(a, b, field);
      CellsOfRow(a, field);
      CellsOfRow(b, field);
      if a[n].Some? {
        SnocEqual(Cells(Present(a[..n]), field), Cell(a[n].value, field), Cells(Present(b[..n]), field), Cell(b[n].value, field));
      } else {
        assert Cells(Present(a[..n]), field) + [] == Cells(Present(a[..n]), field);
        assert Cells(Present(b[..n]), field) + [] == Cells(Present(b[..n]), field);
      }
    }
  }

  lemma SnocEqual(xs: seq<Value>, x: Value, ys: seq<Value>, y: Value)
    requires |xs| == |ys|
    ensures xs + [x] == ys + [y] <==> xs == ys && x == y
  {
    if xs + [x] == ys + [y] {
      assert xs == (xs + [x])[..|xs|] && x == (xs + [x])[|xs|];
      assert ys == (ys + [y])[..|ys|] && y == (ys + [y])[|ys|];
    }
  }

  lemma {:induction false} SamePresentKeys(keys: seq<string>, a: seq<Option<Record>>, b: seq<Option<Record>>)
    requires |keys| == |a| && SamePresence(a, b)
    ensures PresentKeys(keys, a) == PresentKeys(keys, b)
  {
    if keys != [] {
      var n := |keys| - 1;
      SamePresentKeys(keys[..n], a[..n], b[..n]);
    }
  }

  lemma {:induction false} PresentLengths(a: seq<Option<Record>>, b: seq<Option<Record>>)
    requires SamePresence(a, b)
    ensures |Present(a)| == |Present(b)|
  {
    if a != [] {
      PresentLengths(a[..|a| - 1], b[..|b| - 1]);
    }
  }

  function Times(keys: seq<string>, key: string): nat {
    if keys == [] then 0
    else
      var n := |keys| - 1;
      Times(keys[..n], key) + if keys[n] == key then 1 else 0
  }

  lemma TimesSnoc(keys: seq<string>, last: string, key: string)
    ensures Times(keys + [last], key) == Times(keys, key) + if last == key then 1 else 0
  {
    assert (keys + [last])[..|keys|] == keys;
  }

  /** Rows of one key that are all present in b: a shows the key no more often,
      and as often only when they are all present in a. */
  lemma {:induction false} PresentUnderKey(keys: seq<string>, a: seq<Option<Record>>, b: seq<Option<Record>>, key: string)
    requires |keys| == |a| == |b|
    requires forall i :: 0 <= i < |keys| && keys[i] == key ==> b[i].Some?
    ensures Times(PresentKeys(keys, a), key) <= Times(PresentKeys(keys, b), key)
    ensures Times(PresentKeys(keys, a), key) == Times(PresentKeys(keys, b), key) ==>
              forall i :: 0 <= i < |keys| && keys[i] == key ==> a[i].Some?
  {
    if keys != [] {
      var n := |keys| - 1;
      PresentUnderKey(keys[..n], a[..n], b[..n], key);
      TimesOfRow(keys, a, key);
      TimesOfRow(keys, b, key);
      assert forall i :: 0 <= i < n ==> a[..n][i] == a[i] && keys[..n][i] == keys[i];
    }
  }

  lemma TimesOfRow(keys: seq<string>, records: seq<Option<Record>>, key: string)
    requires |keys| == |records| > 0
    ensures var n := |keys| - 1;
            Times(PresentKeys(keys, records), key)
              == Times(PresentKeys(keys[..n], records[..n]), key) + if records[n].Some? && keys[n] == key then 1 else 0
  {
    var n := |keys| - 1;
    var before := PresentKeys(keys[..n], records[..n]);
    if records[n].Some? {
      TimesSnoc(before, keys[n], key);
    } else {
      assert before + [] == before;
    }
  }

  /** Rows under one key are all present or all absent once stored, so the keys
      present tell which rows are. */
  lemma PresentKeysTellRows(decode: Decoder, contents: Contents, records: seq<Option<Record>>)
    requires contents.Valid() && |records| == |contents.keys|
    requires PresentKeys(contents.keys, records) == PresentKeys(contents.keys, RebuiltRecords(decode, contents))
    ensures SamePresence(records, RebuiltRecords(decode, contents))
  {
    var keys, stored := contents.keys, RebuiltRecords(decode, contents);
    forall i | 0 <= i < |keys| ensures records[i].Some? <==> stored[i].Some? {
      if stored[i].Some? {
        PresentUnderKey(keys, records, stored, keys[i]);
      } else if records[i].Some? {
        PresentKeysHold(keys, records, i);
        PostedPresent(keys, stored, keys[i]);
      }
    }
  }

  lemma {:induction false} PresentKeysHold(keys: seq<string>, records: seq<Option<Record>>, i: nat)
    requires |keys| == |records| && i < |keys| && records[i].Some?
    ensures keys[i] in PresentKeys(keys, records)
  {
    var n := |keys| - 1;
    if i < n {
      PresentKeysHold(keys[..n], records[..n], i);
    }
  }

  lemma {:induction false} PostedPresent(keys: seq<string>, records: seq<Option<Record>>, key: string)
    requires |keys| == |records| && key in PresentKeys(keys, records)
    ensures exists i :: 0 <= i < |keys| && keys[i] == key && records[i].Some?
  {
    var n := |keys| - 1;
    if keys[n] == key && records[n].Some? {
    } else {
      PostedPresent(keys[..n], records[..n], key);
    }
  }

  /** Each row was collected with the projected fields its stored record has. */
  ghost predicate ProjectedAsStored(fields: seq<string>, decode: Decoder, contents: Contents)
    requires contents.Valid()
  {
    RowsAlike(fields, CollectedRecords(decode, contents.bodies), RebuiltRecords(decode, contents))
  }

  /** Whatever the keys: the projection collected with an entity is the one built
      from its stored records exactly when every row projects alike. */
  lemma ProjectionsAgreeExactly(fields: seq<string>, decode: Decoder, contents: Contents)
    requires contents.Valid() && fields != []
    ensures ProjectionFor(fields, contents.keys, CollectedRecords(decode, contents.bodies))
              == ProjectionFor(fields, contents.keys, RebuiltRecords(decode, contents))
       <==> ProjectedAsStored(fields, decode, contents)
  {
    var keys, a, b := contents.keys, CollectedRecords(decode, contents.bodies), RebuiltRecords(decode, contents);
    if ProjectedAsStored(fields, decode, contents) {
      SameColumns(fields, keys, a, b);
    }
    if ProjectionFor(fields, keys, a) == ProjectionFor(fields, keys, b) {
      PresentKeysTellRows(decode, contents, a);
      PresentLengths(a, b);
      forall i | 0 <= i < |a| ensures RowAlike(fields, a[i], b[i]) {
        forall field | field in fields ensures FieldAlike(a[i], b[i], field) {
          assert ColumnOf(Cells(Present(a), field)) == ProjectionFor(fields, keys, a).value.columns[field];
          ColumnInjective(Cells(Present(a), field), Cells(Present(b), field));
          CellsAlike(a, b, field);
        }
      }
    }
  }

  lemma SameColumns(fields: seq<string>, keys: seq<string>, a: seq<Option<Record>>, b: seq<Option<Record>>)
    requires |keys| == |a| && RowsAlike(fields, a, b)
    ensures ProjectionFor(fields, keys, a) == ProjectionFor(fields, keys, b)
  {
    assert SamePresence(a, b) by {
      assert forall i :: 0 <= i < |a| ==> RowAlike(fields, a[i], b[i]);
    }
    SamePresentKeys(keys, a, b);
    forall field | field in fields ensures Cells(Present(a), field) == Cells(Present(b), field) {
      assert forall i :: 0 <= i < |a| ==> RowAlike(fields, a[i], b[i]);
      CellsAlike(a, b, field);
    }
    assert ProjectionOf(fields, PresentKeys(keys, a), Present(a)).columns
        == ProjectionOf(fields, PresentKeys(keys, b), Present(b)).columns;
  }

  /** With distinct keys every row projects alike exactly when no body is an
      empty object. */
  lemma DistinctProjectedAsStored(fields: seq<string>, decode: Decoder, contents: Contents)
    requires contents.Valid() && Unrepeated(contents.keys)
    ensures ProjectedAsStored(fields, decode, contents) <==> NoEmptyObjects(decode, contents.bodies)
  {
    var collected, rebuilt := CollectedRecords(decode, contents.bodies), RebuiltRecords(decode, contents);
    if NoEmptyObjects(decode, contents.bodies) {
      CollectedRecordsAgree(decode, contents);
    } else {
      var i :| 0 <= i < |contents.bodies| && decode(contents.bodies[i]) == Fields(map[]);
      DistinctLast(contents.keys, contents.bodies, i);
      assert collected[i].None? && rebuilt[i].Some?;
      assert !RowAlike(fields, collected[i], rebuilt[i]);
    }
  }

  /** Every posted key's stored record decodes, so an index read cannot fail on
      records a scan would not return. */
  lemma {:induction false} PostedOnlyForKeys(keys: seq<string>, records: seq<Option<Record>>, name: string, key: string,
                                             posted: string)
    requires |keys| == |records| && posted in PostedKeys(keys, records, name, key)
    ensures exists i :: 0 <= i < |keys| && keys[i] == posted && records[i].Some?
  {
    var n := |keys| - 1;
    if keys[n] == posted && records[n].Some? {
    } else {
      PostedOnlyForKeys(keys[..n], records[..n], name, key, posted);
    }
  }

  lemma PostedDecode(indexes: Indexes, names: seq<string>, decode: Decoder, contents: Contents, name: string, key: string,
                     posted: string)
    requires contents.Valid() && posted in Posted(indexes, name, key)
    requires RebuiltIndexes(indexes, names, decode, contents)
             || (CollectedIndexes(indexes, names, decode, contents) && Unrepeated(contents.keys))
    ensures Decodes(decode, LastRecord(contents.keys, contents.bodies, posted))
  {
    if RebuiltIndexes(indexes, names, decode, contents) {
      PostedOnlyForKeys(contents.keys, RebuiltRecords(decode, contents), name, key, posted);
      var i :| 0 <= i < |contents.keys| && contents.keys[i] == posted && RebuiltRecords(decode, contents)[i].Some?;
      assert Decodes(decode, contents.Raws()[i]);
    } else {
      PostedOnlyForKeys(contents.keys, CollectedRecords(decode, contents.bodies), name, key, posted);
      var i :| 0 <= i < |contents.keys| && contents.keys[i] == posted && CollectedRecords(decode, contents.bodies)[i].Some?;
      DistinctLast(contents.keys, contents.bodies, i);
    }
  }
}
