/** Inputs at which what is collected with an entity and what is rebuilt from its
    stored records part: two records under one key, and a record without fields
    (internal/storage/master_data_postgres_store.go, collectEntity). */
module Limits {
  import opened Text
  import opened Json
  import opened RecordKeys
  import opened BlockReads
  import opened Blocks
  import opened StoreReads
  import opened IndexKeys
  import opened Postings
  import opened Projections
  import opened EntityContents
  import opened DerivedData

  lemma OnePart(part: string)
    ensures Distinct(Combinations([[part]], 1)) == [part]
  {
    assert [[part]][..0] == [] && [part][..0] == [] && [""][..0] == [];
    assert ExtendOne("", [part], 1) == [part];
    assert Extend([""], [part], 1) == [part];
  }

  lemma UnsplitName(index: string, sep: char)
    requires sep !in index
    ensures Split(index, sep) == [index]
  {
  }

  lemma NotAnElementIndex(index: string)
    requires '[' !in index
    ensures ParseElementIndex(index).None?
  {
  }

  lemma OneFieldKeys(record: Record, field: string, part: string)
    requires FieldParts(record, field) == [part]
    ensures Distinct(FieldKeys(record, [field])) == [part]
  {
    OnePart(part);
    assert Options(record, [field]) == [[part]];
  }

  /** A record has one key in an index of one plain field: the text of its value. */
  lemma PlainFieldKeys(record: Record, index: string)
    requires '.' !in index && ',' !in index && '[' !in index
    requires index in record && !record[index].Array? && CanonicalKeyPart(record[index]).Some?
    ensures KeysOfRecord(record, index) == [CanonicalKeyPart(record[index]).value]
  {
    NotAnElementIndex(index);
    UnsplitName(index, '.');
    UnsplitName(index, ',');
    PlainFieldParts(record, index);
    OneFieldKeys(record, index, CanonicalKeyPart(record[index]).value);
  }

  lemma PlainFieldParts(record: Record, field: string)
    requires Split(field, '.') == [field]
    requires field in record && !record[field].Array? && CanonicalKeyPart(record[field]).Some?
    ensures FieldParts(record, field) == [CanonicalKeyPart(record[field]).value]
  {
    var value := record[field];
    assert [field][..0] == [] && [Object(record)][..0] == [] && [record][..0] == [] && [value][..0] == [];
    assert ObjectChildren([record], field) == [value];
    assert Children([Object(record)], field) == [value];
    assert ValuesAt([Object(record)], [field]) == [value];
    assert Flattened([value]) == [value];
    assert CanonicalParts([value]) == [CanonicalKeyPart(value).value];
  }

  // ---------------------------------------------------------------- a repeated key

  const FIRST := "{\"id\":7,\"eventId\":1}"
  const SECOND := "{\"id\":7,\"eventId\":2}"

  function Digits(n: nat): Value {
    Number(Decimal(n, 0))
  }

  function CardOfEvent(event: nat): Record {
    map["id" := Digits(7), "eventId" := Digits(event)]
  }

  function CardsDecode(body: string): Decoded {
    if body == FIRST then Fields(CardOfEvent(1))
    else if body == SECOND then Fields(CardOfEvent(2))
    else Undecodable
  }

  const CARDS := Contents(["7", "7"], [FIRST, SECOND])
  const CARD_POSTINGS: Indexes := map["eventId" := map["1" := ["7"], "2" := ["7"]]]

  lemma DigitText(n: nat)
    requires n < 10
    ensures CanonicalKeyPart(Digits(n)) == Some([Digit(n)])
  {
  }

  lemma CardKeys(event: nat)
    requires event < 10
    ensures KeysOfRecord(CardOfEvent(event), "eventId") == [[Digit(event)]]
  {
    DigitText(event);
    PlainFieldKeys(CardOfEvent(event), "eventId");
  }

  lemma {:induction false} TrimmedIsShorter(s: string)
    ensures |TrimSpace(s)| <= |s|
    decreases |s|
  {
    if s != "" {
      TrimmedIsShorter(s[1..]);
      TrimmedIsShorter(s[..|s| - 1]);
    }
  }

  /** Every composite-keyed entity has a longer name. */
  lemma ShortNamesArePlain(entity: string)
    requires |entity| < 13
    ensures !UsesCompositeKey(entity)
  {
    TrimmedIsShorter(entity);
  }

  lemma CardsCollected(sha: string -> string)
    ensures ContentsOf(sha, CardsDecode, "eventcards", [FIRST, SECOND]) == CARDS
  {
    ShortNamesArePlain("eventcards");
    DigitText(7);
    var bodies := [FIRST, SECOND];
    assert FIRST != "" && SECOND != "";
    assert bodies[..1] == [FIRST] && [FIRST][..0] == [];
    assert NonEmpty([FIRST]) == [FIRST];
    assert NonEmpty(bodies) == bodies;
    var inputs := InputsOf(CardsDecode, bodies);
    assert RecordID(CardsDecode(FIRST)) == "7" && RecordID(CardsDecode(SECOND)) == "7";
    assert KeysFor(sha, CardsDecode, "eventcards", bodies) == ["7", "7"];
  }

  lemma CardRows()
    ensures CARDS.Valid()
    ensures CollectedRecords(CardsDecode, CARDS.bodies) == [Some(CardOfEvent(1)), Some(CardOfEvent(2))]
    ensures RebuiltRecords(CardsDecode, CARDS) == [Some(CardOfEvent(2)), Some(CardOfEvent(2))]
    ensures StoredRecord(CardsDecode, LastRecord(CARDS.keys, CARDS.bodies, "7")) == Some(CardOfEvent(2))
  {
    assert FIRST[|FIRST| - 2] == '1' && SECOND[|SECOND| - 2] == '2';
    assert "id" in CardOfEvent(1) && "id" in CardOfEvent(2);
  }

  lemma OfTwo(keys: seq<string>, records: seq<Option<Record>>, name: string, key: string)
    requires |keys| == |records| == 2
    ensures PostedKeys(keys, records, name, key)
         == (if HasIndexKey(records[0], name, key) then [keys[0]] else [])
            + (if HasIndexKey(records[1], name, key) then [keys[1]] else [])
  {
    assert keys[..1][..0] == [] && records[..1][..0] == [];
    assert PostedKeys(keys[..1][..0], records[..1][..0], name, key) == [];
    assert PostedKeys(keys[..1], records[..1], name, key) == if HasIndexKey(records[0], name, key) then [keys[0]] else [];
  }

  lemma CardPosted(name: string, key: string)
    ensures |CARDS.keys| == |CollectedRecords(CardsDecode, CARDS.bodies)|
    ensures name == "eventId" ==>
              Posted(CARD_POSTINGS, name, key) == PostedKeys(CARDS.keys, CollectedRecords(CardsDecode, CARDS.bodies), name, key)
  {
    CardRows();
    if name == "eventId" {
      CardKeys(1);
      CardKeys(2);
      OfTwo(CARDS.keys, CollectedRecords(CardsDecode, CARDS.bodies), name, key);
    }
  }

  lemma CardRead()
    ensures CARDS.Valid() && ReadBack(CardsDecode, CARDS, ["7"]) == [CardOfEvent(2)]
  {
    CardRows();
    var read := LastRecords(CARDS.keys, CARDS.bodies, ["7"]);
    assert StoredRecords(CardsDecode, read) == [Some(CardOfEvent(2))];
    assert [Some(CardOfEvent(2))][..0] == [];
  }

  lemma ScanOfTwo(c: Record, name: string, key: string)
    ensures Matching(Present([Some(c), Some(c)]), name, key) == if key in KeysOfRecord(c, name) then [c, c] else []
  {
    assert [Some(c), Some(c)][..1] == [Some(c)] && [Some(c)][..0] == [];
    assert Present([Some(c)]) == [c];
    assert Present([Some(c), Some(c)]) == [c, c];
    assert [c, c][..1] == [c] && [c][..0] == [];
    assert Matching([c], name, key) == if key in KeysOfRecord(c, name) then [c] else [];
  }

  lemma CardsPosted()
    ensures CARDS.Valid() && CollectedIndexes(CARD_POSTINGS, ["eventId"], CardsDecode, CARDS)
  {
    CardRows();
    var collected := CollectedRecords(CardsDecode, CARDS.bodies);
    forall name, key
      ensures Posted(CARD_POSTINGS, name, key) == if name in ["eventId"] then PostedKeys(CARDS.keys, collected, name, key) else []
    {
      CardPosted(name, key);
    }
  }

  lemma CardScans()
    ensures CARDS.Valid()
    ensures Matching(Present(RebuiltRecords(CardsDecode, CARDS)), "eventId", "1") == []
    ensures Matching(Present(RebuiltRecords(CardsDecode, CARDS)), "eventId", "2") == [CardOfEvent(2), CardOfEvent(2)]
  {
    CardRows();
    CardKeys(2);
    assert "1" != "2";
    ScanOfTwo(CardOfEvent(2), "eventId", "1");
    ScanOfTwo(CardOfEvent(2), "eventId", "2");
  }

  /** Two records under one key: the postings collected with the entity lead a
      lookup of the first record's value to the second record, which a scan does
      not return, and a lookup of the second's value to it once, which a scan
      returns once for each row. */
  lemma RepeatedKeyMisread(sha: string -> string)
    ensures ContentsOf(sha, CardsDecode, "eventcards", [FIRST, SECOND]) == CARDS && CARDS.Valid()
    ensures CollectedIndexes(CARD_POSTINGS, ["eventId"], CardsDecode, CARDS)
    ensures var scanned := Present(RebuiltRecords(CardsDecode, CARDS));
            && ReadBack(CardsDecode, CARDS, Posted(CARD_POSTINGS, "eventId", "1")) == [CardOfEvent(2)]
            && Matching(scanned, "eventId", "1") == []
            && ReadBack(CardsDecode, CARDS, Posted(CARD_POSTINGS, "eventId", "2")) == [CardOfEvent(2)]
            && Matching(scanned, "eventId", "2") == [CardOfEvent(2), CardOfEvent(2)]
  {
    CardsCollected(sha);
    CardsPosted();
    CardRead();
    CardScans();
  }

  // ---------------------------------------------------------------- an empty object

  const EMPTY_BODY := "{}"

  function EmptyDecode(body: string): Decoded {
    if body == EMPTY_BODY then Fields(map[]) else Undecodable
  }

  /** A record without fields: the projection collected with its entity has no
      row for it, the one built from its stored record does. */
  lemma EmptyObjectUnprojected(sha: string -> string, fields: seq<string>)
    requires fields != []
    ensures var contents := ContentsOf(sha, EmptyDecode, "gachas", [EMPTY_BODY]);
            && contents == Contents([AutoRecordKey(sha, EMPTY_BODY)], [EMPTY_BODY]) && contents.Valid()
            && ProjectionFor(fields, contents.keys, CollectedRecords(EmptyDecode, contents.bodies)).value.keys == []
            && ProjectionFor(fields, contents.keys, RebuiltRecords(EmptyDecode, contents)).value.keys == contents.keys
  {
    ShortNamesArePlain("gachas");
    assert [EMPTY_BODY][..0] == [];
    assert NonEmpty([EMPTY_BODY]) == [EMPTY_BODY];
    CollectedValid(sha, EmptyDecode, "gachas", [EMPTY_BODY]);
    var contents := ContentsOf(sha, EmptyDecode, "gachas", [EMPTY_BODY]);
    assert contents.keys[..0] == [];
    assert CollectedRecords(EmptyDecode, contents.bodies) == [None];
    assert RebuiltRecords(EmptyDecode, contents) == [Some(map[])];
    assert PresentKeys([], []) == [];
  }
}
