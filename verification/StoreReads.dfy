/** Reads of a whole entity (internal/storage/master_data_postgres_store.go):
    decoding stored records, listing in source order, and paging. */
module StoreReads {
  import opened Text
  import opened Json
  import opened Blocks
  import opened BlockReads

  /** json.Unmarshal of a stored body into a record map. */
  type Decoder = string -> Decoded

  predicate Decodes(decode: Decoder, raw: Option<string>) {
    raw.Some? ==> decode(raw.value) != Undecodable
  }

  predicate AllDecode(decode: Decoder, raws: seq<Option<string>>) {
    forall i :: 0 <= i < |raws| ==> Decodes(decode, raws[i])
  }

  /** The record a raw body reads as; `null` and no body at all read as nil. */
  function StoredRecord(decode: Decoder, raw: Option<string>): Option<Record> {
    if raw.Some? && decode(raw.value).Fields? then Some(decode(raw.value).record) else None
  }

  function StoredRecords(decode: Decoder, raws: seq<Option<string>>): seq<Option<Record>> {
    seq(|raws|, i requires 0 <= i < |raws| => StoredRecord(decode, raws[i]))
  }

  /** The non-nil records, in order. */
  function Present(records: seq<Option<Record>>): seq<Record> {
    if records == [] then []
    else
      var n := |records| - 1;
      Present(records[..n]) + if records[n].Some? then [records[n].value] else []
  }

  /** What a read of some raw records returns: an error when one does not
      decode, else the non-nil records. */
  function Items(decode: Decoder, raws: seq<Option<string>>): Result<seq<Record>> {
    if AllDecode(decode, raws) then Ok(Present(StoredRecords(decode, raws))) else Err
  }

  method DecodeRecords(decode: Decoder, raws: seq<Option<string>>) returns (records: Result<seq<Option<Record>>>)
    ensures records == if AllDecode(decode, raws) then Ok(StoredRecords(decode, raws)) else Err
  {
    var decoded: seq<Option<Record>> := [];
    for i := 0 to |raws|
      invariant AllDecode(decode, raws[..i]) && |decoded| == i
      invariant forall j :: 0 <= j < i ==> decoded[j] == StoredRecord(decode, raws[j])
    {
      assert raws[..i + 1] == raws[..i] + [raws[i]];
      if raws[i].Some? && decode(raws[i].value) == Undecodable {
        assert !Decodes(decode, raws[i]);
        return Err;
      }
      decoded := decoded + [StoredRecord(decode, raws[i])];
    }
    assert raws[..|raws|] == raws;
    assert decoded == StoredRecords(decode, raws);
    return Ok(decoded);
  }

  method PresentItems(decode: Decoder, raws: seq<Option<string>>) returns (items: Result<seq<Record>>)
    ensures items == Items(decode, raws)
  {
    var records := DecodeRecords(decode, raws);
    if records.Err? {
      return Err;
    }
    var present: seq<Record> := [];
    for i := 0 to |records.value|
      invariant present == Present(records.value[..i])
    {
      assert records.value[..i + 1][..i] == records.value[..i];
      if records.value[i].Some? {
        present := present + [records.value[i].value];
      }
    }
    assert records.value[..|records.value|] == records.value;
    return Ok(present);
  }

  method ListAll(table: Table, decode: Decoder, ghost keys: seq<string>, ghost records: seq<string>)
    returns (items: Result<seq<Record>>)
    requires |keys| == |records| && TableFor(table, keys, records)
    ensures items == Items(decode, LastRecords(keys, records, keys))
  {
    var rows := LoadEntityInOrder(table, keys, records);
    if rows.Err? {
      return Err;
    }
    items := PresentItems(decode, rows.value.raws);
  }

  // ---------------------------------------------------------------- paging

  /** The rows of one page: the slice of order keys, read back key by key. */
  method ReadSlice(table: Table, orderKeys: seq<string>, start: nat, size: nat, decode: Decoder,
                   ghost keys: seq<string>, ghost records: seq<string>)
    returns (items: Result<seq<Record>>)
    requires |keys| == |records| && TableFor(table, keys, records) && "" !in keys
    requires orderKeys == keys && start < |keys|
    ensures var slice := keys[start..if start + size < |keys| then start + size else |keys|];
            items == Items(decode, LastRecords(keys, records, slice))
  {
    var end := if start + size < |orderKeys| then start + size else |orderKeys|;
    var raws := FetchRaws(table, orderKeys[start..end], keys, records);
    items := PresentItems(decode, raws);
  }

  lemma NoItems(decode: Decoder, keys: seq<string>, records: seq<string>)
    requires |keys| == |records|
    ensures Items(decode, LastRecords(keys, records, [])) == Ok([])
  {
    assert LastRecords(keys, records, []) == [];
  }

  lemma NonNegativeProduct(a: nat, b: nat)
    ensures 0 <= a * b
  {
  }

  lemma PageBounds(number: nat, size: nat)
    requires number >= 1
    ensures 0 <= (number - 1) * size && number * size == (number - 1) * size + size
  {
    NonNegativeProduct(number - 1, size);
  }

  /** The page's number and size are brought into range; its items are those of
      its slice of source order, empty past the end. */
  method ListByPage(table: Table, recordCount: nat, orderKeys: seq<string>, decode: Decoder, page: int, pageSize: int,
                    ghost keys: seq<string>, ghost records: seq<string>)
    returns (items: Result<seq<Record>>, total: nat)
    requires |keys| == |records| && TableFor(table, keys, records) && "" !in keys
    requires orderKeys == keys && recordCount == |keys|
    ensures total == |keys|
    ensures var number := if page <= 0 then 1 else page;
            var size := if pageSize <= 0 then 20 else if pageSize > 100 then 100 else pageSize;
            var low := if (number - 1) * size < |keys| then (number - 1) * size else |keys|;
            var high := if number * size < |keys| then number * size else |keys|;
            0 <= low <= high <= |keys| && items == Items(decode, LastRecords(keys, records, keys[low..high]))
  {
    var number, size := page, pageSize;
    if number <= 0 {
      number := 1;
    }
    if size <= 0 {
      size := 20;
    }
    if size > 100 {
      size := 100;
    }
    var start := (number - 1) * size;
    PageBounds(number, size);
    total := recordCount;
    if total <= 0 || start >= total {
      NoItems(decode, keys, records);
      assert keys[|keys|..|keys|] == [];
      return Ok([]), total;
    }
    items := ReadSlice(table, orderKeys, start, size, decode, keys, records);
  }

  /** The pages of one size laid end to end, failing when one of them does. */
  function Concatenated(pages: seq<Result<seq<Record>>>): Result<seq<Record>> {
    if pages == [] then Ok([])
    else
      var n := |pages| - 1;
      var before := Concatenated(pages[..n]);
      if before.Err? || pages[n].Err? then Err else Ok(before.value + pages[n].value)
  }

  /** One row: its record, if it has one. With PresentConcat, this says what the
      present records of any rows are. */
  lemma PresentOne(record: Option<Record>)
    ensures Present([record]) == if record.Some? then [record.value] else []
  {
    assert [record][..0] == [];
  }

  lemma {:induction false} PresentConcat(a: seq<Option<Record>>, b: seq<Option<Record>>)
    ensures Present(a + b) == Present(a) + Present(b)
  {
    if b == [] {
      assert a + b == a;
    } else {
      var n := |b| - 1;
      PresentConcat(a, b[..n]);
      assert (a + b)[..|a + b| - 1] == a + b[..n];
      assert (a + b)[|a + b| - 1] == b[n];
    }
  }

  lemma ItemsConcat(decode: Decoder, a: seq<Option<string>>, b: seq<Option<string>>)
    ensures Items(decode, a + b)
         == if Items(decode, a).Err? || Items(decode, b).Err? then Err
            else Ok(Items(decode, a).value + Items(decode, b).value)
  {
    assert forall i :: 0 <= i < |a| ==> (a + b)[i] == a[i];
    assert forall i :: 0 <= i < |b| ==> (a + b)[|a| + i] == b[i];
    if AllDecode(decode, a) && AllDecode(decode, b) {
      assert StoredRecords(decode, a + b) == StoredRecords(decode, a) + StoredRecords(decode, b);
      PresentConcat(StoredRecords(decode, a), StoredRecords(decode, b));
    }
  }

  lemma ItemsOfConcat(decode: Decoder, keys: seq<string>, records: seq<string>, a: seq<string>, b: seq<string>)
    requires |keys| == |records|
    ensures var before, page := Items(decode, LastRecords(keys, records, a)), Items(decode, LastRecords(keys, records, b));
            Items(decode, LastRecords(keys, records, a + b))
              == if before.Err? || page.Err? then Err else Ok(before.value + page.value)
  {
    assert LastRecords(keys, records, a + b) == LastRecords(keys, records, a) + LastRecords(keys, records, b);
    ItemsConcat(decode, LastRecords(keys, records, a), LastRecords(keys, records, b));
  }

  function Covered(keys: seq<string>, count: nat): nat {
    if count < |keys| then count else |keys|
  }

  lemma NextPage(keys: seq<string>, low: nat, high: nat, before: nat, after: nat)
    requires before <= after && low == Covered(keys, before) && high == Covered(keys, after)
    ensures keys[..low] + keys[low..high] == keys[..high]
  {
  }

  /** What ListByPage answers for page p + 1 of a size in range. */
  predicate IsPage(decode: Decoder, keys: seq<string>, records: seq<string>, size: nat, p: nat, items: Result<seq<Record>>)
    requires |keys| == |records|
  {
    var low, high := Covered(keys, p * size), Covered(keys, (p + 1) * size);
    low <= high && items == Items(decode, LastRecords(keys, records, keys[low..high]))
  }

  lemma OnePageMore(decode: Decoder, keys: seq<string>, records: seq<string>, size: nat, n: nat, last: Result<seq<Record>>)
    requires |keys| == |records| && IsPage(decode, keys, records, size, n, last)
    ensures var before := Items(decode, LastRecords(keys, records, keys[..Covered(keys, n * size)]));
            Items(decode, LastRecords(keys, records, keys[..Covered(keys, (n + 1) * size)]))
              == if before.Err? || last.Err? then Err else Ok(before.value + last.value)
  {
    NonNegativeProduct(n, size);
    NonNegativeProduct(n + 1, size);
    assert (n + 1) * size == n * size + size;
    var low, high := Covered(keys, n * size), Covered(keys, (n + 1) * size);
    NextPage(keys, low, high, n * size, (n + 1) * size);
    ItemsOfConcat(decode, keys, records, keys[..low], keys[low..high]);
  }

  lemma {:induction false} PagesAreAPrefix(decode: Decoder, keys: seq<string>, records: seq<string>, size: nat,
                                           pages: seq<Result<seq<Record>>>)
    requires |keys| == |records|
    requires forall p :: 0 <= p < |pages| ==> IsPage(decode, keys, records, size, p, pages[p])
    ensures Concatenated(pages) == Items(decode, LastRecords(keys, records, keys[..Covered(keys, |pages| * size)]))
  {
    if pages == [] {
      NoItems(decode, keys, records);
      assert keys[..0] == [];
    } else {
      var n := |pages| - 1;
      PagesAreAPrefix(decode, keys, records, size, pages[..n]);
      OnePageMore(decode, keys, records, size, n, pages[n]);
    }
  }

  /** Pages 1 to n of any page size, until they cover the entity, laid end to end:
      everything, failing exactly when listing everything fails. */
  lemma PagesConcatenateToAll(decode: Decoder, keys: seq<string>, records: seq<string>, size: nat,
                              pages: seq<Result<seq<Record>>>)
    requires |keys| == |records| && |keys| <= |pages| * size
    requires forall p :: 0 <= p < |pages| ==> IsPage(decode, keys, records, size, p, pages[p])
    ensures Concatenated(pages) == Items(decode, LastRecords(keys, records, keys))
  {
    PagesAreAPrefix(decode, keys, records, size, pages);
    assert keys[..|keys|] == keys;
  }

  /** Reading page after page through ListByPage, pages 1 to n of any page size,
      until they cover the entity: laid end to end they are what ListAll answers,
      failing exactly when it fails. */
  method ReadPages(table: Table, recordCount: nat, orderKeys: seq<string>, decode: Decoder, pages: nat, pageSize: int,
                   ghost keys: seq<string>, ghost records: seq<string>)
    returns (answers: seq<Result<seq<Record>>>)
    requires |keys| == |records| && TableFor(table, keys, records) && "" !in keys
    requires orderKeys == keys && recordCount == |keys|
    requires |keys| <= pages * if pageSize <= 0 then 20 else if pageSize > 100 then 100 else pageSize
    ensures |answers| == pages && Concatenated(answers) == Items(decode, LastRecords(keys, records, keys))
  {
    ghost var size := if pageSize <= 0 then 20 else if pageSize > 100 then 100 else pageSize;
    answers := [];
    for p := 0 to pages
      invariant |answers| == p
      invariant forall q :: 0 <= q < p ==> IsPage(decode, keys, records, size, q, answers[q])
    {
      var items, total := ListByPage(table, recordCount, orderKeys, decode, p + 1, pageSize, keys, records);
      assert IsPage(decode, keys, records, size, p, items) by {
        NonNegativeProduct(p, size);
        assert (p + 1 - 1) * size == p * size;
      }
      answers := answers + [items];
    }
    PagesConcatenateToAll(decode, keys, records, size, answers);
  }
}
