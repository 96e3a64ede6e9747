/** Relation index keys (internal/domain/masterdata/index.go): which keys a
    record contributes to an index, and the key a lookup asks for. */
module IndexKeys {
  import opened Text
  import opened Json

  // ---------------------------------------------------------------- paths

  function ObjectItems(items: seq<Value>): seq<Record> {
    if items == [] then []
    else
      var n := |items| - 1;
      ObjectItems(items[..n]) + if items[n].Object? then [items[n].fields] else []
  }

  function Objects(value: Value): seq<Record> {
    match value
    case Object(fields) => [fields]
    case Array(items) => ObjectItems(items)
    case _ => []
  }

  method ObjectsOf(value: Value) returns (objects: seq<Record>)
    ensures objects == Objects(value)
  {
    match value {
      case Object(fields) => objects := [fields];
      case Array(items) =>
        objects := [];
        for i := 0 to |items|
          invariant objects == ObjectItems(items[..i])
        {
          assert items[..i + 1][..i] == items[..i];
          if items[i].Object? {
            objects := objects + [items[i].fields];
          }
        }
        assert items[..|items|] == items;
      case _ => objects := [];
    }
  }

  predicate HasChild(obj: Record, segment: string) {
    segment in obj && obj[segment] != Null
  }

  function ObjectChildren(objects: seq<Record>, segment: string): seq<Value> {
    if objects == [] then []
    else
      var n := |objects| - 1;
      ObjectChildren(objects[..n], segment) + if HasChild(objects[n], segment) then [objects[n][segment]] else []
  }

  function Children(values: seq<Value>, segment: string): seq<Value> {
    if values == [] then []
    else
      var n := |values| - 1;
      Children(values[..n], segment) + ObjectChildren(Objects(values[n]), segment)
  }

  /** The values reached from some values along a path, in order. */
  function ValuesAt(values: seq<Value>, path: seq<string>): seq<Value> {
    if path == [] then values
    else
      var n := |path| - 1;
      Children(ValuesAt(values, path[..n]), path[n])
  }

  method ChildrenOfObjects(objects: seq<Record>, segment: string) returns (next: seq<Value>)
    ensures next == ObjectChildren(objects, segment)
  {
    next := [];
    for j := 0 to |objects|
      invariant next == ObjectChildren(objects[..j], segment)
    {
      assert objects[..j + 1][..j] == objects[..j];
      if segment in objects[j] && objects[j][segment] != Null {
        next := next + [objects[j][segment]];
      }
    }
    assert objects[..|objects|] == objects;
  }

  method ChildrenOf(values: seq<Value>, segment: string) returns (next: seq<Value>)
    ensures next == Children(values, segment)
  {
    next := [];
    for i := 0 to |values|
      invariant next == Children(values[..i], segment)
    {
      assert values[..i + 1][..i] == values[..i];
      var objects := ObjectsOf(values[i]);
      var children := ChildrenOfObjects(objects, segment);
      next := next + children;
    }
    assert values[..|values|] == values;
  }

  /** valuesAtPath. */
  method ValuesAtPath(record: Record, path: seq<string>) returns (values: seq<Value>)
    ensures values == ValuesAt([Object(record)], path)
  {
    values := [Object(record)];
    for i := 0 to |path|
      invariant values == ValuesAt([Object(record)], path[..i])
    {
      assert path[..i + 1][..i] == path[..i];
      values := ChildrenOf(values, path[i]);
    }
    assert path[..|path|] == path;
  }

  /** Arrays at the end of a path contribute each of their items. */
  function Flattened(values: seq<Value>): seq<Value> {
    if values == [] then []
    else
      var n := |values| - 1;
      Flattened(values[..n]) + if values[n].Array? then values[n].items else [values[n]]
  }

  method PathValues(record: Record, path: seq<string>) returns (values: seq<Value>)
    ensures values == Flattened(ValuesAt([Object(record)], path))
  {
    var current := ValuesAtPath(record, path);
    values := [];
    for i := 0 to |current|
      invariant values == Flattened(current[..i])
    {
      assert current[..i + 1][..i] == current[..i];
      if current[i].Array? {
        values := values + current[i].items;
      } else {
        values := values + [current[i]];
      }
    }
    assert current[..|current|] == current;
  }

  // What reaching means, independent of any order: an object steps to a field's
  // non-null value, and an array steps through each object in it.

  predicate IsObjectOf(obj: Record, value: Value) {
    match value
    case Object(fields) => obj == fields
    case Array(items) => Object(obj) in items
    case _ => false
  }

  ghost predicate Steps(value: Value, segment: string, child: Value) {
    exists obj: Record :: IsObjectOf(obj, value) && segment in obj && obj[segment] != Null && obj[segment] == child
  }

  ghost predicate Reaches(value: Value, path: seq<string>, leaf: Value)
    decreases |path|, 0
  {
    if path == [] then leaf == value
    else ReachesThrough(value, path[..|path| - 1], path[|path| - 1], leaf)
  }

  ghost predicate ReachesThrough(value: Value, path: seq<string>, last: string, leaf: Value)
    decreases |path|, 1
  {
    exists middle: Value :: Reaches(value, path, middle) && Steps(middle, last, leaf)
  }

  lemma {:induction false} ObjectItemsExact(items: seq<Value>, obj: Record)
    ensures obj in ObjectItems(items) <==> Object(obj) in items
  {
    if items != [] {
      var n := |items| - 1;
      ObjectItemsExact(items[..n], obj);
      assert items == items[..n] + [items[n]];
    }
  }

  lemma ObjectsExact(value: Value, obj: Record)
    ensures obj in Objects(value) <==> IsObjectOf(obj, value)
  {
    if value.Array? {
      ObjectItemsExact(value.items, obj);
    }
  }

  lemma {:induction false} ObjectChildrenExact(objects: seq<Record>, segment: string, child: Value)
    ensures child in ObjectChildren(objects, segment) <==>
            exists obj :: obj in objects && HasChild(obj, segment) && obj[segment] == child
  {
    if objects != [] {
      var n := |objects| - 1;
      ObjectChildrenExact(objects[..n], segment, child);
      assert objects == objects[..n] + [objects[n]];
    }
  }

  lemma StepsExact(value: Value, segment: string, child: Value)
    ensures child in ObjectChildren(Objects(value), segment) <==> Steps(value, segment, child)
  {
    ObjectChildrenExact(Objects(value), segment, child);
    forall obj: Record ensures obj in Objects(value) <==> IsObjectOf(obj, value) {
      ObjectsExact(value, obj);
    }
  }

  lemma {:induction false} ChildrenExact(values: seq<Value>, segment: string, child: Value)
    ensures child in Children(values, segment) <==> exists value :: value in values && Steps(value, segment, child)
  {
    if values != [] {
      var n := |values| - 1;
      ChildrenExact(values[..n], segment, child);
      StepsExact(values[n], segment, child);
      assert values == values[..n] + [values[n]];
    }
  }

  /** The path walk finds exactly the values a path reaches. */
  lemma {:induction false} ValuesAtExact(value: Value, path: seq<string>, leaf: Value)
    ensures leaf in ValuesAt([value], path) <==> Reaches(value, path, leaf)
    decreases |path|
  {
    if path != [] {
      var n := |path| - 1;
      ChildrenExact(ValuesAt([value], path[..n]), path[n], leaf);
      forall middle: Value ensures middle in ValuesAt([value], path[..n]) <==> Reaches(value, path[..n], middle) {
        ValuesAtExact(value, path[..n], middle);
      }
    }
  }

  predicate Contributes(end: Value, value: Value) {
    if end.Array? then value in end.items else value == end
  }

  lemma {:induction false} FlattenedExact(values: seq<Value>, leaf: Value)
    ensures leaf in Flattened(values) <==>
            exists value :: value in values && Contributes(value, leaf)
  {
    if values != [] {
      var n := |values| - 1;
      FlattenedExact(values[..n], leaf);
      assert values == values[..n] + [values[n]];
      assert leaf in Flattened(values) <==> leaf in Flattened(values[..n]) || Contributes(values[n], leaf);
    }
  }

  // ---------------------------------------------------------------- keys

  /** A one-field key stays readable; the parts of a multi-field key are
      length-prefixed. */
  function AppendIndexKeyPart(key: string, part: string, count: nat): string {
    if count == 1 then part else key + Part(part)
  }

  /** The key made of canonical parts. */
  function KeyOf(parts: seq<string>, count: nat): string {
    if parts == [] then ""
    else
      var n := |parts| - 1;
      AppendIndexKeyPart(KeyOf(parts[..n], count), parts[n], count)
  }

  lemma {:induction false} LongKeysArePartLists(parts: seq<string>, count: nat)
    requires count != 1
    ensures KeyOf(parts, count) == Parts(parts)
  {
    if parts != [] {
      var n := |parts| - 1;
      LongKeysArePartLists(parts[..n], count);
      PartsSnoc(parts[..n], parts[n]);
      assert parts == parts[..n] + [parts[n]];
    }
  }

  /** Keys of the same number of fields are equal only for equal parts. */
  lemma KeyInjective(ps: seq<string>, qs: seq<string>)
    requires |ps| == |qs|
    ensures KeyOf(ps, |ps|) == KeyOf(qs, |qs|) <==> ps == qs
  {
    if KeyOf(ps, |ps|) == KeyOf(qs, |qs|) {
      if |ps| == 1 {
        assert KeyOf(ps, 1) == ps[0] && KeyOf(qs, 1) == qs[0];
      } else {
        LongKeysArePartLists(ps, |ps|);
        LongKeysArePartLists(qs, |qs|);
        PartsInjective(ps, qs);
      }
    }
  }

  /** A single part spells several parts when it is their length-prefixed text. */
  predicate Spells(ps: seq<string>, qs: seq<string>) {
    |ps| == 1 && |qs| > 1 && ps[0] == Parts(qs)
  }

  /** Keys of any numbers of fields: equal exactly for equal parts, and when the
      only part of one spells the several parts of the other. */
  lemma KeysEqualExactly(ps: seq<string>, qs: seq<string>)
    requires ps != [] && qs != []
    ensures KeyOf(ps, |ps|) == KeyOf(qs, |qs|) <==> ps == qs || Spells(ps, qs) || Spells(qs, ps)
  {
    if |ps| == |qs| {
      KeyInjective(ps, qs);
    } else {
      PartListKey(ps);
      PartListKey(qs);
      if Parts(ps) == Parts(qs) {
        PartsInjective(ps, qs);
      }
    }
  }

  lemma PartListKey(ps: seq<string>)
    requires ps != []
    ensures KeyOf(ps, |ps|) == if |ps| == 1 then ps[0] else Parts(ps)
  {
    if |ps| > 1 {
      LongKeysArePartLists(ps, |ps|);
    }
  }

  /** Such a part exists: a one-field value can spell a two-field key. */
  lemma KeysOfDifferentArityCollide()
    ensures Spells(["1:x1:y"], ["x", "y"]) && KeyOf(["1:x1:y"], 1) == KeyOf(["x", "y"], 2)
  {
    assert ["x", "y"][1..] == ["y"] && ["y"][1..] == [];
    assert Parts(["x", "y"]) == "1:x1:y";
    KeysEqualExactly(["1:x1:y"], ["x", "y"]);
  }

  function CanonicalParts(values: seq<Value>): (parts: seq<string>) {
    if values == [] then []
    else
      var n := |values| - 1;
      CanonicalParts(values[..n]) +
      if CanonicalKeyPart(values[n]).Some? then [CanonicalKeyPart(values[n]).value] else []
  }

  lemma {:induction false} CanonicalPartsExact(values: seq<Value>, part: string)
    ensures part in CanonicalParts(values) <==> exists value :: value in values && CanonicalKeyPart(value) == Some(part)
  {
    if values != [] {
      var n := |values| - 1;
      CanonicalPartsExact(values[..n], part);
      assert values == values[..n] + [values[n]];
    }
  }

  /** The key parts a record offers for one field path. */
  function FieldParts(record: Record, field: string): seq<string> {
    CanonicalParts(Flattened(ValuesAt([Object(record)], Split(field, '.'))))
  }

  function ExtendOne(prefix: string, parts: seq<string>, count: nat): seq<string> {
    if parts == [] then []
    else
      var n := |parts| - 1;
      ExtendOne(prefix, parts[..n], count) + [AppendIndexKeyPart(prefix, parts[n], count)]
  }

  function Extend(keys: seq<string>, parts: seq<string>, count: nat): seq<string> {
    if keys == [] then []
    else
      var n := |keys| - 1;
      Extend(keys[..n], parts, count) + ExtendOne(keys[n], parts, count)
  }

  /** Every combination of one part out of each list. */
  function Combinations(options: seq<seq<string>>, count: nat): seq<string> {
    if options == [] then [""]
    else
      var n := |options| - 1;
      Extend(Combinations(options[..n], count), options[n], count)
  }

  function Options(record: Record, fields: seq<string>): seq<seq<string>> {
    seq(|fields|, i requires 0 <= i < |fields| => FieldParts(record, fields[i]))
  }

  function FieldKeys(record: Record, fields: seq<string>): seq<string> {
    Combinations(Options(record, fields), |fields|)
  }

  function ElementKey(obj: Record, fields: seq<string>, count: nat): Option<string> {
    if fields == [] then Some("")
    else
      var n := |fields| - 1;
      var key := ElementKey(obj, fields[..n], count);
      if key.None? || fields[n] !in obj then None
      else
        var part := CanonicalKeyPart(obj[fields[n]]);
        if part.None? then None else Some(AppendIndexKeyPart(key.value, part.value, count))
  }

  function ObjectKeys(objects: seq<Record>, fields: seq<string>): seq<string> {
    if objects == [] then []
    else
      var n := |objects| - 1;
      var key := ElementKey(objects[n], fields, |fields|);
      ObjectKeys(objects[..n], fields) + if key.Some? then [key.value] else []
  }

  function ElementKeys(elements: seq<Value>, fields: seq<string>): seq<string> {
    if elements == [] then []
    else
      var n := |elements| - 1;
      ElementKeys(elements[..n], fields) + ObjectKeys(Objects(elements[n]), fields)
  }

  function Distinct(values: seq<string>): seq<string> {
    if values == [] then []
    else
      var n := |values| - 1;
      Distinct(values[..n]) + if values[n] in values[..n] then [] else [values[n]]
  }

  lemma {:induction false} DistinctExact(values: seq<string>)
    ensures forall value :: value in Distinct(values) <==> value in values
    ensures Unrepeated(Distinct(values))
  {
    if values != [] {
      var n := |values| - 1;
      DistinctExact(values[..n]);
      assert values == values[..n] + [values[n]];
    }
  }

  /** An index written "path[a+b]". */
  datatype ElementIndex = ElementIndex(path: seq<string>, fields: seq<string>)

  function ParseElementIndex(index: string): Option<ElementIndex> {
    var open := IndexByte(index, '[');
    if open <= 0 || index[|index| - 1] != ']' || ',' in index then None
    else
      assert index[open] == '[';
      var fields := Split(index[open + 1..|index| - 1], '+');
      if |fields| < 2 then None else Some(ElementIndex(Split(index[..open], '.'), fields))
  }

  /** The index keys of a record, distinct, in the order they appear. */
  function KeysOfRecord(record: Record, index: string): seq<string> {
    match ParseElementIndex(index)
    case Some(element) => Distinct(ElementKeys(ValuesAt([Object(record)], element.path), element.fields))
    case None =>
      var fields := Split(index, ',');
      Distinct(FieldKeys(record, fields))
  }

  /** The key of a lookup, for values in the index's field order. */
  function LookupParts(values: seq<Value>): Option<seq<string>> {
    if values == [] then Some([])
    else
      var n := |values| - 1;
      var parts := LookupParts(values[..n]);
      if parts.None? || CanonicalKeyPart(values[n]).None? then None
      else Some(parts.value + [CanonicalKeyPart(values[n]).value])
  }

  function LookupKey(values: seq<Value>): Option<string> {
    if values == [] || LookupParts(values).None? then None
    else Some(KeyOf(LookupParts(values).value, |values|))
  }

  // ---------------------------------------------------------------- the loops

  lemma {:induction false} NoKeysStayNone(options: seq<seq<string>>, count: nat, n: nat)
    requires n <= |options| && Combinations(options[..n], count) == []
    ensures Combinations(options, count) == []
    decreases |options| - n
  {
    if n == |options| {
      assert options[..n] == options;
    } else {
      assert options[..n + 1][..n] == options[..n];
      NoKeysStayNone(options, count, n + 1);
    }
  }

  lemma {:induction false} ExtendByNothing(keys: seq<string>, count: nat)
    ensures Extend(keys, [], count) == []
  {
    if keys != [] {
      ExtendByNothing(keys[..|keys| - 1], count);
    }
  }

  method PartsOfField(record: Record, field: string) returns (parts: seq<string>)
    ensures parts == FieldParts(record, field)
  {
    var values := PathValues(record, Split(field, '.'));
    parts := [];
    for i := 0 to |values|
      invariant parts == CanonicalParts(values[..i])
    {
      assert values[..i + 1][..i] == values[..i];
      var part := CanonicalKeyPart(values[i]);
      if part.Some? {
        parts := parts + [part.value];
      }
    }
    assert values[..|values|] == values;
  }

  method ExtendPrefix(prefix: string, parts: seq<string>, count: nat) returns (next: seq<string>)
    ensures next == ExtendOne(prefix, parts, count)
  {
    next := [];
    for j := 0 to |parts|
      invariant next == ExtendOne(prefix, parts[..j], count)
    {
      assert parts[..j + 1][..j] == parts[..j];
      next := next + [AppendIndexKeyPart(prefix, parts[j], count)];
    }
    assert parts[..|parts|] == parts;
  }

  method ExtendKeys(keys: seq<string>, parts: seq<string>, count: nat) returns (next: seq<string>)
    ensures next == Extend(keys, parts, count)
  {
    next := [];
    for i := 0 to |keys|
      invariant next == Extend(keys[..i], parts, count)
    {
      assert keys[..i + 1][..i] == keys[..i];
      var extended := ExtendPrefix(keys[i], parts, count);
      next := next + extended;
    }
    assert keys[..|keys|] == keys;
  }

  method DistinctOf(values: seq<string>) returns (result: seq<string>)
    ensures result == Distinct(values)
  {
    var seen: set<string> := {};
    result := [];
    for i := 0 to |values|
      invariant result == Distinct(values[..i])
      invariant forall value :: value in seen <==> value in values[..i]
    {
      assert values[..i + 1][..i] == values[..i];
      assert values[..i + 1] == values[..i] + [values[i]];
      if values[i] !in seen {
        seen := seen + {values[i]};
        result := result + [values[i]];
      }
    }
    assert values[..|values|] == values;
  }

  lemma ElementKeyGrows(obj: Record, fields: seq<string>, count: nat, i: nat)
    requires i < |fields| && ElementKey(obj, fields[..i], count).Some?
    ensures ElementKey(obj, fields[..i + 1], count)
         == if fields[i] !in obj || CanonicalKeyPart(obj[fields[i]]).None? then None
            else Some(AppendIndexKeyPart(ElementKey(obj, fields[..i], count).value,
                                         CanonicalKeyPart(obj[fields[i]]).value, count))
  {
    assert fields[..i + 1][..i] == fields[..i];
  }

  method BuildElementKey(obj: Record, fields: seq<string>) returns (key: Option<string>)
    ensures key == ElementKey(obj, fields, |fields|)
  {
    var built := "";
    for i := 0 to |fields|
      invariant ElementKey(obj, fields[..i], |fields|) == Some(built)
    {
      ElementKeyGrows(obj, fields, |fields|, i);
      var part := if fields[i] in obj then CanonicalKeyPart(obj[fields[i]]) else None;
      if part.None? {
        MissingPartEndsKey(obj, fields, |fields|, i + 1);
        return None;
      }
      built := AppendIndexKeyPart(built, part.value, |fields|);
    }
    assert fields[..|fields|] == fields;
    return Some(built);
  }

  lemma {:induction false} MissingPartEndsKey(obj: Record, fields: seq<string>, count: nat, n: nat)
    requires n <= |fields| && ElementKey(obj, fields[..n], count).None?
    ensures ElementKey(obj, fields, count).None?
    decreases |fields| - n
  {
    if n == |fields| {
      assert fields[..n] == fields;
    } else {
      assert fields[..n + 1][..n] == fields[..n];
      MissingPartEndsKey(obj, fields, count, n + 1);
    }
  }

  method KeysOfObjects(objects: seq<Record>, fields: seq<string>) returns (keys: seq<string>)
    ensures keys == ObjectKeys(objects, fields)
  {
    keys := [];
    for j := 0 to |objects|
      invariant keys == ObjectKeys(objects[..j], fields)
    {
      assert objects[..j + 1][..j] == objects[..j];
      var key := BuildElementKey(objects[j], fields);
      if key.Some? {
        keys := keys + [key.value];
      }
    }
    assert objects[..|objects|] == objects;
  }

  method ElementIndexKeys(record: Record, path: seq<string>, fields: seq<string>) returns (keys: seq<string>)
    ensures keys == Distinct(ElementKeys(ValuesAt([Object(record)], path), fields))
  {
    keys := [];
    var elements := ValuesAtPath(record, path);
    for i := 0 to |elements|
      invariant keys == ElementKeys(elements[..i], fields)
    {
      assert elements[..i + 1][..i] == elements[..i];
      var objects := ObjectsOf(elements[i]);
      var elementKeys := KeysOfObjects(objects, fields);
      keys := keys + elementKeys;
    }
    assert elements[..|elements|] == elements;
    keys := DistinctOf(keys);
  }

  method FieldIndexKeys(record: Record, fields: seq<string>) returns (keys: seq<string>)
    ensures keys == FieldKeys(record, fields)
  {
    ghost var options := Options(record, fields);
    keys := [""];
    for i := 0 to |fields|
      invariant keys == Combinations(options[..i], |fields|)
    {
      assert options[..i + 1][..i] == options[..i];
      var parts := PartsOfField(record, fields[i]);
      assert parts == options[i];
      if |parts| == 0 {
        ExtendByNothing(keys, |fields|);
        NoKeysStayNone(options, |fields|, i + 1);
        return [];
      }
      keys := ExtendKeys(keys, parts, |fields|);
    }
    assert options[..|fields|] == options;
  }

  method IndexKeys(record: Record, index: string) returns (keys: seq<string>)
    ensures keys == KeysOfRecord(record, index)
  {
    var element := ParseElementIndex(index);
    if element.Some? {
      keys := ElementIndexKeys(record, element.value.path, element.value.fields);
    } else {
      keys := FieldIndexKeys(record, Split(index, ','));
      keys := DistinctOf(keys);
    }
  }

  lemma LookupGrows(values: seq<Value>, i: nat, parts: seq<string>)
    requires i < |values| && LookupParts(values[..i]) == Some(parts) && CanonicalKeyPart(values[i]).Some?
    ensures var grown := parts + [CanonicalKeyPart(values[i]).value];
            LookupParts(values[..i + 1]) == Some(grown) &&
            forall count: nat :: KeyOf(grown, count)
              == AppendIndexKeyPart(KeyOf(parts, count), CanonicalKeyPart(values[i]).value, count)
  {
    var grown := parts + [CanonicalKeyPart(values[i]).value];
    assert values[..i + 1][..i] == values[..i];
    assert grown[..|parts|] == parts;
  }

  method IndexLookupKey(values: seq<Value>) returns (key: Option<string>)
    ensures key == LookupKey(values)
  {
    var built := "";
    ghost var parts: seq<string> := [];
    for i := 0 to |values|
      invariant LookupParts(values[..i]) == Some(parts) && |parts| == i
      invariant built == KeyOf(parts, |values|)
    {
      assert values[..i + 1][..i] == values[..i];
      var part := CanonicalKeyPart(values[i]);
      if part.None? {
        BadValueEndsLookup(values, i + 1);
        return None;
      }
      LookupGrows(values, i, parts);
      built := AppendIndexKeyPart(built, part.value, |values|);
      parts := parts + [part.value];
    }
    assert values[..|values|] == values;
    return if |values| > 0 then Some(built) else None;
  }

  lemma {:induction false} BadValueEndsLookup(values: seq<Value>, n: nat)
    requires n <= |values| && LookupParts(values[..n]).None?
    ensures LookupParts(values).None?
    decreases |values| - n
  {
    if n == |values| {
      assert values[..n] == values;
    } else {
      assert values[..n + 1][..n] == values[..n];
      BadValueEndsLookup(values, n + 1);
    }
  }

  // ---------------------------------------------------------------- exactness

  lemma {:induction false} ExtendOneExact(prefix: string, parts: seq<string>, count: nat, key: string)
    ensures key in ExtendOne(prefix, parts, count) <==>
            exists part :: part in parts && key == AppendIndexKeyPart(prefix, part, count)
  {
    if parts != [] {
      var n := |parts| - 1;
      ExtendOneExact(prefix, parts[..n], count, key);
      assert parts == parts[..n] + [parts[n]];
    }
  }

  lemma {:induction false} ExtendExact(keys: seq<string>, parts: seq<string>, count: nat, key: string)
    ensures key in Extend(keys, parts, count) <==>
            exists prefix, part :: prefix in keys && part in parts && key == AppendIndexKeyPart(prefix, part, count)
  {
    if keys != [] {
      var n := |keys| - 1;
      ExtendExact(keys[..n], parts, count, key);
      ExtendOneExact(keys[n], parts, count, key);
      assert keys == keys[..n] + [keys[n]];
    }
  }

  /** One part chosen out of each list. */
  predicate Choice(options: seq<seq<string>>, parts: seq<string>) {
    |parts| == |options| && forall i :: 0 <= i < |options| ==> parts[i] in options[i]
  }

  lemma {:induction false} ChoicesAreKeys(options: seq<seq<string>>, count: nat, parts: seq<string>)
    requires Choice(options, parts)
    ensures KeyOf(parts, count) in Combinations(options, count)
  {
    if options != [] {
      var n := |options| - 1;
      ChoicesAreKeys(options[..n], count, parts[..n]);
      ExtendExact(Combinations(options[..n], count), options[n], count, KeyOf(parts, count));
    }
  }

  lemma KeyGrows(front: seq<string>, part: string, count: nat)
    ensures KeyOf(front + [part], count) == AppendIndexKeyPart(KeyOf(front, count), part, count)
  {
    assert (front + [part])[..|front|] == front;
  }

  lemma ChoiceGrows(options: seq<seq<string>>, front: seq<string>, part: string)
    requires options != [] && Choice(options[..|options| - 1], front) && part in options[|options| - 1]
    ensures Choice(options, front + [part])
  {
    assert forall i :: 0 <= i < |front| ==> options[..|options| - 1][i] == options[i];
  }

  lemma {:induction false} KeysAreChoices(options: seq<seq<string>>, count: nat, key: string) returns (parts: seq<string>)
    requires key in Combinations(options, count)
    ensures Choice(options, parts) && key == KeyOf(parts, count)
  {
    if options == [] {
      parts := [];
    } else {
      var n := |options| - 1;
      ExtendExact(Combinations(options[..n], count), options[n], count, key);
      var prefix, part :| prefix in Combinations(options[..n], count) && part in options[n]
                          && key == AppendIndexKeyPart(prefix, part, count);
      var front := KeysAreChoices(options[..n], count, prefix);
      parts := front + [part];
      ChoiceGrows(options, front, part);
      KeyGrows(front, part, count);
    }
  }

  /** A record's field path carries a value spelled like the looked-up one. */
  ghost predicate FieldMatches(record: Record, field: string, part: string) {
    exists end: Value, value: Value ::
      Reaches(Object(record), Split(field, '.'), end) && Contributes(end, value) && CanonicalKeyPart(value) == Some(part)
  }

  lemma FieldPartsExact(record: Record, field: string, part: string)
    ensures part in FieldParts(record, field) <==> FieldMatches(record, field, part)
  {
    var path := Split(field, '.');
    var ends := ValuesAt([Object(record)], path);
    CanonicalPartsExact(Flattened(ends), part);
    if part in FieldParts(record, field) {
      var value :| value in Flattened(ends) && CanonicalKeyPart(value) == Some(part);
      FlattenedExact(ends, value);
      var end :| end in ends && Contributes(end, value);
      ValuesAtExact(Object(record), path, end);
    }
    if FieldMatches(record, field, part) {
      var end, value :|
        Reaches(Object(record), path, end) && Contributes(end, value) && CanonicalKeyPart(value) == Some(part);
      ValuesAtExact(Object(record), path, end);
      FlattenedExact(ends, value);
    }
  }

  lemma {:induction false} LookupPartsAt(values: seq<Value>)
    requires LookupParts(values).Some?
    ensures |LookupParts(values).value| == |values|
    ensures forall i :: 0 <= i < |values| ==> CanonicalKeyPart(values[i]) == Some(LookupParts(values).value[i])
  {
    if values != [] {
      LookupPartsAt(values[..|values| - 1]);
    }
  }

  /** "a,b": each field is matched on its own. */
  ghost predicate MatchesFields(record: Record, fields: seq<string>, parts: seq<string>) {
    |fields| == |parts| && forall i :: 0 <= i < |fields| ==> FieldMatches(record, fields[i], parts[i])
  }

  /** "path[a+b]": one single array element carries all the values. */
  ghost predicate MatchesElement(record: Record, element: ElementIndex, parts: seq<string>) {
    exists end: Value, obj: Record ::
      Reaches(Object(record), element.path, end) && IsObjectOf(obj, end) && Carries(obj, element.fields, parts)
  }

  predicate Carries(obj: Record, fields: seq<string>, parts: seq<string>) {
    |fields| == |parts| &&
    forall i :: 0 <= i < |fields| ==> fields[i] in obj && CanonicalKeyPart(obj[fields[i]]) == Some(parts[i])
  }

  lemma FieldIndexExact(record: Record, fields: seq<string>, parts: seq<string>)
    requires |fields| == |parts|
    ensures KeyOf(parts, |parts|) in FieldKeys(record, fields) <==> MatchesFields(record, fields, parts)
  {
    var options, key := Options(record, fields), KeyOf(parts, |parts|);
    forall i | 0 <= i < |fields| ensures parts[i] in options[i] <==> FieldMatches(record, fields[i], parts[i]) {
      FieldPartsExact(record, fields[i], parts[i]);
    }
    if key in FieldKeys(record, fields) {
      var chosen := KeysAreChoices(options, |fields|, key);
      KeyInjective(chosen, parts);
    }
    if MatchesFields(record, fields, parts) {
      ChoicesAreKeys(options, |fields|, parts);
    }
  }

  predicate CarriesSome(obj: Record, fields: seq<string>) {
    forall i :: 0 <= i < |fields| ==> fields[i] in obj && CanonicalKeyPart(obj[fields[i]]).Some?
  }

  function CarriedParts(obj: Record, fields: seq<string>): (parts: seq<string>)
    requires CarriesSome(obj, fields)
    ensures Carries(obj, fields, parts)
  {
    seq(|fields|, i requires 0 <= i < |fields| => CanonicalKeyPart(obj[fields[i]]).value)
  }

  lemma CarriedPartsGrow(obj: Record, fields: seq<string>, count: nat)
    requires fields != []
    ensures CarriesSome(obj, fields) <==>
            CarriesSome(obj, fields[..|fields| - 1]) && fields[|fields| - 1] in obj &&
            CanonicalKeyPart(obj[fields[|fields| - 1]]).Some?
    ensures CarriesSome(obj, fields) ==>
              KeyOf(CarriedParts(obj, fields), count)
              == AppendIndexKeyPart(KeyOf(CarriedParts(obj, fields[..|fields| - 1]), count),
                                    CanonicalKeyPart(obj[fields[|fields| - 1]]).value, count)
  {
    var n := |fields| - 1;
    assert forall i :: 0 <= i < n ==> fields[..n][i] == fields[i];
    if CarriesSome(obj, fields) {
      assert CarriesSome(obj, fields[..n]);
      assert CarriedParts(obj, fields)[..n] == CarriedParts(obj, fields[..n]);
    }
  }

  lemma {:induction false} ElementKeyExact(obj: Record, fields: seq<string>, count: nat)
    ensures ElementKey(obj, fields, count)
         == if CarriesSome(obj, fields) then Some(KeyOf(CarriedParts(obj, fields), count)) else None
  {
    if fields != [] {
      var n := |fields| - 1;
      ElementKeyExact(obj, fields[..n], count);
      CarriedPartsGrow(obj, fields, count);
    }
  }

  lemma CarriesOnce(obj: Record, fields: seq<string>, ps: seq<string>, qs: seq<string>)
    requires Carries(obj, fields, ps) && Carries(obj, fields, qs)
    ensures ps == qs
  {
    forall i | 0 <= i < |ps| ensures ps[i] == qs[i] {
      assert Some(ps[i]) == CanonicalKeyPart(obj[fields[i]]) == Some(qs[i]);
    }
  }

  lemma ObjectKeyMatches(obj: Record, fields: seq<string>, parts: seq<string>)
    requires |fields| == |parts|
    ensures ElementKey(obj, fields, |fields|) == Some(KeyOf(parts, |parts|)) <==> Carries(obj, fields, parts)
  {
    ElementKeyExact(obj, fields, |fields|);
    if CarriesSome(obj, fields) {
      KeyInjective(CarriedParts(obj, fields), parts);
      if Carries(obj, fields, parts) {
        CarriesOnce(obj, fields, CarriedParts(obj, fields), parts);
      }
    }
  }

  predicate HasKey(obj: Record, fields: seq<string>, key: string) {
    ElementKey(obj, fields, |fields|) == Some(key)
  }

  lemma {:induction false} ObjectKeysExact(objects: seq<Record>, fields: seq<string>, key: string)
    ensures key in ObjectKeys(objects, fields) <==> exists obj :: obj in objects && HasKey(obj, fields, key)
  {
    if objects != [] {
      var n := |objects| - 1;
      ObjectKeysExact(objects[..n], fields, key);
      assert objects == objects[..n] + [objects[n]];
      assert key in ObjectKeys(objects, fields) <==>
             key in ObjectKeys(objects[..n], fields) || HasKey(objects[n], fields, key);
    }
  }

  predicate ElementHasKey(element: Value, fields: seq<string>, key: string) {
    key in ObjectKeys(Objects(element), fields)
  }

  lemma ElementKeysSnoc(front: seq<Value>, last: Value, fields: seq<string>, key: string)
    ensures key in ElementKeys(front + [last], fields) <==>
            key in ElementKeys(front, fields) || ElementHasKey(last, fields, key)
  {
    assert (front + [last])[..|front|] == front;
  }

  lemma {:induction false} ElementKeysExact(elements: seq<Value>, fields: seq<string>, key: string)
    ensures key in ElementKeys(elements, fields) <==>
            exists end :: end in elements && ElementHasKey(end, fields, key)
  {
    if elements != [] {
      var n := |elements| - 1;
      var front, last := elements[..n], elements[n];
      ElementKeysExact(front, fields, key);
      assert elements == front + [last];
      ElementKeysSnoc(front, last, fields, key);
    }
  }

  lemma ElementIndexExact(record: Record, element: ElementIndex, parts: seq<string>)
    requires |element.fields| == |parts|
    ensures KeyOf(parts, |parts|) in ElementKeys(ValuesAt([Object(record)], element.path), element.fields)
       <==> MatchesElement(record, element, parts)
  {
    var ends, fields, key := ValuesAt([Object(record)], element.path), element.fields, KeyOf(parts, |parts|);
    ElementKeysExact(ends, fields, key);
    if key in ElementKeys(ends, fields) {
      var end :| end in ends && ElementHasKey(end, fields, key);
      ObjectKeysExact(Objects(end), fields, key);
      var obj :| obj in Objects(end) && HasKey(obj, fields, key);
      ValuesAtExact(Object(record), element.path, end);
      ObjectsExact(end, obj);
      ObjectKeyMatches(obj, fields, parts);
    }
    if MatchesElement(record, element, parts) {
      var end, obj :| Reaches(Object(record), element.path, end) && IsObjectOf(obj, end) && Carries(obj, fields, parts);
      ValuesAtExact(Object(record), element.path, end);
      ObjectsExact(end, obj);
      ObjectKeyMatches(obj, fields, parts);
      assert HasKey(obj, fields, key);
      ObjectKeysExact(Objects(end), fields, key);
      assert ElementHasKey(end, fields, key);
    }
  }

  /** The number of values a lookup on an index takes. */
  function Arity(index: string): nat {
    match ParseElementIndex(index)
    case Some(element) => |element.fields|
    case None => |Split(index, ',')|
  }

  ghost predicate Matches(record: Record, index: string, parts: seq<string>) {
    match ParseElementIndex(index)
    case Some(element) => MatchesElement(record, element, parts)
    case None => MatchesFields(record, Split(index, ','), parts)
  }

  lemma AritySplits(index: string)
    ensures Arity(index) >= 1
  {
  }

  lemma ElementKeysAre(record: Record, element: ElementIndex, key: string) returns (parts: seq<string>)
    requires key in ElementKeys(ValuesAt([Object(record)], element.path), element.fields)
    ensures key == KeyOf(parts, |element.fields|) && MatchesElement(record, element, parts)
  {
    var ends, fields := ValuesAt([Object(record)], element.path), element.fields;
    ElementKeysExact(ends, fields, key);
    var end :| end in ends && ElementHasKey(end, fields, key);
    ObjectKeysExact(Objects(end), fields, key);
    var obj :| obj in Objects(end) && HasKey(obj, fields, key);
    ElementKeyExact(obj, fields, |fields|);
    parts := CarriedParts(obj, fields);
    ValuesAtExact(Object(record), element.path, end);
    ObjectsExact(end, obj);
  }

  lemma FieldKeysAre(record: Record, fields: seq<string>, key: string) returns (parts: seq<string>)
    requires key in FieldKeys(record, fields)
    ensures key == KeyOf(parts, |fields|) && MatchesFields(record, fields, parts)
  {
    parts := KeysAreChoices(Options(record, fields), |fields|, key);
    forall i | 0 <= i < |fields| ensures FieldMatches(record, fields[i], parts[i]) {
      FieldPartsExact(record, fields[i], parts[i]);
    }
  }

  /** Every key of a record is that of parts it matches. */
  lemma KeysAreMatches(record: Record, index: string, key: string) returns (parts: seq<string>)
    requires key in KeysOfRecord(record, index)
    ensures |parts| == Arity(index) && key == KeyOf(parts, |parts|) && Matches(record, index, parts)
  {
    match ParseElementIndex(index) {
      case Some(element) =>
        DistinctExact(ElementKeys(ValuesAt([Object(record)], element.path), element.fields));
        parts := ElementKeysAre(record, element, key);
      case None =>
        var fields := Split(index, ',');
        DistinctExact(FieldKeys(record, fields));
        parts := FieldKeysAre(record, fields, key);
    }
  }

  lemma MatchesAreKeys(record: Record, index: string, parts: seq<string>)
    requires |parts| == Arity(index)
    ensures KeyOf(parts, |parts|) in KeysOfRecord(record, index) <==> Matches(record, index, parts)
  {
    match ParseElementIndex(index) {
      case Some(element) =>
        ElementIndexExact(record, element, parts);
        DistinctExact(ElementKeys(ValuesAt([Object(record)], element.path), element.fields));
      case None =>
        var fields := Split(index, ',');
        FieldIndexExact(record, fields, parts);
        DistinctExact(FieldKeys(record, fields));
    }
  }

  lemma RecordKeysUnrepeated(record: Record, index: string)
    ensures Unrepeated(KeysOfRecord(record, index))
  {
    match ParseElementIndex(index) {
      case Some(element) => DistinctExact(ElementKeys(ValuesAt([Object(record)], element.path), element.fields));
      case None => DistinctExact(FieldKeys(record, Split(index, ',')));
    }
  }

  /** A record matches some parts of the index's arity that the looked-up parts
      stand for: those parts themselves or, for a lookup of another length, parts
      that spell or are spelled by them. */
  ghost predicate AnswersLookup(record: Record, index: string, parts: seq<string>) {
    exists ps :: |ps| == Arity(index) && (ps == parts || Spells(ps, parts) || Spells(parts, ps)) && Matches(record, index, ps)
  }

  /** The index key algebra is exact: for every record, every index and every
      lookup of any length, the lookup's key is among the record's keys exactly
      when the record answers it, which for a lookup of the index's arity means
      that it matches; and a record's keys never repeat. */
  lemma IndexKeysExact(record: Record, index: string, values: seq<Value>)
    requires LookupKey(values).Some?
    ensures LookupKey(values).value in KeysOfRecord(record, index) <==> AnswersLookup(record, index, LookupParts(values).value)
    ensures |values| == Arity(index) ==>
              (LookupKey(values).value in KeysOfRecord(record, index) <==> Matches(record, index, LookupParts(values).value))
    ensures Unrepeated(KeysOfRecord(record, index))
  {
    var parts, key := LookupParts(values).value, LookupKey(values).value;
    LookupPartsAt(values);
    AritySplits(index);
    RecordKeysUnrepeated(record, index);
    if key in KeysOfRecord(record, index) {
      var ps := KeysAreMatches(record, index, key);
      KeysEqualExactly(ps, parts);
    }
    if AnswersLookup(record, index, parts) {
      var ps :| |ps| == Arity(index) && (ps == parts || Spells(ps, parts) || Spells(parts, ps)) && Matches(record, index, ps);
      KeysEqualExactly(ps, parts);
      MatchesAreKeys(record, index, ps);
    }
    if |values| == Arity(index) {
      MatchesAreKeys(record, index, parts);
    }
  }
}
