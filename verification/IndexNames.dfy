/** Index names as they are declared (internal/domain/masterdata/index.go,
    entityIndexes): "a,b" and "path[a+b]", and what an index of each form finds. */
module IndexNames {
  import opened Text
  import opened Json
  import opened IndexKeys

  predicate NoneHolds(names: seq<string>, c: char) {
    forall i :: 0 <= i < |names| ==> c !in names[i]
  }

  /** "path[a+b]" for a path that is not blank and two or more fields. */
  predicate ElementName(index: string, path: seq<string>, fields: seq<string>) {
    && path != [] && Join(path, '.') != "" && NoneHolds(path, '.') && NoneHolds(path, '[') && NoneHolds(path, ',')
    && |fields| >= 2 && NoneHolds(fields, '+') && NoneHolds(fields, ',')
    && index == Join(path, '.') + "[" + Join(fields, '+') + "]"
  }

  lemma {:induction false} JoinedHoldsNo(names: seq<string>, sep: char, c: char)
    requires c != sep && NoneHolds(names, c)
    ensures c !in Join(names, sep)
  {
    if |names| > 1 {
      JoinedHoldsNo(names[1..], sep, c);
    }
  }

  lemma {:induction false} PiecesHoldNo(names: seq<string>, sep: char, c: char)
    requires c !in Join(names, sep)
    ensures NoneHolds(names, c)
  {
    if |names| > 1 {
      var joined := Join(names, sep);
      assert joined == names[0] + ([sep] + Join(names[1..], sep));
      assert forall x :: x in names[0] ==> x in joined;
      assert forall x :: x in Join(names[1..], sep) ==> x in joined;
      PiecesHoldNo(names[1..], sep, c);
      assert forall i :: 1 <= i < |names| ==> names[i] == names[1..][i - 1];
    }
  }

  lemma Separated(names: seq<string>, sep: char)
    requires names != [] && NoneHolds(names, sep)
    ensures Split(Join(names, sep), sep) == names
  {
    forall name | name in names ensures sep !in name {
      var i :| 0 <= i < |names| && names[i] == name;
    }
    SplitJoin(names, sep);
  }

  /** Every name of the element form parses to its path and fields. */
  lemma ElementNameParses(index: string, path: seq<string>, fields: seq<string>)
    requires ElementName(index, path, fields)
    ensures ParseElementIndex(index) == Some(ElementIndex(path, fields))
  {
    var before, inside := Join(path, '.'), Join(fields, '+');
    JoinedHoldsNo(path, '.', '[');
    JoinedHoldsNo(path, '.', ',');
    JoinedHoldsNo(fields, '+', ',');
    assert index == before + ['['] + (inside + "]");
    IndexByteFirst(before, '[', inside + "]");
    assert index[..|before|] == before && index[|index| - 1] == ']';
    assert index[|before| + 1..|index| - 1] == inside;
    Separated(path, '.');
    Separated(fields, '+');
  }

  lemma SplitPath(before: string)
    requires '[' !in before && ',' !in before
    ensures Join(Split(before, '.'), '.') == before
    ensures NoneHolds(Split(before, '.'), '.') && NoneHolds(Split(before, '.'), '[') && NoneHolds(Split(before, '.'), ',')
  {
    JoinSplit(before, '.');
    PiecesHoldNo(Split(before, '.'), '.', '[');
    PiecesHoldNo(Split(before, '.'), '.', ',');
  }

  lemma SplitFields(inside: string)
    requires ',' !in inside
    ensures Join(Split(inside, '+'), '+') == inside
    ensures NoneHolds(Split(inside, '+'), '+') && NoneHolds(Split(inside, '+'), ',')
  {
    JoinSplit(inside, '+');
    PiecesHoldNo(Split(inside, '+'), '+', ',');
  }

  /** Nothing else parses. */
  lemma OnlyElementNamesParse(index: string)
    requires ParseElementIndex(index).Some?
    ensures var element := ParseElementIndex(index).value; ElementName(index, element.path, element.fields)
  {
    var open := IndexByte(index, '[');
    var before, inside := index[..open], index[open + 1..|index| - 1];
    assert index == before + "[" + inside + "]";
    assert ',' !in before by {
      assert forall x :: x in before ==> x in index;
    }
    assert ',' !in inside by {
      assert forall x :: x in inside ==> x in index;
    }
    SplitPath(before);
    SplitFields(inside);
  }

  /** parseElementIndex accepts exactly the names of the element form. */
  lemma ParseElementIndexExact(index: string, path: seq<string>, fields: seq<string>)
    ensures ParseElementIndex(index) == Some(ElementIndex(path, fields)) <==> ElementName(index, path, fields)
  {
    if ElementName(index, path, fields) {
      ElementNameParses(index, path, fields);
    }
    if ParseElementIndex(index) == Some(ElementIndex(path, fields)) {
      OnlyElementNamesParse(index);
    }
  }

  /** A name without '[', or with nothing before it, without a final ']', or with
      a ',', is no element index. */
  lemma ElementNamesHave(index: string)
    requires ParseElementIndex(index).Some?
    ensures '[' in index && index[0] != '[' && index[|index| - 1] == ']' && ',' !in index
  {
    assert index[IndexByte(index, '[')] == '[';
  }

  /** Nor is one with fewer than two fields. */
  lemma ElementNamesHaveFields(before: string, inside: string)
    requires '[' !in before && '+' !in inside
    ensures ParseElementIndex(before + "[" + inside + "]").None?
  {
    var index := before + "[" + inside + "]";
    assert index == before + ['['] + (inside + "]");
    IndexByteFirst(before, '[', inside + "]");
    assert index[|before| + 1..|index| - 1] == inside;
    OneField(inside);
  }

  lemma OneField(inside: string)
    requires '+' !in inside
    ensures |Split(inside, '+')| == 1
  {
  }

  lemma NoBracketNoElement(index: string)
    requires '[' !in index
    ensures ParseElementIndex(index).None?
  {
  }

  // ---------------------------------------------------------------- what an index finds

  /** The values looked up, part by part. */
  predicate Spelled(values: seq<Value>, parts: seq<string>) {
    |values| == |parts| && forall i :: 0 <= i < |values| ==> CanonicalKeyPart(values[i]) == Some(parts[i])
  }

  lemma {:induction false} SpelledLookup(values: seq<Value>, parts: seq<string>)
    requires values != [] && Spelled(values, parts)
    ensures LookupKey(values) == Some(KeyOf(parts, |parts|)) && LookupParts(values) == Some(parts)
  {
    SpelledParts(values, parts);
  }

  lemma {:induction false} SpelledParts(values: seq<Value>, parts: seq<string>)
    requires Spelled(values, parts)
    ensures LookupParts(values) == Some(parts)
  {
    if values != [] {
      var n := |values| - 1;
      SpelledParts(values[..n], parts[..n]);
      assert parts == parts[..n] + [parts[n]];
    }
  }

  /** One object reached along the path, itself or in an array, carries every
      field with the looked-up value's text. */
  ghost predicate OneElementCarries(record: Record, path: seq<string>, fields: seq<string>, parts: seq<string>) {
    exists end: Value, obj: Record ::
      && Reaches(Object(record), path, end) && IsObjectOf(obj, end)
      && |fields| == |parts|
      && forall i :: 0 <= i < |fields| ==> fields[i] in obj && CanonicalKeyPart(obj[fields[i]]) == Some(parts[i])
  }

  /** An index "path[a+b]" finds a record by its declared number of values exactly
      when one single element carries them all. */
  lemma ElementIndexFinds(record: Record, index: string, path: seq<string>, fields: seq<string>, values: seq<Value>,
                          parts: seq<string>)
    requires ElementName(index, path, fields) && |values| == |fields| && Spelled(values, parts)
    ensures LookupKey(values).Some?
    ensures LookupKey(values).value in KeysOfRecord(record, index) <==> OneElementCarries(record, path, fields, parts)
  {
    ElementNameParses(index, path, fields);
    SpelledLookup(values, parts);
    IndexKeysExact(record, index, values);
    assert Matches(record, index, parts) <==> MatchesElement(record, ElementIndex(path, fields), parts);
    ElementCarries(record, path, fields, parts);
  }

  lemma ElementCarries(record: Record, path: seq<string>, fields: seq<string>, parts: seq<string>)
    requires |fields| == |parts|
    ensures MatchesElement(record, ElementIndex(path, fields), parts) <==> OneElementCarries(record, path, fields, parts)
  {
    var element := ElementIndex(path, fields);
    if OneElementCarries(record, path, fields, parts) {
      var end, obj :|
        && Reaches(Object(record), path, end) && IsObjectOf(obj, end)
        && forall i :: 0 <= i < |fields| ==> fields[i] in obj && CanonicalKeyPart(obj[fields[i]]) == Some(parts[i]);
      assert Carries(obj, element.fields, parts);
    }
    if MatchesElement(record, element, parts) {
      var end, obj :| Reaches(Object(record), element.path, end) && IsObjectOf(obj, end) && Carries(obj, element.fields, parts);
      assert forall i :: 0 <= i < |fields| ==> fields[i] in obj && CanonicalKeyPart(obj[fields[i]]) == Some(parts[i]);
    }
  }

  /** A dotted field path carries a value with the looked-up text, in an array at
      its end or on its own. */
  ghost predicate PathCarries(record: Record, path: seq<string>, part: string) {
    exists end: Value, value: Value ::
      && Reaches(Object(record), path, end)
      && (if end.Array? then value in end.items else value == end)
      && CanonicalKeyPart(value) == Some(part)
  }

  /** Field paths whose names an index of the field form can join. */
  predicate FieldPaths(paths: seq<seq<string>>) {
    paths != [] && forall i :: 0 <= i < |paths| ==> FieldPath(paths[i])
  }

  predicate FieldPath(path: seq<string>) {
    path != [] && NoneHolds(path, '.') && NoneHolds(path, ',') && NoneHolds(path, '[')
  }

  /** A name of the field form is read as its comma-separated fields. */
  lemma FieldNameParses(index: string, paths: seq<seq<string>>)
    requires FieldPaths(paths) && index == Join(DottedNames(paths), ',')
    ensures ParseElementIndex(index).None? && Split(index, ',') == DottedNames(paths)
  {
    var names := DottedNames(paths);
    forall i | 0 <= i < |names| ensures ',' !in names[i] && '[' !in names[i] {
      assert FieldPath(paths[i]);
      JoinedHoldsNo(paths[i], '.', ',');
      JoinedHoldsNo(paths[i], '.', '[');
    }
    JoinedHoldsNo(names, ',', '[');
    Separated(names, ',');
    NoBracketNoElement(index);
  }

  ghost predicate AllPathsCarry(record: Record, paths: seq<seq<string>>, parts: seq<string>)
    requires |paths| == |parts|
  {
    forall i :: 0 <= i < |paths| ==> PathCarries(record, paths[i], parts[i])
  }

  lemma FieldsCarry(record: Record, paths: seq<seq<string>>, parts: seq<string>)
    requires FieldPaths(paths) && |paths| == |parts|
    ensures MatchesFields(record, DottedNames(paths), parts) <==> AllPathsCarry(record, paths, parts)
  {
    forall i | 0 <= i < |paths|
      ensures FieldMatches(record, DottedNames(paths)[i], parts[i]) <==> PathCarries(record, paths[i], parts[i])
    {
      assert FieldPath(paths[i]);
      Separated(paths[i], '.');
      FieldPathExact(record, DottedNames(paths)[i], paths[i], parts[i]);
    }
  }

  /** An index "a,b.c" finds a record by its declared number of values exactly when
      each field path carries its own. */
  lemma FieldIndexFinds(record: Record, index: string, paths: seq<seq<string>>, values: seq<Value>, parts: seq<string>)
    requires FieldPaths(paths) && |values| == |paths| && Spelled(values, parts)
    requires index == Join(DottedNames(paths), ',')
    ensures LookupKey(values).Some?
    ensures LookupKey(values).value in KeysOfRecord(record, index) <==> AllPathsCarry(record, paths, parts)
  {
    FieldNameParses(index, paths);
    SpelledLookup(values, parts);
    IndexKeysExact(record, index, values);
    FieldsCarry(record, paths, parts);
  }

  function DottedNames(paths: seq<seq<string>>): seq<string> {
    seq(|paths|, i requires 0 <= i < |paths| => Join(paths[i], '.'))
  }

  lemma FieldPathExact(record: Record, name: string, path: seq<string>, part: string)
    requires Split(name, '.') == path
    ensures FieldMatches(record, name, part) <==> PathCarries(record, path, part)
  {
    if FieldMatches(record, name, part) {
      var end, value :|
        Reaches(Object(record), path, end) && Contributes(end, value) && CanonicalKeyPart(value) == Some(part);
      assert if end.Array? then value in end.items else value == end;
    }
    if PathCarries(record, path, part) {
      var end, value :|
        && Reaches(Object(record), path, end) && (if end.Array? then value in end.items else value == end)
        && CanonicalKeyPart(value) == Some(part);
      assert Contributes(end, value);
    }
  }
}
