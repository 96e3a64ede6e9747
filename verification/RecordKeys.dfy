/** Record keys: composite keys (internal/domain/masterdata/record_key.go) and
    the per-entity keyer that hands out fallback keys
    (internal/storage/master_data_record_keys.go). */
module RecordKeys {
  import opened Text
  import opened Json

  function ToLower(s: string): string {
    seq(|s|, i requires 0 <= i < |s| =>
      if 'A' <= s[i] <= 'Z' then (s[i] as int + 32) as char else s[i])
  }

  function NormalizeEntity(entity: string): string {
    ToLower(TrimSpace(entity))
  }

  function CompositeKeyFields(entity: string): seq<string> {
    var name := NormalizeEntity(entity);
    if name == "resourceboxes" then ["id", "resourceBoxPurpose"]
    else if name == "resourceboxdetails" then ["resourceBoxId", "resourceBoxPurpose", "seq"]
    else if name == "charactermissionv2parametergroups" then ["id", "seq"]
    else []
  }

  predicate UsesCompositeKey(entity: string) {
    CompositeKeyFields(entity) != []
  }

  const COMPOSITE_KEY_PREFIX := "composite:v1:"
  const AUTO_KEY_PREFIX := "auto:"

  /** The key fields of a record in canonical form, or None when one is missing
      or cannot be a key part. */
  function CanonicalFields(fields: seq<string>, record: Record): (values: Option<seq<string>>)
    ensures values.Some? ==> |values.value| == |fields|
  {
    if fields == [] then Some([])
    else if fields[0] !in record || CanonicalKeyPart(record[fields[0]]).None? then None
    else
      var rest := CanonicalFields(fields[1..], record);
      if rest.None? then None
      else Some([CanonicalKeyPart(record[fields[0]]).value] + rest.value)
  }

  function Interleave(fields: seq<string>, values: seq<string>): seq<string>
    requires |fields| == |values|
  {
    if fields == [] then [] else [fields[0], values[0]] + Interleave(fields[1..], values[1..])
  }

  /** The parts a composite key is made of: the entity, then each field's name
      and value. */
  function CompositeParts(entity: string, fields: seq<string>, values: seq<string>): seq<string>
    requires |fields| == |values|
  {
    [NormalizeEntity(entity)] + Interleave(fields, values)
  }

  function CompositeKey(entity: string, fields: seq<string>, values: seq<string>): string
    requires |fields| == |values|
  {
    COMPOSITE_KEY_PREFIX + Parts(CompositeParts(entity, fields, values))
  }

  lemma {:induction false} InterleaveSnoc(fields: seq<string>, values: seq<string>, n: nat)
    requires |fields| == |values| && n < |fields|
    ensures Interleave(fields[..n + 1], values[..n + 1])
         == Interleave(fields[..n], values[..n]) + [fields[n], values[n]]
  {
    if n > 0 {
      InterleaveSnoc(fields[1..], values[1..], n - 1);
      TakeThenDrop(fields, n);
      TakeThenDrop(values, n);
      TakeThenDrop(fields, n - 1);
      TakeThenDrop(values, n - 1);
      var head, last := [fields[0], values[0]], [fields[n], values[n]];
      var rest := Interleave(fields[1..][..n - 1], values[1..][..n - 1]);
      assert Interleave(fields[..n], values[..n]) == head + rest;
      assert Interleave(fields[..n + 1], values[..n + 1]) == head + (rest + last);
      assert head + (rest + last) == (head + rest) + last;
    }
  }

  /** The string builder loop of EncodeCompositeKey. */
  method EncodeCompositeKey(entity: string, fields: seq<string>, values: seq<string>) returns (key: string)
    requires |fields| == |values|
    ensures key == CompositeKey(entity, fields, values)
  {
    var builder := COMPOSITE_KEY_PREFIX;
    builder := builder + Part(NormalizeEntity(entity));
    ghost var parts := [NormalizeEntity(entity)];
    assert Parts(parts) == Part(NormalizeEntity(entity)) + Parts([]);
    for index := 0 to |fields|
      invariant parts == [NormalizeEntity(entity)] + Interleave(fields[..index], values[..index])
      invariant builder == COMPOSITE_KEY_PREFIX + Parts(parts)
    {
      InterleaveSnoc(fields, values, index);
      PartsSnoc(parts, fields[index]);
      PartsSnoc(parts + [fields[index]], values[index]);
      builder := builder + Part(fields[index]);
      builder := builder + Part(values[index]);
      parts := parts + [fields[index]] + [values[index]];
    }
    assert fields[..|fields|] == fields && values[..|values|] == values;
    return builder;
  }

  lemma {:induction false} InterleaveInjective(fields: seq<string>, values: seq<string>, values': seq<string>)
    requires |fields| == |values| == |values'|
    requires Interleave(fields, values) == Interleave(fields, values')
    ensures values == values'
  {
    if fields != [] {
      var x, y := Interleave(fields, values), Interleave(fields, values');
      assert x[1] == values[0] && y[1] == values'[0];
      assert x[2..] == Interleave(fields[1..], values[1..]);
      assert y[2..] == Interleave(fields[1..], values'[1..]);
      InterleaveInjective(fields[1..], values[1..], values'[1..]);
      assert values == [values[0]] + values[1..] && values' == [values'[0]] + values'[1..];
    }
  }

  /** Two composite keys of an entity are equal exactly when all canonical field
      values are. */
  lemma CompositeKeyInjective(entity: string, fields: seq<string>, values: seq<string>, values': seq<string>)
    requires |fields| == |values| == |values'|
    ensures CompositeKey(entity, fields, values) == CompositeKey(entity, fields, values') <==> values == values'
  {
    if CompositeKey(entity, fields, values) == CompositeKey(entity, fields, values') {
      var p, q := CompositeParts(entity, fields, values), CompositeParts(entity, fields, values');
      var n := |COMPOSITE_KEY_PREFIX|;
      assert Parts(p) == CompositeKey(entity, fields, values)[n..];
      assert Parts(q) == CompositeKey(entity, fields, values')[n..];
      PartsInjective(p, q);
      assert p[1..] == Interleave(fields, values) && q[1..] == Interleave(fields, values');
      InterleaveInjective(fields, values, values');
    }
  }

  // ---------------------------------------------------------------- keyer

  /** A record as the keyer sees it: its JSON body and what it decodes to. */
  datatype Input = Input(record: Decoded, body: string)

  /** sha: the SHA-256 digest of a body in hex. Only its fixed length matters;
      equal digests of different bodies are covered. */
  ghost predicate HexDigests(sha: string -> string) {
    forall body :: |sha(body)| == 64
  }

  function AutoRecordKey(sha: string -> string, body: string): string {
    if body == "" then "" else AUTO_KEY_PREFIX + sha(body)
  }

  function CompositeRecordKey(entity: string, record: Decoded): Option<string> {
    if !record.Fields? || !UsesCompositeKey(entity) then None
    else
      var values := CanonicalFields(CompositeKeyFields(entity), record.record);
      if values.None? then None
      else Some(CompositeKey(entity, CompositeKeyFields(entity), values.value))
  }

  /** CompositeRecordKey as the source computes it: canonical parts collected
      field by field, then encoded. */
  method BuildCompositeRecordKey(entity: string, record: Decoded) returns (key: Option<string>)
    ensures key == CompositeRecordKey(entity, record)
  {
    var fields := CompositeKeyFields(entity);
    if fields == [] || !record.Fields? {
      return None;
    }
    var values: seq<string> := [];
    assert fields[0..] == fields;
    assert forall rest: seq<string> :: values + rest == rest;
    for index := 0 to |fields|
      invariant |values| == index
      invariant CanonicalFields(fields, record.record)
             == var rest := CanonicalFields(fields[index..], record.record);
                if rest.None? then None else Some(values + rest.value)
    {
      assert fields[index..][1..] == fields[index + 1..];
      var field := fields[index];
      if field !in record.record {
        return None;
      }
      var part := CanonicalKeyPart(record.record[field]);
      if part.None? {
        return None;
      }
      assert forall rest: seq<string> :: (values + [part.value]) + rest == values + ([part.value] + rest);
      values := values + [part.value];
    }
    assert values + [] == values;
    var encoded := EncodeCompositeKey(entity, fields, values);
    return Some(encoded);
  }

  /** A decoded record's id as lookups spell it. */
  function RecordID(record: Decoded): string {
    if !record.Fields? || "id" !in record.record then ""
    else if CanonicalKeyPart(record.record["id"]).Some? then CanonicalKeyPart(record.record["id"]).value
    else ""
  }

  function RecordKey(sha: string -> string, record: Decoded, body: string): string {
    if RecordID(record) != "" then RecordID(record) else AutoRecordKey(sha, body)
  }

  type Occurrences = map<string, nat>

  function Count(occurrences: Occurrences, base: string): nat {
    if base in occurrences then occurrences[base] else 0
  }

  function FallbackName(base: string, occurrence: nat): string {
    if occurrence == 0 then base else base + ":" + Itoa(occurrence)
  }

  /** One call of the keyer: the key handed out and the occurrences after it. */
  function KeyStep(sha: string -> string, entity: string, occurrences: Occurrences, input: Input): (string, Occurrences) {
    if !UsesCompositeKey(entity) then (RecordKey(sha, input.record, input.body), occurrences)
    else if CompositeRecordKey(entity, input.record).Some? then
      (CompositeRecordKey(entity, input.record).value, occurrences)
    else
      var base := AutoRecordKey(sha, input.body);
      (FallbackName(base, Count(occurrences, base)), occurrences[base := Count(occurrences, base) + 1])
  }

  class RecordKeyer {
    const entity: string
    const sha: string -> string
    var fallbackOccurrences: Occurrences

    constructor (entity: string, sha: string -> string)
      ensures this.entity == entity && this.sha == sha && fallbackOccurrences == map[]
    {
      this.entity := entity;
      this.sha := sha;
      fallbackOccurrences := map[];
    }

    method Key(record: Decoded, body: string) returns (key: string)
      modifies this
      ensures (key, fallbackOccurrences) == KeyStep(sha, entity, old(fallbackOccurrences), Input(record, body))
    {
      if !UsesCompositeKey(entity) {
        return RecordKey(sha, record, body);
      }
      var composite := BuildCompositeRecordKey(entity, record);
      if composite.Some? {
        return composite.value;
      }
      key := FallbackKey(body);
    }

    method FallbackKey(body: string) returns (key: string)
      modifies this
      ensures var base := AutoRecordKey(sha, body);
              var seen := Count(old(fallbackOccurrences), base);
              key == FallbackName(base, seen) && fallbackOccurrences == old(fallbackOccurrences)[base := seen + 1]
    {
      var baseKey := AutoRecordKey(sha, body);
      var occurrence := Count(fallbackOccurrences, baseKey);
      fallbackOccurrences := fallbackOccurrences[baseKey := occurrence + 1];
      if occurrence == 0 {
        return baseKey;
      }
      return baseKey + ":" + Itoa(occurrence);
    }
  }

  // ---------------------------------------------------------------- a whole entity

  function OccurrencesAfter(sha: string -> string, entity: string, inputs: seq<Input>): Occurrences {
    if inputs == [] then map[]
    else
      var n := |inputs| - 1;
      KeyStep(sha, entity, OccurrencesAfter(sha, entity, inputs[..n]), inputs[n]).1
  }

  /** The key the keyer hands to the i-th record fed to it. */
  function KeyAt(sha: string -> string, entity: string, inputs: seq<Input>, i: nat): string
    requires i < |inputs|
  {
    KeyStep(sha, entity, OccurrencesAfter(sha, entity, inputs[..i]), inputs[i]).0
  }

  lemma StepGrows(sha: string -> string, entity: string, occurrences: Occurrences, input: Input, base: string)
    ensures Count(occurrences, base) <= Count(KeyStep(sha, entity, occurrences, input).1, base)
  {
  }

  lemma {:induction false} CountsGrow(sha: string -> string, entity: string, inputs: seq<Input>, i: nat, j: nat, base: string)
    requires i <= j <= |inputs|
    ensures Count(OccurrencesAfter(sha, entity, inputs[..i]), base) <= Count(OccurrencesAfter(sha, entity, inputs[..j]), base)
    decreases j - i
  {
    if i < j {
      CountsGrow(sha, entity, inputs, i, j - 1, base);
      assert inputs[..j][..j - 1] == inputs[..j - 1];
      StepGrows(sha, entity, OccurrencesAfter(sha, entity, inputs[..j - 1]), inputs[j - 1], base);
    }
  }

  predicate IsFallback(entity: string, input: Input) {
    UsesCompositeKey(entity) && CompositeRecordKey(entity, input.record).None?
  }

  lemma FallbackNameUnique(a: string, m: nat, b: string, n: nat)
    requires |a| == |b| && FallbackName(a, m) == FallbackName(b, n)
    ensures a == b && m == n
  {
    var x, y := FallbackName(a, m), FallbackName(b, n);
    assert a == x[..|a|] && b == y[..|b|];
    if m > 0 && n > 0 {
      assert Itoa(m) == x[|a| + 1..] && Itoa(n) == y[|b| + 1..];
      ItoaInjective(m, n);
    }
  }

  lemma FallbackKeysDistinct(sha: string -> string, entity: string, inputs: seq<Input>, i: nat, j: nat)
    requires HexDigests(sha) && i < j < |inputs|
    requires IsFallback(entity, inputs[i]) && IsFallback(entity, inputs[j])
    requires inputs[i].body != "" && inputs[j].body != ""
    ensures KeyAt(sha, entity, inputs, i) != KeyAt(sha, entity, inputs, j)
  {
    var a, b := AutoRecordKey(sha, inputs[i].body), AutoRecordKey(sha, inputs[j].body);
    var before := OccurrencesAfter(sha, entity, inputs[..i]);
    assert inputs[..i + 1][..i] == inputs[..i];
    assert Count(OccurrencesAfter(sha, entity, inputs[..i + 1]), a) == Count(before, a) + 1;
    CountsGrow(sha, entity, inputs, i + 1, j, a);
    if KeyAt(sha, entity, inputs, i) == KeyAt(sha, entity, inputs, j) {
      FallbackNameUnique(a, Count(before, a), b, Count(OccurrencesAfter(sha, entity, inputs[..j]), b));
    }
  }

  /** Record keys never merge wrongly. For a composite-key entity and any
      sequence of records with non-empty bodies, two of them get the same key
      exactly when both have all key fields and those agree in canonical form;
      fallback keys differ from every other key, equal digests included. */
  lemma KeysMergeOnlyEqualFields(sha: string -> string, entity: string, inputs: seq<Input>, i: nat, j: nat)
    requires HexDigests(sha) && UsesCompositeKey(entity)
    requires i < j < |inputs| && inputs[i].body != "" && inputs[j].body != ""
    ensures KeyAt(sha, entity, inputs, i) == KeyAt(sha, entity, inputs, j) <==>
            inputs[i].record.Fields? && inputs[j].record.Fields? &&
            CanonicalFields(CompositeKeyFields(entity), inputs[i].record.record).Some? &&
            CanonicalFields(CompositeKeyFields(entity), inputs[i].record.record)
              == CanonicalFields(CompositeKeyFields(entity), inputs[j].record.record)
  {
    var fields := CompositeKeyFields(entity);
    var x, y := KeyAt(sha, entity, inputs, i), KeyAt(sha, entity, inputs, j);
    assert COMPOSITE_KEY_PREFIX[0] != AUTO_KEY_PREFIX[0];
    if IsFallback(entity, inputs[i]) && IsFallback(entity, inputs[j]) {
      FallbackKeysDistinct(sha, entity, inputs, i, j);
    } else if IsFallback(entity, inputs[i]) {
      assert x[0] == AUTO_KEY_PREFIX[0] && y[0] == COMPOSITE_KEY_PREFIX[0];
    } else if IsFallback(entity, inputs[j]) {
      assert x[0] == COMPOSITE_KEY_PREFIX[0] && y[0] == AUTO_KEY_PREFIX[0];
    } else {
      CompositeKeyInjective(entity, fields, CanonicalFields(fields, inputs[i].record.record).value,
                            CanonicalFields(fields, inputs[j].record.record).value);
    }
  }

  /** The guard against empty bodies is needed: an empty body has no auto key,
      but its second occurrence would be handed the key ":1". */
  lemma EmptyBodyFallback(sha: string -> string)
    ensures var entity := "resourceboxes";
            var inputs := [Input(Nil, ""), Input(Nil, "")];
            KeyAt(sha, entity, inputs, 0) == "" && KeyAt(sha, entity, inputs, 1) == ":1"
  {
    var inputs := [Input(Nil, ""), Input(Nil, "")];
    assert NormalizeEntity("resourceboxes") == "resourceboxes";
    assert inputs[..0] == [] && inputs[..1] == [Input(Nil, "")];
    assert inputs[..1][..0] == [];
    assert Itoa(1) == "1";
  }
}
