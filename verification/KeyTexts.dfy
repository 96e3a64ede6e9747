/** How keys are written: the canonical text of numbers, strings and booleans
    (internal/domain/masterdata/index.go, CanonicalKeyPart), and the record keys
    it leads to (internal/domain/masterdata/record_key.go). */
module KeyTexts {
  import opened Text
  import opened Json
  import opened BlockSortKeys
  import opened RecordKeys

  // ---------------------------------------------------------------- digits

  /** Itoa writes the canonical decimal of its number. */
  lemma {:induction false} ItoaCanonical(n: nat)
    ensures CanonicalDecimal(Itoa(n)) && Text.Value(Itoa(n)) == n
    ensures n > 0 ==> Itoa(n)[0] != '0'
  {
    ItoaValue(n);
    if n >= 10 {
      ItoaCanonical(n / 10);
      assert Itoa(n)[0] == Itoa(n / 10)[0];
    }
  }

  lemma {:induction false} ItoaLength(n: nat, k: nat)
    requires k > 0 && n < PowerOfTen(k)
    ensures |Itoa(n)| <= k
  {
    assert PowerOfTen(0) == 1 && PowerOfTen(k) == 10 * PowerOfTen(k - 1);
    if n >= 10 {
      ItoaLength(n / 10, k - 1);
    }
  }

  lemma {:induction false} ValueConcat(a: string, b: string)
    requires AllDigits(a) && AllDigits(b)
    ensures AllDigits(a + b) && Text.Value(a + b) == Text.Value(a) * PowerOfTen(|b|) + Text.Value(b)
    decreases |b|
  {
    if b == "" {
      assert a + b == a;
    } else {
      var front, d := b[..|b| - 1], b[|b| - 1] as int - '0' as int;
      ValueConcat(a, front);
      assert (a + b)[..|a + b| - 1] == a + front;
      assert Text.Value(a + b) == 10 * Text.Value(a + front) + d;
      TenTimes(Text.Value(a), PowerOfTen(|front|));
    }
  }

  // ---------------------------------------------------------------- numbers

  /** Digits that write magnitude / 10^scale: a canonical decimal, or one before
      a '.' and exactly scale digits after it. */
  predicate Writes(text: string, magnitude: nat, scale: nat) {
    if scale == 0 then CanonicalDecimal(text) && Text.Value(text) == magnitude
    else
      var dot := |text| - scale - 1;
      && dot > 0 && text[dot] == '.'
      && CanonicalDecimal(text[..dot]) && AllDigits(text[dot + 1..])
      && AllDigits(text[..dot] + text[dot + 1..]) && Text.Value(text[..dot] + text[dot + 1..]) == magnitude
  }

  lemma PaddedFraction(r: nat, scale: nat)
    requires scale > 0 && r < PowerOfTen(scale)
    ensures var digits := PadLeft(Itoa(r), scale); |digits| == scale && AllDigits(digits) && Text.Value(digits) == r
  {
    ItoaLength(r, scale);
    ItoaValue(r);
    if |Itoa(r)| < scale {
      PaddedDigits(Itoa(r), scale);
    }
  }

  lemma PaddedDigits(digits: string, width: nat)
    requires AllDigits(digits) && |digits| < width
    ensures var padded := PadLeft(digits, width);
            |padded| == width && AllDigits(padded) && Text.Value(padded) == Text.Value(digits)
  {
    LeadingZeros(width - |digits|, digits);
  }

  lemma FractionWrites(whole: string, fraction: string, magnitude: nat, scale: nat)
    requires CanonicalDecimal(whole) && AllDigits(fraction) && |fraction| == scale > 0
    requires magnitude == Text.Value(whole) * PowerOfTen(scale) + Text.Value(fraction)
    ensures Writes(whole + "." + fraction, magnitude, scale)
  {
    ValueConcat(whole, fraction);
    var text := whole + "." + fraction;
    assert text[..|whole|] == whole && text[|whole|] == '.' && text[|whole| + 1..] == fraction;
  }

  lemma QuotientAndRemainder(magnitude: nat, p: nat)
    requires p > 0
    ensures magnitude == Quotient(magnitude, p) * p + Remainder(magnitude, p) && Remainder(magnitude, p) < p
  {
  }

  /** The digits of a number, without its sign. */
  function DigitsOf(magnitude: nat, scale: nat): string {
    if scale == 0 then Itoa(magnitude)
    else Itoa(Quotient(magnitude, PowerOfTen(scale))) + "." + PadLeft(Itoa(Remainder(magnitude, PowerOfTen(scale))), scale)
  }

  lemma DigitsWrite(magnitude: nat, scale: nat)
    ensures Writes(DigitsOf(magnitude, scale), magnitude, scale)
  {
    if scale == 0 {
      ItoaCanonical(magnitude);
    } else {
      var p := PowerOfTen(scale);
      QuotientAndRemainder(magnitude, p);
      var q, r := Quotient(magnitude, p), Remainder(magnitude, p);
      ItoaCanonical(q);
      PaddedFraction(r, scale);
      FractionWrites(Itoa(q), PadLeft(Itoa(r), scale), magnitude, scale);
    }
  }

  /** The canonical text of a number is its decimal: a '-' if it is negative, the
      canonical decimal of its whole part, and for a fraction exactly its digits. */
  lemma NumberTextExact(number: Float64)
    ensures var text := NumberText(number);
            if number.mantissa < 0 then text[0] == '-' && Writes(text[1..], -number.mantissa, number.scale)
            else Writes(text, number.mantissa, number.scale)
  {
    var magnitude: nat := if number.mantissa < 0 then -number.mantissa else number.mantissa;
    DigitsWrite(magnitude, number.scale);
    var text, digits := NumberText(number), DigitsOf(magnitude, number.scale);
    if number.mantissa < 0 {
      assert text == "-" + digits && text[1..] == digits;
    } else {
      assert text == digits;
    }
  }

  /** A whole number, positive or negative. */
  lemma WholeNumberText(n: nat)
    ensures CanonicalDecimal(NumberText(Decimal(n, 0))) && Text.Value(NumberText(Decimal(n, 0))) == n
    ensures n > 0 ==> NumberText(Decimal(0 - n, 0)) == "-" + NumberText(Decimal(n, 0))
  {
    NumberTextExact(Decimal(n, 0));
  }

  /** Where the point of a written number stands, if it has one. */
  lemma PointOf(text: string, magnitude: nat, scale: nat)
    requires Writes(text, magnitude, scale)
    ensures text != "" && IsDigit(text[0])
    ensures forall i :: 0 <= i < |text| ==> (text[i] == '.' <==> scale > 0 && i == |text| - scale - 1)
  {
    if scale > 0 {
      var dot := |text| - scale - 1;
      assert text[0] == text[..dot][0];
      forall i | 0 <= i < |text| && i != dot ensures IsDigit(text[i]) {
        assert text[i] == if i < dot then text[..dot][i] else text[dot + 1..][i - dot - 1];
      }
    }
  }

  lemma WritesUnique(text: string, m: nat, s: nat, m': nat, s': nat)
    requires Writes(text, m, s) && Writes(text, m', s')
    ensures m == m' && s == s'
  {
    PointOf(text, m, s);
    PointOf(text, m', s');
    if s > 0 {
      assert text[|text| - s - 1] == '.';
    }
    if s' > 0 {
      assert text[|text| - s' - 1] == '.';
    }
  }

  /** Different numbers have different texts. */
  lemma NumberTextInjective(a: Float64, b: Float64)
    requires NumberText(a) == NumberText(b)
    ensures a == b
  {
    var text := NumberText(a);
    var m: nat := if a.mantissa < 0 then -a.mantissa else a.mantissa;
    var n: nat := if b.mantissa < 0 then -b.mantissa else b.mantissa;
    NumberTextExact(a);
    NumberTextExact(b);
    PointOf(if a.mantissa < 0 then text[1..] else text, m, a.scale);
    PointOf(if b.mantissa < 0 then text[1..] else text, n, b.scale);
    WritesUnique(if a.mantissa < 0 then text[1..] else text, m, a.scale, n, b.scale);
  }

  // ---------------------------------------------------------------- other key parts

  /** Booleans, strings with their white space trimmed off, and nothing else. */
  lemma OtherKeyParts(text: string) returns (left: string, right: string)
    ensures CanonicalKeyPart(Bool(true)) == Some("true") && CanonicalKeyPart(Bool(false)) == Some("false")
    ensures CanonicalKeyPart(Null).None?
    ensures forall items :: CanonicalKeyPart(Array(items)).None?
    ensures forall fields :: CanonicalKeyPart(Object(fields)).None?
    ensures CanonicalKeyPart(String(text)).None? <==> AllSpace(text)
    ensures CanonicalKeyPart(String(text)).Some? ==>
              var part := CanonicalKeyPart(String(text)).value;
              && text == left + part + right && AllSpace(left) && AllSpace(right)
              && part != "" && !IsSpace(part[0]) && !IsSpace(part[|part| - 1])
  {
    left, right := TrimSpaceExact(text);
  }

  // ---------------------------------------------------------------- record keys

  /** A record of an entity keyed by id that has a numeric id. */
  predicate NumericId(input: Input) {
    input.record.Fields? && "id" in input.record.record && input.record.record["id"].Number?
  }

  function IdOf(input: Input): Float64
    requires NumericId(input)
  {
    input.record.record["id"].number
  }

  /** A whole id is its record's key, in decimal. */
  lemma WholeIdIsKey(sha: string -> string, entity: string, occurrences: Occurrences, input: Input)
    requires !UsesCompositeKey(entity) && NumericId(input) && IdOf(input).scale == 0 && IdOf(input).mantissa >= 0
    ensures var key := KeyStep(sha, entity, occurrences, input).0;
            CanonicalDecimal(key) && Text.Value(key) == IdOf(input).mantissa
  {
    WholeNumberText(IdOf(input).mantissa);
  }

  /** For an entity keyed by id, records with numeric ids share a key exactly when
      they share the id, wherever they stand in the source. */
  lemma NumericIdsKeyApart(sha: string -> string, entity: string, inputs: seq<Input>, i: nat, j: nat)
    requires !UsesCompositeKey(entity) && i < |inputs| && j < |inputs| && NumericId(inputs[i]) && NumericId(inputs[j])
    ensures KeyAt(sha, entity, inputs, i) == KeyAt(sha, entity, inputs, j) <==> IdOf(inputs[i]) == IdOf(inputs[j])
  {
    if KeyAt(sha, entity, inputs, i) == KeyAt(sha, entity, inputs, j) {
      NumberTextInjective(IdOf(inputs[i]), IdOf(inputs[j]));
    }
  }

  /** No usable id: null, blank, or none at all. */
  predicate NoId(input: Input) {
    !input.record.Fields? || "id" !in input.record.record || input.record.record["id"] == Null ||
    (input.record.record["id"].String? && AllSpace(input.record.record["id"].text))
  }

  lemma NoIdHasNoText(input: Input)
    requires NoId(input)
    ensures RecordID(input.record) == ""
  {
    var record := input.record;
    if record.Fields? && "id" in record.record && record.record["id"].String? {
      var left, right := TrimSpaceExact(record.record["id"].text);
    }
  }

  lemma NumbersStartPlainly(number: Float64)
    ensures NumberText(number)[0] == '-' || IsDigit(NumberText(number)[0])
  {
    NumberTextExact(number);
    if number.mantissa >= 0 {
      PointOf(NumberText(number), number.mantissa, number.scale);
    }
  }

  /** Without an id the key is made of the body's digest, and is never a number's. */
  lemma NoIdIsAutoKey(sha: string -> string, entity: string, inputs: seq<Input>, i: nat, j: nat)
    requires !UsesCompositeKey(entity) && i < |inputs| && j < |inputs| && NoId(inputs[i]) && NumericId(inputs[j])
    ensures KeyAt(sha, entity, inputs, i) == if inputs[i].body == "" then "" else "auto:" + sha(inputs[i].body)
    ensures KeyAt(sha, entity, inputs, i) != KeyAt(sha, entity, inputs, j)
  {
    NoIdHasNoText(inputs[i]);
    var auto, id := KeyAt(sha, entity, inputs, i), NumberText(IdOf(inputs[j]));
    assert auto == AutoRecordKey(sha, inputs[i].body);
    assert KeyAt(sha, entity, inputs, j) == id;
    NumbersStartPlainly(IdOf(inputs[j]));
    if auto != "" {
      assert auto[0] == 'a';
    }
  }

  /** A usable string or boolean id is its record's key. */
  lemma TextIdIsKey(sha: string -> string, entity: string, occurrences: Occurrences, input: Input)
    requires !UsesCompositeKey(entity) && input.record.Fields? && "id" in input.record.record
    requires input.record.record["id"].String? || input.record.record["id"].Bool?
    requires !NoId(input)
    ensures Some(KeyStep(sha, entity, occurrences, input).0) == CanonicalKeyPart(input.record.record["id"])
  {
    if input.record.record["id"].String? {
      var left, right := TrimSpaceExact(input.record.record["id"].text);
    }
  }

  /** The ids the store meets, up to the largest uint64, are kept in blocks in
      numeric order; a longer key is kept as it is, after them. */
  lemma NumericKeysInOrder(m: nat, n: nat, other: string)
    requires m < 0x1_0000_0000_0000_0000 && n < 0x1_0000_0000_0000_0000
    ensures Less(BlockSortKey(Itoa(m)), BlockSortKey(Itoa(n))) <==> m < n
    ensures |other| > 20 ==> BlockSortKey(other) == "1" + other && Less(BlockSortKey(Itoa(m)), BlockSortKey(other))
  {
    TwentyDigits();
    ItoaCanonical(m);
    ItoaCanonical(n);
    ItoaLength(m, 20);
    ItoaLength(n, 20);
    DecimalOrder(Itoa(m), Itoa(n));
    if |other| > 20 {
      DecimalsFirst(Itoa(m), other);
    }
  }

  lemma TwentyDigits()
    ensures 0x1_0000_0000_0000_0000 <= PowerOfTen(20)
  {
    PowerSum(5, 5);
    PowerSum(10, 10);
    assert PowerOfTen(5) == 100_000;
  }

  lemma {:induction false} PowerSum(a: nat, b: nat)
    ensures PowerOfTen(a + b) == PowerOfTen(a) * PowerOfTen(b)
  {
    if a > 0 {
      PowerSum(a - 1, b);
      TenTimes(PowerOfTen(b), PowerOfTen(a - 1));
    }
  }

  // ---------------------------------------------------------------- composite keys

  /** The canonical values of key fields: there are some exactly when every field
      is there with a usable value, and then they are those, field by field. */
  lemma {:induction false} CanonicalFieldsExact(fields: seq<string>, record: Record)
    ensures CanonicalFields(fields, record).Some? <==>
            forall i :: 0 <= i < |fields| ==> fields[i] in record && CanonicalKeyPart(record[fields[i]]).Some?
    ensures CanonicalFields(fields, record).Some? ==>
              forall i :: 0 <= i < |fields| ==>
                fields[i] in record && Some(CanonicalFields(fields, record).value[i]) == CanonicalKeyPart(record[fields[i]])
  {
    if fields != [] {
      CanonicalFieldsExact(fields[1..], record);
      assert forall i :: 1 <= i < |fields| ==> fields[i] == fields[1..][i - 1];
    }
  }

  lemma TrimmedEntity(name: string)
    requires name != "" && !IsSpace(name[0]) && !IsSpace(name[|name| - 1])
    ensures NormalizeEntity(name) == ToLower(name)
  {
  }

  lemma LowerCase(name: string)
    requires forall i :: 0 <= i < |name| ==> !('A' <= name[i] <= 'Z')
    ensures ToLower(name) == name
  {
  }

  /** The composite-key entities and their fields. */
  lemma CompositeEntities()
    ensures CompositeKeyFields("resourceboxes") == ["id", "resourceBoxPurpose"]
    ensures CompositeKeyFields("resourceboxdetails") == ["resourceBoxId", "resourceBoxPurpose", "seq"]
    ensures CompositeKeyFields("charactermissionv2parametergroups") == ["id", "seq"]
  {
    TrimmedEntity("resourceboxes");
    LowerCase("resourceboxes");
    TrimmedEntity("resourceboxdetails");
    LowerCase("resourceboxdetails");
    TrimmedEntity("charactermissionv2parametergroups");
    LowerCase("charactermissionv2parametergroups");
    assert |"resourceboxes"| == 13 && |"resourceboxdetails"| == 18 && |"charactermissionv2parametergroups"| == 33;
  }

  /** In any letter case. */
  lemma CaseDoesNotMatter(a: string, b: string)
    requires a != "" && !IsSpace(a[0]) && !IsSpace(a[|a| - 1]) && |a| == |b|
    requires forall i :: 0 <= i < |a| ==>
               b[i] == a[i] || ('a' <= a[i] <= 'z' && b[i] == (a[i] as int - 32) as char)
    ensures CompositeKeyFields(a) == CompositeKeyFields(b)
  {
    TrimmedEntity(a);
    TrimmedEntity(b);
    assert ToLower(a) == ToLower(b);
  }

  lemma TwoFields(f: string, g: string, u: string, v: string)
    ensures Interleave([f, g], [u, v]) == [f, u, g, v]
  {
    assert [f, g][1..] == [g] && [u, v][1..] == [v] && [g][1..] == [] && [v][1..] == [];
    assert Interleave([g], [v]) == [g, v];
  }

  lemma TwoFieldKey(sha: string -> string, entity: string, occurrences: Occurrences, input: Input, f: string, g: string)
    requires CompositeKeyFields(entity) == [f, g] && NormalizeEntity(entity) == entity && input.record.Fields?
    requires f in input.record.record && CanonicalKeyPart(input.record.record[f]).Some?
    requires g in input.record.record && CanonicalKeyPart(input.record.record[g]).Some?
    ensures KeyStep(sha, entity, occurrences, input).0
         == "composite:v1:" + Parts([entity, f, CanonicalKeyPart(input.record.record[f]).value,
                                     g, CanonicalKeyPart(input.record.record[g]).value])
  {
    var record := input.record.record;
    CanonicalFieldsExact([f, g], record);
    var u, v := CanonicalKeyPart(record[f]).value, CanonicalKeyPart(record[g]).value;
    var values := CanonicalFields([f, g], record).value;
    assert values == [u, v] by {
      assert [f, g][0] == f && [f, g][1] == g;
    }
    TwoFields(f, g, u, v);
    assert CompositeParts(entity, [f, g], values) == [entity, f, u, g, v];
  }

  /** A resource box is keyed by its id and purpose together. */
  lemma ResourceBoxKey(sha: string -> string, occurrences: Occurrences, input: Input)
    requires NumericId(input) && "resourceBoxPurpose" in input.record.record
    requires CanonicalKeyPart(input.record.record["resourceBoxPurpose"]).Some?
    ensures KeyStep(sha, "resourceboxes", occurrences, input).0
         == "composite:v1:" + Parts(["resourceboxes", "id", NumberText(IdOf(input)), "resourceBoxPurpose",
                                     CanonicalKeyPart(input.record.record["resourceBoxPurpose"]).value])
  {
    CompositeEntities();
    TrimmedEntity("resourceboxes");
    LowerCase("resourceboxes");
    TwoFieldKey(sha, "resourceboxes", occurrences, input, "id", "resourceBoxPurpose");
  }
}
