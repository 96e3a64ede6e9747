/** Decoded JSON, and the canonical text of a value used inside storage keys
    (internal/domain/masterdata/index.go, CanonicalKeyPart). */
module Json {
  import opened Text

  /** A float64, carried by the shortest decimal that denotes it:
      mantissa / 10^scale without trailing fraction zeros. */
  datatype Decimal = Decimal(mantissa: int, scale: nat)
  type Float64 = d: Decimal | d.scale == 0 || d.mantissa % 10 != 0 witness Decimal(0, 0)

  datatype Value =
    | Null
    | Bool(b: bool)
    | Number(number: Float64)
    | String(text: string)
    | Array(items: seq<Value>)
    | Object(fields: Record)

  type Record = map<string, Value>

  function Quotient(m: nat, p: nat): nat
    requires p > 0
  {
    m / p
  }

  function Remainder(m: nat, p: nat): nat
    requires p > 0
  {
    m % p
  }

  /** A fraction's digits, zero-padded on the left to its scale. */
  function PadLeft(digits: string, width: nat): string {
    if |digits| < width then Zeros(width - |digits|) + digits else digits
  }

  /** strconv.FormatFloat(number, 'f', -1, 64). */
  function NumberText(number: Float64): (s: string)
    ensures s != ""
  {
    var magnitude: nat := if number.mantissa < 0 then -number.mantissa else number.mantissa;
    var p := PowerOfTen(number.scale);
    var digits := if number.scale == 0 then Itoa(magnitude)
                  else Itoa(Quotient(magnitude, p)) + "." + PadLeft(Itoa(Remainder(magnitude, p)), number.scale);
    if number.mantissa < 0 then "-" + digits else digits
  }

  /** Trimmed strings, decimal numbers and booleans; other values cannot be
      key parts. */
  function CanonicalKeyPart(value: Value): (part: Option<string>)
    ensures part.Some? ==> part.value != ""
  {
    match value
    case String(text) =>
      if TrimSpace(text) == "" then None else Some(TrimSpace(text))
    case Number(number) => Some(NumberText(number))
    case Bool(b) => Some(if b then "true" else "false")
    case _ => None
  }

  /** What a record's body decodes to: json.Unmarshal into a map gives a record,
      nil for `null`, or an error for anything else. */
  datatype Decoded = Fields(record: Record) | Nil | Undecodable
}
