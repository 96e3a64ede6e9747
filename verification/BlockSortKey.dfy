/** internal/domain/masterdata/record_key.go: the key record blocks are sorted
    and located by. */
module BlockSortKeys {
  import opened Text

  /** maxDecimalSortKeyDigits: holds every uint64. */
  const MAX_DECIMAL_DIGITS := 20

  /** Digits only, and no leading zero unless the key is "0". */
  predicate CanonicalDecimal(key: string) {
    key != "" && AllDigits(key) && (|key| > 1 ==> key[0] != '0')
  }

  method IsCanonicalDecimal(value: string) returns (canonical: bool)
    ensures canonical == CanonicalDecimal(value)
  {
    if value == "" || (|value| > 1 && value[0] == '0') {
      return false;
    }
    for index := 0 to |value|
      invariant forall i :: 0 <= i < index ==> IsDigit(value[i])
    {
      if value[index] < '0' || value[index] > '9' {
        return false;
      }
    }
    return true;
  }

  /** Keys the store pads: canonical decimals of up to 20 digits. */
  predicate Padded(key: string) {
    CanonicalDecimal(key) && |key| <= MAX_DECIMAL_DIGITS
  }

  function BlockSortKey(key: string): string {
    if Padded(key) then "0" + Zeros(MAX_DECIMAL_DIGITS - |key|) + key
    else "1" + key
  }

  // ---------------------------------------------------------------- numeric order

  lemma {:induction false} LeadingZeros(n: nat, s: string)
    requires AllDigits(s)
    ensures AllDigits(Zeros(n) + s) && Value(Zeros(n) + s) == Value(s)
    decreases n + |s|
  {
    var z := Zeros(n) + s;
    if s != "" {
      LeadingZeros(n, s[..|s| - 1]);
      assert z[..|z| - 1] == Zeros(n) + s[..|s| - 1];
    } else if n > 0 {
      LeadingZeros(n - 1, "");
      assert z[..|z| - 1] == Zeros(n - 1) + "";
    }
  }

  lemma TenTimes(d: int, p: int)
    ensures d * (10 * p) == 10 * (d * p)
  {
  }

  /** The first digit weighs 10^(length-1), and the rest stay below that. */
  lemma {:induction false} ValueFirst(s: string)
    requires AllDigits(s) && s != ""
    ensures Value(s) == (s[0] as int - '0' as int) * PowerOfTen(|s| - 1) + Value(s[1..])
    ensures Value(s[1..]) < PowerOfTen(|s| - 1)
    decreases |s|
  {
    if |s| == 1 {
      assert s[..0] == "" && s[1..] == "";
    } else {
      var front := s[..|s| - 1];
      ValueFirst(front);
      assert front[1..] == s[1..][..|s| - 2];
      var d, p := s[0] as int - '0' as int, PowerOfTen(|s| - 2);
      TenTimes(d, p);
    }
  }

  lemma LeadingDigitDecides(x: nat, y: nat, p: nat, u: nat, v: nat)
    requires x < y && u < p
    ensures x * p + u < y * p + v
  {
    assert (x + 1) * p <= y * p;
  }

  /** Digit strings of equal length compare byte-wise exactly as numbers. */
  lemma {:induction false} SameLengthOrder(a: string, b: string)
    requires AllDigits(a) && AllDigits(b) && |a| == |b|
    ensures Less(a, b) <==> Value(a) < Value(b)
  {
    if a != "" {
      ValueFirst(a);
      ValueFirst(b);
      var x, y, p := a[0] as int - '0' as int, b[0] as int - '0' as int, PowerOfTen(|a| - 1);
      if x < y {
        LeadingDigitDecides(x, y, p, Value(a[1..]), Value(b[1..]));
      } else if y < x {
        LeadingDigitDecides(y, x, p, Value(b[1..]), Value(a[1..]));
      } else {
        SameLengthOrder(a[1..], b[1..]);
      }
    }
  }

  lemma SortKeyDigits(key: string)
    requires Padded(key)
    ensures AllDigits(BlockSortKey(key)) && |BlockSortKey(key)| == MAX_DECIMAL_DIGITS + 1
    ensures Value(BlockSortKey(key)) == Value(key)
  {
    var n := MAX_DECIMAL_DIGITS - |key|;
    assert BlockSortKey(key) == Zeros(n + 1) + key;
    LeadingZeros(n + 1, key);
  }

  /** Numeric keys sort numerically. */
  lemma DecimalOrder(a: string, b: string)
    requires Padded(a) && Padded(b)
    ensures Less(BlockSortKey(a), BlockSortKey(b)) <==> Value(a) < Value(b)
  {
    SortKeyDigits(a);
    SortKeyDigits(b);
    SameLengthOrder(BlockSortKey(a), BlockSortKey(b));
  }

  /** Numeric keys sort before all other keys. */
  lemma DecimalsFirst(a: string, b: string)
    requires Padded(a) && !Padded(b)
    ensures Less(BlockSortKey(a), BlockSortKey(b))
  {
  }

  // ---------------------------------------------------------------- injectivity

  /** The padding of a sort key gives away the length of its key. */
  lemma PaddingLength(a: string, b: string)
    requires Padded(a) && Padded(b) && BlockSortKey(a) == BlockSortKey(b)
    ensures |b| <= |a|
  {
    var k := 1 + MAX_DECIMAL_DIGITS - |b|;
    assert BlockSortKey(b)[k] == b[0];
    assert forall i :: 1 <= i <= MAX_DECIMAL_DIGITS - |a| ==> BlockSortKey(a)[i] == '0';
  }

  /** Distinct record keys have distinct sort keys, over all strings. */
  lemma BlockSortKeyInjective(a: string, b: string)
    requires BlockSortKey(a) == BlockSortKey(b)
    ensures a == b
  {
    var x, y := BlockSortKey(a), BlockSortKey(b);
    assert x[0] == y[0];
    if Padded(a) {
      PaddingLength(a, b);
      PaddingLength(b, a);
      assert a == x[1 + MAX_DECIMAL_DIGITS - |a|..];
      assert b == y[1 + MAX_DECIMAL_DIGITS - |b|..];
    } else {
      assert a == x[1..] && b == y[1..];
    }
  }
}
