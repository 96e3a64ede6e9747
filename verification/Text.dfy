/** Strings as the Go code uses them: byte strings, one char per byte.
    Byte-wise order (Go's `<` and PostgreSQL's COLLATE "C"), decimal rendering,
    splitting and joining, and self-delimiting length-prefixed parts. */
module Text {

  datatype Option<+T> = None | Some(value: T)
  datatype Result<+T> = Ok(value: T) | Err

  const NUL: char := 0 as char

  /** No element occurs twice. */
  predicate Unrepeated<T(==)>(s: seq<T>) {
    forall i, j :: 0 <= i < j < |s| ==> s[i] != s[j]
  }

  lemma TakeThenDrop<T>(s: seq<T>, n: nat)
    requires n < |s|
    ensures s[..n + 1][1..] == s[1..][..n]
  {
  }

  // ---------------------------------------------------------------- order

  predicate Less(a: string, b: string) {
    b != "" && (a == "" || a[0] < b[0] || (a[0] == b[0] && Less(a[1..], b[1..])))
  }

  predicate AtMost(a: string, b: string) {
    a == b || Less(a, b)
  }

  lemma {:induction false} LessIrreflexive(a: string)
    ensures !Less(a, a)
  {
    if a != "" {
      LessIrreflexive(a[1..]);
    }
  }

  lemma {:induction false} LessTransitive(a: string, b: string, c: string)
    requires Less(a, b) && Less(b, c)
    ensures Less(a, c)
  {
    if a != "" && a[0] == b[0] && b[0] == c[0] {
      LessTransitive(a[1..], b[1..], c[1..]);
    }
  }

  lemma {:induction false} LessTotal(a: string, b: string)
    ensures Less(a, b) || a == b || Less(b, a)
  {
    if a != "" && b != "" && a[0] == b[0] {
      LessTotal(a[1..], b[1..]);
      assert a == [a[0]] + a[1..] && b == [b[0]] + b[1..];
    }
  }

  lemma LessAsymmetric(a: string, b: string)
    requires Less(a, b)
    ensures !Less(b, a) && a != b
  {
    LessIrreflexive(a);
    if Less(b, a) {
      LessTransitive(a, b, a);
    }
  }

  // ---------------------------------------------------------------- decimals

  predicate IsDigit(c: char) {
    '0' <= c <= '9'
  }

  predicate AllDigits(s: string) {
    forall i :: 0 <= i < |s| ==> IsDigit(s[i])
  }

  function Digit(d: nat): (c: char)
    requires d < 10
    ensures IsDigit(c) && c as int - '0' as int == d
  {
    ('0' as int + d) as char
  }

  /** A hex digit, with the given letter for ten. */
  function HexDigit(d: nat, ten: char): (c: char)
    requires d < 16 && (ten == 'a' || ten == 'A')
  {
    if d < 10 then ('0' as int + d) as char else (ten as int + d - 10) as char
  }

  function Itoa(n: nat): (s: string)
    ensures s != "" && AllDigits(s)
  {
    if n < 10 then [Digit(n)] else Itoa(n / 10) + [Digit(n % 10)]
  }

  /** The number a digit string denotes. */
  function Value(s: string): nat
    requires AllDigits(s)
  {
    if s == "" then 0
    else 10 * Value(s[..|s| - 1]) + (s[|s| - 1] as int - '0' as int)
  }

  lemma {:induction false} ItoaValue(n: nat)
    ensures Value(Itoa(n)) == n
  {
    if n < 10 {
      assert [Digit(n)][..0] == "";
    } else {
      ItoaValue(n / 10);
      assert Itoa(n)[..|Itoa(n)| - 1] == Itoa(n / 10);
    }
  }

  lemma ItoaInjective(m: nat, n: nat)
    requires Itoa(m) == Itoa(n)
    ensures m == n
  {
    ItoaValue(m);
    ItoaValue(n);
  }

  /** strings.Repeat("0", n). */
  function Zeros(n: nat): (s: string)
    ensures |s| == n && forall i :: 0 <= i < n ==> s[i] == '0'
  {
    seq(n, _ => '0')
  }

  function PowerOfTen(n: nat): (p: nat)
    ensures p > 0
  {
    if n == 0 then 1 else 10 * PowerOfTen(n - 1)
  }

  // ---------------------------------------------------------------- parts

  /** One length-prefixed part, `<len>:<part>`. */
  function Part(p: string): string {
    Itoa(|p|) + ":" + p
  }

  /** A length-prefixed part is self-delimiting: it can be read off the front of
      any string in only one way. */
  lemma PartUnique(a: string, s: string, b: string, t: string)
    requires Part(a) + s == Part(b) + t
    ensures a == b && s == t
  {
    var m, n := Itoa(|a|), Itoa(|b|);
    var u, v := Part(a) + s, Part(b) + t;
    assert forall i :: 0 <= i < |m| ==> u[i] == m[i];
    assert forall i :: 0 <= i < |n| ==> v[i] == n[i];
    assert u[|m|] == ':' && v[|n|] == ':';
    assert !IsDigit(':');
    assert |m| == |n|;
    assert m == u[..|m|] == v[..|n|] == n;
    ItoaInjective(|a|, |b|);
    assert a == u[|m| + 1..|m| + 1 + |a|];
    assert b == v[|n| + 1..|n| + 1 + |b|];
    assert s == u[|m| + 1 + |a|..];
    assert t == v[|n| + 1 + |b|..];
  }

  function Parts(ps: seq<string>): string {
    if ps == [] then "" else Part(ps[0]) + Parts(ps[1..])
  }

  lemma {:induction false} PartsInjective(ps: seq<string>, qs: seq<string>)
    requires Parts(ps) == Parts(qs)
    ensures ps == qs
  {
    if ps != [] && qs != [] {
      PartUnique(ps[0], Parts(ps[1..]), qs[0], Parts(qs[1..]));
      PartsInjective(ps[1..], qs[1..]);
      assert ps == [ps[0]] + ps[1..] && qs == [qs[0]] + qs[1..];
    }
  }

  lemma {:induction false} PartsSnoc(ps: seq<string>, p: string)
    ensures Parts(ps + [p]) == Parts(ps) + Part(p)
  {
    if ps == [] {
      assert [p][1..] == [] && Part(p) + "" == Part(p);
    } else {
      PartsSnoc(ps[1..], p);
      assert (ps + [p])[1..] == ps[1..] + [p];
    }
  }

  // ---------------------------------------------------------------- scanning

  /** strings.IndexByte. */
  function IndexByte(s: string, c: char): (i: int)
    ensures -1 <= i < |s|
    ensures i >= 0 ==> s[i] == c && c !in s[..i]
    ensures i < 0 ==> c !in s
  {
    if s == "" then -1
    else if s[0] == c then 0
    else
      var rest := IndexByte(s[1..], c);
      assert forall j :: 0 <= j < |s| ==> s[j] == if j == 0 then s[0] else s[1..][j - 1];
      if rest < 0 then -1 else
        assert s[..rest + 1] == [s[0]] + s[1..][..rest];
        rest + 1
  }

  lemma IndexByteFirst(a: string, c: char, b: string)
    requires c !in a
    ensures IndexByte(a + [c] + b, c) == |a|
  {
    var s := a + [c] + b;
    assert s[|a|] == c;
    assert forall j :: 0 <= j < |a| ==> s[j] == a[j];
  }

  /** strings.Split on a one-byte separator. */
  function Split(s: string, sep: char): (parts: seq<string>)
    ensures |parts| >= 1
    decreases |s|
  {
    var i := IndexByte(s, sep);
    if i < 0 then [s] else [s[..i]] + Split(s[i + 1..], sep)
  }

  /** strings.Join with a one-byte separator. */
  function Join(parts: seq<string>, sep: char): string {
    if parts == [] then ""
    else if |parts| == 1 then parts[0]
    else parts[0] + [sep] + Join(parts[1..], sep)
  }

  lemma {:induction false} SplitFirst(a: string, sep: char, b: string)
    requires sep !in a
    ensures Split(a + [sep] + b, sep) == [a] + Split(b, sep)
  {
    var s := a + [sep] + b;
    IndexByteFirst(a, sep, b);
    assert s[|a| + 1..] == b && s[..|a|] == a;
  }

  lemma {:induction false} SplitJoin(parts: seq<string>, sep: char)
    requires parts != []
    requires forall p :: p in parts ==> sep !in p
    ensures Split(Join(parts, sep), sep) == parts
  {
    if |parts| == 1 {
      assert sep !in Join(parts, sep);
      assert parts == [parts[0]];
    } else {
      SplitJoin(parts[1..], sep);
      SplitFirst(parts[0], sep, Join(parts[1..], sep));
      assert parts == [parts[0]] + parts[1..];
    }
  }

  /** Splitting loses nothing, and no piece holds the separator. */
  lemma {:induction false} JoinSplit(s: string, sep: char)
    ensures Join(Split(s, sep), sep) == s
    ensures forall p :: p in Split(s, sep) ==> sep !in p
    decreases |s|
  {
    var i := IndexByte(s, sep);
    if i >= 0 {
      JoinSplit(s[i + 1..], sep);
      assert s == s[..i] + [sep] + s[i + 1..];
      assert Split(s, sep)[1..] == Split(s[i + 1..], sep);
    }
  }

  predicate IsSpace(c: char) {
    c in " \t\n\r" || c as int == 11 || c as int == 12
  }

  /** strings.TrimSpace on ASCII white space. */
  function TrimSpace(s: string): (t: string)
    ensures t != "" ==> !IsSpace(t[0]) && !IsSpace(t[|t| - 1])
    decreases |s|
  {
    if s == "" then ""
    else if IsSpace(s[0]) then TrimSpace(s[1..])
    else if IsSpace(s[|s| - 1]) then TrimSpace(s[..|s| - 1])
    else s
  }

  predicate AllSpace(s: string) {
    forall i :: 0 <= i < |s| ==> IsSpace(s[i])
  }

  lemma AllSpaceCons(c: char, s: string)
    ensures AllSpace([c] + s) <==> IsSpace(c) && AllSpace(s)
  {
    var t := [c] + s;
    assert t[0] == c && forall i :: 0 <= i < |s| ==> t[i + 1] == s[i];
  }

  lemma AllSpaceSnoc(s: string, c: char)
    ensures AllSpace(s + [c]) <==> AllSpace(s) && IsSpace(c)
  {
    var t := s + [c];
    assert t[|s|] == c && forall i :: 0 <= i < |s| ==> t[i] == s[i];
  }

  lemma {:induction false} TrimmedIsBlank(s: string)
    ensures TrimSpace(s) == "" <==> AllSpace(s)
    decreases |s|
  {
    if s != "" && IsSpace(s[0]) {
      TrimmedIsBlank(s[1..]);
      AllSpaceCons(s[0], s[1..]);
      assert s == [s[0]] + s[1..];
    } else if s != "" && IsSpace(s[|s| - 1]) {
      TrimmedIsBlank(s[..|s| - 1]);
      AllSpaceSnoc(s[..|s| - 1], s[|s| - 1]);
      assert s == s[..|s| - 1] + [s[|s| - 1]];
    }
  }

  lemma Surrounded(c: char, left: string, middle: string, right: string, d: char)
    ensures [c] + (left + middle + right) == ([c] + left) + middle + right
    ensures (left + middle + right) + [d] == left + middle + (right + [d])
  {
  }

  /** Trimming takes white space off both ends, all of it and nothing else. */
  lemma {:induction false} TrimSpaceExact(s: string) returns (left: string, right: string)
    ensures s == left + TrimSpace(s) + right && AllSpace(left) && AllSpace(right)
    ensures TrimSpace(s) == "" <==> AllSpace(s)
    decreases |s|
  {
    TrimmedIsBlank(s);
    left, right := "", "";
    if s == "" {
    } else if IsSpace(s[0]) {
      var l, r := TrimSpaceExact(s[1..]);
      AllSpaceCons(s[0], l);
      Surrounded(s[0], l, TrimSpace(s), r, s[0]);
      left, right := [s[0]] + l, r;
      assert s == [s[0]] + s[1..];
    } else if IsSpace(s[|s| - 1]) {
      var n := |s| - 1;
      var l, r := TrimSpaceExact(s[..n]);
      AllSpaceSnoc(r, s[n]);
      Surrounded(s[n], l, TrimSpace(s), r, s[n]);
      left, right := l, r + [s[n]];
      assert s == s[..n] + [s[n]];
    }
  }
}
