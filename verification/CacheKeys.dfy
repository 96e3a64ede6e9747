/** Response cache keys (internal/transport/http/responsecache/middleware.go, key
    and normalizedQuery): everything a cached response depends on, hashed from
    text that determines it. */
module CacheKeys {
  import opened Text

  /** Strings of bytes. */
  type Bytes = s: string | forall i :: 0 <= i < |s| ==> s[i] as int < 256

  /** Names without a NUL byte: builds, regions, revisions and routes. */
  type Name = s: string | NUL !in s

  /** url.Values as a parsed query gives them: no key without a value. */
  type Query = q: map<Bytes, seq<Bytes>> | forall key :: key in q ==> q[key] != []

  // ---------------------------------------------------------------- escaping

  predicate Unreserved(c: char) {
    'a' <= c <= 'z' || 'A' <= c <= 'Z' || '0' <= c <= '9' || c == '-' || c == '_' || c == '.' || c == '~'
  }

  /** One byte as url.QueryEscape writes it. */
  function EscapedByte(c: char): string
    requires c as int < 256
  {
    if Unreserved(c) then [c]
    else if c == ' ' then "+"
    else ['%', HexDigit(c as int / 16, 'A'), HexDigit(c as int % 16, 'A')]
  }

  /** Letters, digits and "-_.~" stand for themselves, a space is a '+', and every
      other byte is a '%' and its two upper-case hex digits. */
  lemma EscapedByteExact(c: char)
    requires c as int < 256
    ensures EscapedByte(c)
         == if 'a' <= c <= 'z' || 'A' <= c <= 'Z' || '0' <= c <= '9' || c in "-_.~" then [c]
            else if c == ' ' then "+"
            else ['%', HexDigit(c as int / 16, 'A'), HexDigit(c as int % 16, 'A')]
  {
  }

  function QueryEscape(s: Bytes): string {
    if s == "" then "" else EscapedByte(s[0]) + QueryEscape(s[1..])
  }

  lemma HexDigitInjective(d: nat, e: nat)
    requires d < 16 && e < 16 && HexDigit(d, 'A') == HexDigit(e, 'A')
    ensures d == e
  {
    assert HexDigit(d, 'A') as int == if d < 10 then 48 + d else 55 + d;
    assert HexDigit(e, 'A') as int == if e < 10 then 48 + e else 55 + e;
  }

  /** An escaped byte can be read off the front in only one way. */
  lemma EscapedByteUnique(c: char, s: string, d: char, t: string)
    requires c as int < 256 && d as int < 256
    requires EscapedByte(c) + s == EscapedByte(d) + t
    ensures c == d && s == t
  {
    var u, v := EscapedByte(c) + s, EscapedByte(d) + t;
    assert u[0] == EscapedByte(c)[0] && v[0] == EscapedByte(d)[0];
    if u[0] == '%' {
      assert u[1] == EscapedByte(c)[1] && v[1] == EscapedByte(d)[1];
      assert u[2] == EscapedByte(c)[2] && v[2] == EscapedByte(d)[2];
      HexDigitInjective(c as int / 16, d as int / 16);
      HexDigitInjective(c as int % 16, d as int % 16);
      assert c as int == d as int;
    }
    assert EscapedByte(c) == EscapedByte(d);
    assert s == u[|EscapedByte(c)|..] && t == v[|EscapedByte(d)|..];
  }

  lemma {:induction false} QueryEscapeInjective(s: Bytes, t: Bytes)
    requires QueryEscape(s) == QueryEscape(t)
    ensures s == t
  {
    if s != "" && t != "" {
      EscapedByteUnique(s[0], QueryEscape(s[1..]), t[0], QueryEscape(t[1..]));
      QueryEscapeInjective(s[1..], t[1..]);
      assert s == [s[0]] + s[1..] && t == [t[0]] + t[1..];
    }
  }

  /** Escaped text holds no '=', no '&' and no NUL. */
  lemma {:induction false} EscapedIsPlain(s: Bytes)
    ensures '=' !in QueryEscape(s) && '&' !in QueryEscape(s) && NUL !in QueryEscape(s)
  {
    if s != "" {
      EscapedIsPlain(s[1..]);
    }
  }

  // ---------------------------------------------------------------- query

  datatype Pair = Pair(key: Bytes, value: Bytes)

  function PairText(pair: Pair): string {
    QueryEscape(pair.key) + "=" + QueryEscape(pair.value)
  }

  function PairTexts(pairs: seq<Pair>): seq<string> {
    seq(|pairs|, i requires 0 <= i < |pairs| => PairText(pairs[i]))
  }

  function PairsOf(key: Bytes, values: seq<Bytes>): seq<Pair> {
    seq(|values|, i requires 0 <= i < |values| => Pair(key, values[i]))
  }

  /** The pairs of a query, key by key, each key's values in order. */
  function Pairs(query: Query, keys: seq<Bytes>): seq<Pair>
    requires forall i :: 0 <= i < |keys| ==> keys[i] in query
  {
    if keys == [] then []
    else
      var n := |keys| - 1;
      Pairs(query, keys[..n]) + PairsOf(keys[n], query[keys[n]])
  }

  predicate Ascending(keys: seq<Bytes>) {
    forall i, j :: 0 <= i < j < |keys| ==> Less(keys[i], keys[j])
  }

  /** The keys of a query in ascending order. */
  ghost predicate KeysOf(query: Query, keys: seq<Bytes>) {
    Ascending(keys) && forall key: Bytes :: key in keys <==> key in query
  }

  /** What normalizedQuery returns. */
  ghost predicate Normalized(query: Query, text: string) {
    exists keys: seq<Bytes> :: KeysOf(query, keys) && text == Join(PairTexts(Pairs(query, keys)), '&')
  }

  /** The loop over map keys, in any order, and sort.Strings. */
  method SortedKeys(query: Query) returns (keys: seq<Bytes>)
    ensures KeysOf(query, keys)
  {
    keys := [];
    var pending := query.Keys;
    while pending != {}
      invariant pending <= query.Keys && Ascending(keys)
      invariant forall key: Bytes :: key in keys <==> key in query && key !in pending
    {
      var key :| key in pending;
      pending := pending - {key};
      keys := Inserted(keys, key);
    }
  }

  method Inserted(keys: seq<Bytes>, key: Bytes) returns (sorted: seq<Bytes>)
    requires Ascending(keys) && key !in keys
    ensures Ascending(sorted) && forall k: Bytes :: k in sorted <==> k in keys || k == key
  {
    var at := |keys|;
    while at > 0 && Less(key, keys[at - 1])
      invariant 0 <= at <= |keys|
      invariant forall i :: at <= i < |keys| ==> Less(key, keys[i])
    {
      at := at - 1;
    }
    forall i | 0 <= i < at ensures Less(keys[i], key) {
      LessTotal(keys[at - 1], key);
      if i < at - 1 {
        LessTransitive(keys[i], keys[at - 1], key);
      }
    }
    sorted := keys[..at] + [key] + keys[at..];
    assert keys == keys[..at] + keys[at..];
  }

  method NormalizedQuery(query: Query) returns (text: string)
    ensures Normalized(query, text)
  {
    var keys := SortedKeys(query);
    var parts: seq<string> := [];
    for i := 0 to |keys|
      invariant parts == PairTexts(Pairs(query, keys[..i]))
    {
      assert keys[..i + 1][..i] == keys[..i];
      var more := ValueTexts(keys[i], query[keys[i]]);
      PairTextsConcat(Pairs(query, keys[..i]), PairsOf(keys[i], query[keys[i]]));
      parts := parts + more;
    }
    assert keys[..|keys|] == keys;
    return Join(parts, '&');
  }

  method ValueTexts(key: Bytes, values: seq<Bytes>) returns (parts: seq<string>)
    ensures parts == PairTexts(PairsOf(key, values))
  {
    parts := [];
    for j := 0 to |values|
      invariant |parts| == j && forall i :: 0 <= i < j ==> parts[i] == PairText(Pair(key, values[i]))
    {
      parts := parts + [QueryEscape(key) + "=" + QueryEscape(values[j])];
    }
  }

  lemma PairTextsConcat(a: seq<Pair>, b: seq<Pair>)
    ensures PairTexts(a + b) == PairTexts(a) + PairTexts(b)
  {
  }

  function ValuesFor(pairs: seq<Pair>, key: Bytes): seq<Bytes> {
    if pairs == [] then []
    else
      var n := |pairs| - 1;
      ValuesFor(pairs[..n], key) + if pairs[n].key == key then [pairs[n].value] else []
  }

  lemma {:induction false} ValuesForConcat(a: seq<Pair>, b: seq<Pair>, key: Bytes)
    ensures ValuesFor(a + b, key) == ValuesFor(a, key) + ValuesFor(b, key)
  {
    if b == [] {
      assert a + b == a;
    } else {
      var n := |b| - 1;
      ValuesForConcat(a, b[..n], key);
      assert (a + b)[..|a + b| - 1] == a + b[..n];
    }
  }

  lemma {:induction false} ValuesOfOneKey(key: Bytes, values: seq<Bytes>, asked: Bytes)
    ensures ValuesFor(PairsOf(key, values), asked) == if key == asked then values else []
  {
    if values != [] {
      var n := |values| - 1;
      ValuesOfOneKey(key, values[..n], asked);
      assert PairsOf(key, values)[..n] == PairsOf(key, values[..n]);
    }
  }

  lemma AscendingUnrepeated(keys: seq<Bytes>)
    requires Ascending(keys)
    ensures Unrepeated(keys)
  {
    forall i, j | 0 <= i < j < |keys| ensures keys[i] != keys[j] {
      LessIrreflexive(keys[i]);
    }
  }

  lemma ValuesOneMoreKey(before: seq<Pair>, key: Bytes, values: seq<Bytes>, asked: Bytes)
    ensures ValuesFor(before + PairsOf(key, values), asked) == ValuesFor(before, asked) + if key == asked then values else []
  {
    ValuesForConcat(before, PairsOf(key, values), asked);
    ValuesOfOneKey(key, values, asked);
  }

  /** A query's values can be read back from its pairs. */
  lemma {:induction false} ValuesInPairs(query: Query, keys: seq<Bytes>, key: Bytes)
    requires Unrepeated(keys) && forall i :: 0 <= i < |keys| ==> keys[i] in query
    ensures ValuesFor(Pairs(query, keys), key) == if key in keys then query[key] else []
  {
    if keys != [] {
      var front, last := keys[..|keys| - 1], keys[|keys| - 1];
      assert keys == front + [last] && last !in front;
      ValuesInPairs(query, front, key);
      OneMoreKey(query, front, last, key);
    }
  }

  lemma OneMoreKey(query: Query, front: seq<Bytes>, last: Bytes, key: Bytes)
    requires (forall i :: 0 <= i < |front| ==> front[i] in query) && last in query && last !in front
    requires ValuesFor(Pairs(query, front), key) == if key in front then query[key] else []
    ensures ValuesFor(Pairs(query, front + [last]), key) == if key in front + [last] then query[key] else []
  {
    assert (front + [last])[..|front|] == front;
    ValuesOneMoreKey(Pairs(query, front), last, query[last], key);
    if key == last {
      assert [] + query[last] == query[last];
    } else {
      assert ValuesFor(Pairs(query, front), key) + [] == ValuesFor(Pairs(query, front), key);
    }
  }

  lemma PairTextUnique(p: Pair, q: Pair)
    requires PairText(p) == PairText(q)
    ensures p == q
  {
    EscapedIsPlain(p.key);
    EscapedIsPlain(q.key);
    IndexByteFirst(QueryEscape(p.key), '=', QueryEscape(p.value));
    IndexByteFirst(QueryEscape(q.key), '=', QueryEscape(q.value));
    var n := |QueryEscape(p.key)|;
    assert QueryEscape(p.key) == PairText(p)[..n] && QueryEscape(q.key) == PairText(q)[..n];
    assert QueryEscape(p.value) == PairText(p)[n + 1..] && QueryEscape(q.value) == PairText(q)[n + 1..];
    QueryEscapeInjective(p.key, q.key);
    QueryEscapeInjective(p.value, q.value);
  }

  lemma PairTextsSeparable(pairs: seq<Pair>)
    ensures forall text :: text in PairTexts(pairs) ==> '&' !in text && text != ""
  {
    forall i | 0 <= i < |pairs| ensures '&' !in PairText(pairs[i]) && PairText(pairs[i]) != "" {
      EscapedIsPlain(pairs[i].key);
      EscapedIsPlain(pairs[i].value);
    }
  }

  lemma JoinedPairsInjective(ps: seq<Pair>, qs: seq<Pair>)
    requires Join(PairTexts(ps), '&') == Join(PairTexts(qs), '&')
    ensures ps == qs
  {
    var a, b := PairTexts(ps), PairTexts(qs);
    PairTextsSeparable(ps);
    PairTextsSeparable(qs);
    assert a != [] ==> a[0] in a;
    assert b != [] ==> b[0] in b;
    if a != [] && b != [] {
      SplitJoin(a, '&');
      SplitJoin(b, '&');
    }
    forall i | 0 <= i < |ps| ensures ps[i] == qs[i] {
      assert a[i] == b[i];
      PairTextUnique(ps[i], qs[i]);
    }
  }

  lemma SameValues(p: Query, q: Query, ks: seq<Bytes>, ls: seq<Bytes>, pairs: seq<Pair>, key: Bytes)
    requires KeysOf(p, ks) && KeysOf(q, ls) && Pairs(p, ks) == pairs == Pairs(q, ls)
    ensures key in p <==> key in q
    ensures key in p ==> p[key] == q[key]
  {
    AscendingUnrepeated(ks);
    AscendingUnrepeated(ls);
    ValuesInPairs(p, ks, key);
    ValuesInPairs(q, ls, key);
    assert key in p ==> p[key] != [];
    assert key in q ==> q[key] != [];
  }

  lemma SameQuery(p: Query, q: Query, ks: seq<Bytes>, ls: seq<Bytes>, pairs: seq<Pair>)
    requires KeysOf(p, ks) && KeysOf(q, ls) && Pairs(p, ks) == pairs == Pairs(q, ls)
    ensures p == q
  {
    forall key: Bytes ensures (key in p <==> key in q) && (key in p ==> p[key] == q[key]) {
      SameValues(p, q, ks, ls, pairs, key);
    }
    assert p.Keys == q.Keys;
  }

  /** Normalized queries are equal only for equal queries. */
  lemma NormalizedInjective(p: Query, q: Query, text: string)
    requires Normalized(p, text) && Normalized(q, text)
    ensures p == q
  {
    var ks: seq<Bytes> :| KeysOf(p, ks) && text == Join(PairTexts(Pairs(p, ks)), '&');
    var ls: seq<Bytes> :| KeysOf(q, ls) && text == Join(PairTexts(Pairs(q, ls)), '&');
    JoinedPairsInjective(Pairs(p, ks), Pairs(q, ls));
    SameQuery(p, q, ks, ls, Pairs(p, ks));
  }

  lemma LastIsGreatest(keys: seq<Bytes>, key: Bytes)
    requires Ascending(keys) && key in keys
    ensures AtMost(key, keys[|keys| - 1])
  {
  }

  /** Ascending lists of the same keys are the same list. */
  lemma {:induction false} AscendingUnique(ks: seq<Bytes>, ls: seq<Bytes>)
    requires Ascending(ks) && Ascending(ls) && forall key: Bytes :: key in ks <==> key in ls
    ensures ks == ls
  {
    assert ks != [] ==> ks[0] in ks;
    assert ls != [] ==> ls[0] in ls;
    if ks != [] && ls != [] {
      var k, l := ks[|ks| - 1], ls[|ls| - 1];
      assert k in ks && l in ls;
      LastIsGreatest(ks, l);
      LastIsGreatest(ls, k);
      if k != l {
        LessAsymmetric(k, l);
      }
      WithoutLast(ks);
      WithoutLast(ls);
      var fk, fl := ks[..|ks| - 1], ls[..|ls| - 1];
      assert k == l;
      forall key: Bytes ensures key in fk <==> key in fl {
        assert key in fk <==> key in ks && key != k;
        assert key in fl <==> key in ls && key != l;
      }
      AscendingUnique(fk, fl);
      assert ks == fk + [k] && ls == fl + [l];
    }
  }

  lemma WithoutLast(keys: seq<Bytes>)
    requires Ascending(keys) && keys != []
    ensures forall key: Bytes :: key in keys[..|keys| - 1] <==> key in keys && key != keys[|keys| - 1]
  {
    var n := |keys| - 1;
    AscendingUnrepeated(keys);
    assert keys == keys[..n] + [keys[n]];
  }

  /** A query has one normalized text, whatever order its map is visited in. */
  lemma NormalizedUnique(query: Query, s: string, t: string)
    requires Normalized(query, s) && Normalized(query, t)
    ensures s == t
  {
    var ks: seq<Bytes> :| KeysOf(query, ks) && s == Join(PairTexts(Pairs(query, ks)), '&');
    var ls: seq<Bytes> :| KeysOf(query, ls) && t == Join(PairTexts(Pairs(query, ls)), '&');
    AscendingUnique(ks, ls);
  }

  // ---------------------------------------------------------------- keys

  /** What a cached response depends on besides the build and the region's data. */
  datatype Request = Request(route: Name, path: string, query: Query)

  /** The hashed text: each part followed by a NUL byte. */
  function Terminated(parts: seq<string>): string {
    if parts == [] then "" else parts[0] + [NUL] + Terminated(parts[1..])
  }

  lemma {:induction false} TerminatedSnoc(parts: seq<string>, part: string)
    ensures Terminated(parts + [part]) == Terminated(parts) + (part + [NUL])
  {
    if parts == [] {
      assert [part][1..] == [];
      assert part + [NUL] + "" == part + [NUL];
    } else {
      TerminatedSnoc(parts[1..], part);
      assert (parts + [part])[1..] == parts[1..] + [part];
    }
  }

  function Preimage(build: Name, region: Name, revision: Name, route: Name, path: string, query: string): string {
    Terminated([build, region, revision, route, path, query])
  }

  lemma TerminatedHead(part: string, parts: seq<string>)
    ensures Terminated([part] + parts) == part + [NUL] + Terminated(parts)
  {
    assert ([part] + parts)[1..] == parts;
  }

  lemma PreimageNests(build: Name, region: Name, revision: Name, route: Name, path: string, query: string)
    ensures Preimage(build, region, revision, route, path, query)
         == build + [NUL] + (region + [NUL] + (revision + [NUL] + (route + [NUL] + (path + [NUL] + (query + [NUL])))))
  {
    TerminatedHead(build, [region, revision, route, path, query]);
    TerminatedHead(region, [revision, route, path, query]);
    TerminatedHead(revision, [route, path, query]);
    TerminatedHead(route, [path, query]);
    TerminatedHead(path, [query]);
    TerminatedHead(query, []);
    assert [query] + [] == [query] && query + [NUL] + "" == query + [NUL];
  }

  lemma NamePrefix(a: Name, s: string, b: Name, t: string)
    requires a + [NUL] + s == b + [NUL] + t
    ensures a == b && s == t
  {
    IndexByteFirst(a, NUL, s);
    IndexByteFirst(b, NUL, t);
    assert a == (a + [NUL] + s)[..|a|] && b == (b + [NUL] + t)[..|b|];
    assert s == (a + [NUL] + s)[|a| + 1..] && t == (b + [NUL] + t)[|b| + 1..];
  }

  /** Two texts ending in a NUL-free query are told apart from the right, so the
      path before it may hold NUL bytes. */
  lemma QuerySuffix(p: string, q: string, p': string, q': string)
    requires NUL !in q && NUL !in q'
    requires p + [NUL] + (q + [NUL]) == p' + [NUL] + (q' + [NUL])
    ensures p == p' && q == q'
  {
    var u, v := p + [NUL] + (q + [NUL]), p' + [NUL] + (q' + [NUL]);
    assert u[|p|] == NUL && v[|p'|] == NUL;
    assert forall i :: |p| < i < |u| - 1 ==> u[i] == q[i - |p| - 1];
    assert forall i :: |p'| < i < |v| - 1 ==> v[i] == q'[i - |p'| - 1];
    assert |p| == |p'|;
    assert p == u[..|p|] && p' == v[..|p|];
    assert q == u[|p| + 1..|u| - 1] && q' == v[|p| + 1..|v| - 1];
  }

  /** Equal hashed texts mean equal build, region, revision, route, path and
      normalized query. */
  lemma PreimageInjective(b: Name, g: Name, v: Name, r: Name, p: string, q: string,
                          b': Name, g': Name, v': Name, r': Name, p': string, q': string)
    requires NUL !in q && NUL !in q'
    requires Preimage(b, g, v, r, p, q) == Preimage(b', g', v', r', p', q')
    ensures b == b' && g == g' && v == v' && r == r' && p == p' && q == q'
  {
    var t, t' := p + [NUL] + (q + [NUL]), p' + [NUL] + (q' + [NUL]);
    PreimageNests(b, g, v, r, p, q);
    PreimageNests(b', g', v', r', p', q');
    NamePrefix(b, g + [NUL] + (v + [NUL] + (r + [NUL] + t)), b', g' + [NUL] + (v' + [NUL] + (r' + [NUL] + t')));
    NamePrefix(g, v + [NUL] + (r + [NUL] + t), g', v' + [NUL] + (r' + [NUL] + t'));
    NamePrefix(v, r + [NUL] + t, v', r' + [NUL] + t');
    NamePrefix(r, t, r', t');
    QuerySuffix(p, q, p', q');
  }

  lemma NormalizedHasNoNul(query: Query, text: string)
    requires Normalized(query, text)
    ensures NUL !in text
  {
    var keys: seq<Bytes> :| KeysOf(query, keys) && text == Join(PairTexts(Pairs(query, keys)), '&');
    var texts := PairTexts(Pairs(query, keys));
    forall i | 0 <= i < |texts| ensures NUL !in texts[i] {
      EscapedIsPlain(Pairs(query, keys)[i].key);
      EscapedIsPlain(Pairs(query, keys)[i].value);
    }
    JoinHasNo(texts, '&', NUL);
  }

  lemma {:induction false} JoinHasNo(texts: seq<string>, separator: char, c: char)
    requires c != separator && forall i :: 0 <= i < |texts| ==> c !in texts[i]
    ensures c !in Join(texts, separator)
  {
    if |texts| > 1 {
      JoinHasNo(texts[1..], separator, c);
    }
  }

  const KEY_PREFIX := "sekai-master-api:cache:v1:"

  ghost predicate KeyFor(sha: string -> string, build: Name, region: Name, revision: Name, request: Request, key: string) {
    exists query ::
      Normalized(request.query, query) &&
      key == KEY_PREFIX + sha(Preimage(build, region, revision, request.route, request.path, query))
  }

  method Key(sha: string -> string, build: Name, region: Name, revision: Name, request: Request) returns (key: string)
    ensures KeyFor(sha, build, region, revision, request, key)
  {
    var query := NormalizedQuery(request.query);
    var parts: seq<string> := [build, region, revision, request.route, request.path, query];
    var text := "";
    for i := 0 to |parts|
      invariant text == Terminated(parts[..i])
    {
      TerminatedSnoc(parts[..i], parts[i]);
      assert parts[..i + 1] == parts[..i] + [parts[i]];
      text := text + (parts[i] + [NUL]);
    }
    assert parts[..|parts|] == parts;
    return KEY_PREFIX + sha(text);
  }

  /** Equal keys mean equal build, region, revision, route, path and query
      multimap, with the hash taken to be injective. */
  lemma KeysDetermine(sha: string -> string, b: Name, g: Name, v: Name, r: Request,
                      b': Name, g': Name, v': Name, r': Request, key: string)
    requires forall s, t :: sha(s) == sha(t) ==> s == t
    requires KeyFor(sha, b, g, v, r, key) && KeyFor(sha, b', g', v', r', key)
    ensures b == b' && g == g' && v == v' && r == r'
  {
    var q :| Normalized(r.query, q) && key == KEY_PREFIX + sha(Preimage(b, g, v, r.route, r.path, q));
    var q' :| Normalized(r'.query, q') && key == KEY_PREFIX + sha(Preimage(b', g', v', r'.route, r'.path, q'));
    assert sha(Preimage(b, g, v, r.route, r.path, q)) == key[|KEY_PREFIX|..]
        == sha(Preimage(b', g', v', r'.route, r'.path, q'));
    NormalizedHasNoNul(r.query, q);
    NormalizedHasNoNul(r'.query, q');
    PreimageInjective(b, g, v, r.route, r.path, q, b', g', v', r'.route, r'.path, q');
    NormalizedInjective(r.query, r'.query, q);
  }
}
