/** Cached responses: their encoding (responsecache/entry.go), the recorder that
    copies a body while it is written (responsecache/middleware.go), and the
    hints a handler gives about validity (cachehint/cachehint.go). */
module CacheEntries {
  import opened Text

  type Byte = b: int | 0 <= b < 256

  datatype Entry = Entry(status: nat, contentType: seq<Byte>, body: seq<Byte>)

  const VERSION: Byte := 1
  const ZSTD_FLAG: Byte := 1
  const COMPRESS_MIN_BYTES := 1024
  const MAX_TYPE_LENGTH := 0xffff
  const MAX_BODY_SIZE := 0x400_0000

  /** A compressor and its inverse, on bodies the decoder's memory limit allows. */
  datatype Codec = Codec(compress: seq<Byte> -> seq<Byte>, decompress: seq<Byte> -> Option<seq<Byte>>) {
    ghost predicate Inverse() {
      forall body :: |body| <= MAX_BODY_SIZE ==> decompress(compress(body)) == Some(body)
    }
  }

  function High(n: nat): Byte {
    n / 256 % 256
  }

  function Low(n: nat): Byte {
    n % 256
  }

  function Uint16(high: Byte, low: Byte): nat {
    256 * high + low
  }

  /** A 16-bit field keeps a number exactly when it fits, and its low 16 bits
      always. */
  lemma Uint16RoundTrip(n: nat)
    ensures Uint16(High(n), Low(n)) < 65536 && exists q: nat :: n == 65536 * q + Uint16(High(n), Low(n))
    ensures Uint16(High(n), Low(n)) == n <==> n < 65536
  {
    var q, l := n / 256, n % 256;
    var p, h := q / 256, q % 256;
    assert High(n) == h && Low(n) == l;
    assert n == 65536 * p + Uint16(h, l);
  }

  /** The number a 16-bit field holds of n. */
  function Stored16(n: nat): nat {
    Uint16(High(n), Low(n))
  }

  function Truncated(contentType: seq<Byte>): seq<Byte> {
    if |contentType| > MAX_TYPE_LENGTH then contentType[..MAX_TYPE_LENGTH] else contentType
  }

  /** Version, flags, status and content type length, then both texts. */
  function Layout(flags: Byte, status: nat, contentType: seq<Byte>, payload: seq<Byte>): seq<Byte> {
    Header(flags, status, |contentType|) + contentType + payload
  }

  function Header(flags: Byte, status: nat, typeLength: nat): (header: seq<Byte>)
    ensures |header| == 6
  {
    [VERSION, flags, High(status), Low(status), High(typeLength), Low(typeLength)]
  }

  function Encoded(codec: Codec, value: Entry): seq<Byte> {
    if |value.body| >= COMPRESS_MIN_BYTES
    then Layout(ZSTD_FLAG, value.status, Truncated(value.contentType), codec.compress(value.body))
    else Layout(0, value.status, Truncated(value.contentType), value.body)
  }

  method EncodeEntry(codec: Codec, value: Entry) returns (out: seq<Byte>)
    ensures out == Encoded(codec, value)
  {
    var flags: Byte := 0;
    var body := value.body;
    if |body| >= COMPRESS_MIN_BYTES {
      body := codec.compress(body);
      flags := ZSTD_FLAG;
    }
    var contentType := value.contentType;
    if |contentType| > MAX_TYPE_LENGTH {
      contentType := contentType[..MAX_TYPE_LENGTH];
    }
    out := [VERSION, flags];
    out := out + [High(value.status), Low(value.status)];
    out := out + [High(|contentType|), Low(|contentType|)];
    out := out + contentType;
    return out + body;
  }

  /** decodeEntry: None for a malformed entry. */
  function DecodeEntry(codec: Codec, raw: seq<Byte>): Option<Entry> {
    if |raw| < 6 || raw[0] != VERSION then None
    else
      var typeLength := Uint16(raw[4], raw[5]);
      if |raw| < 6 + typeLength then None
      else
        var contentType := raw[6..6 + typeLength];
        var body := raw[6 + typeLength..];
        if raw[1] % 2 == 0 then Some(Entry(Uint16(raw[2], raw[3]), contentType, body))
        else if codec.decompress(body).None? then None
        else Some(Entry(Uint16(raw[2], raw[3]), contentType, codec.decompress(body).value))
  }

  /** Exactly what decodes: six header bytes of version 1, the whole content type,
      and a body that decompresses if the flag says it is compressed. */
  lemma DecodesExactly(codec: Codec, raw: seq<Byte>, typeLength: int, status: int)
    requires |raw| >= 6
    requires typeLength == 256 * (raw[4] as int) + raw[5] as int && status == 256 * (raw[2] as int) + raw[3] as int
    ensures DecodeEntry(codec, raw).Some? <==>
            raw[0] == 1 && |raw| >= 6 + typeLength &&
            (raw[1] % 2 == 1 ==> codec.decompress(raw[6 + typeLength..]).Some?)
    ensures DecodeEntry(codec, raw).Some? ==>
              DecodeEntry(codec, raw).value.status == status &&
              DecodeEntry(codec, raw).value.contentType == raw[6..6 + typeLength] &&
              Some(DecodeEntry(codec, raw).value.body)
                == if raw[1] % 2 == 1 then codec.decompress(raw[6 + typeLength..]) else Some(raw[6 + typeLength..])
    ensures forall short :: |short| < 6 ==> DecodeEntry(codec, short).None?
  {
  }

  function Payload(codec: Codec, compressed: bool, payload: seq<Byte>): Option<seq<Byte>> {
    if compressed then codec.decompress(payload) else Some(payload)
  }

  /** The layout is read back part by part. */
  lemma Decoding(codec: Codec, header: seq<Byte>, contentType: seq<Byte>, payload: seq<Byte>)
    requires |header| == 6 && header[0] == VERSION && Uint16(header[4], header[5]) == |contentType|
    ensures var body := Payload(codec, header[1] % 2 == 1, payload);
            DecodeEntry(codec, header + contentType + payload)
              == if body.None? then None else Some(Entry(Uint16(header[2], header[3]), contentType, body.value))
  {
    var raw := header + contentType + payload;
    assert forall i :: 0 <= i < 6 ==> raw[i] == header[i];
    assert raw[6..6 + |contentType|] == contentType && raw[6 + |contentType|..] == payload;
  }

  lemma LayoutDecodes(codec: Codec, flags: Byte, status: nat, contentType: seq<Byte>, payload: seq<Byte>)
    requires |contentType| <= MAX_TYPE_LENGTH
    ensures var body := Payload(codec, flags % 2 == 1, payload);
            DecodeEntry(codec, Layout(flags, status, contentType, payload))
              == if body.None? then None else Some(Entry(Stored16(status), contentType, body.value))
  {
    Uint16RoundTrip(|contentType|);
    Decoding(codec, Header(flags, status, |contentType|), contentType, payload);
  }

  lemma LayoutGives(codec: Codec, flags: Byte, value: Entry, payload: seq<Byte>)
    requires Payload(codec, flags % 2 == 1, payload) == Some(value.body)
    ensures DecodeEntry(codec, Layout(flags, value.status, Truncated(value.contentType), payload))
         == Some(Entry(Stored16(value.status), Truncated(value.contentType), value.body))
  {
    LayoutDecodes(codec, flags, value.status, Truncated(value.contentType), payload);
  }

  /** What comes back: the status's low 16 bits and at most 0xffff bytes of
      content type. */
  lemma DecodeEncoded(codec: Codec, value: Entry)
    requires codec.Inverse() && |value.body| <= MAX_BODY_SIZE
    ensures DecodeEntry(codec, Encoded(codec, value))
         == Some(Entry(Stored16(value.status), Truncated(value.contentType), value.body))
  {
    var compressed := codec.compress(value.body);
    assert codec.decompress(compressed) == Some(value.body);
    LayoutGives(codec, if |value.body| >= COMPRESS_MIN_BYTES then ZSTD_FLAG else 0, value,
                if |value.body| >= COMPRESS_MIN_BYTES then compressed else value.body);
  }

  /** An entry round-trips exactly when its status and content type length fit
      their 16-bit fields. */
  lemma EntryRoundTrip(codec: Codec, value: Entry)
    requires codec.Inverse() && |value.body| <= MAX_BODY_SIZE
    ensures DecodeEntry(codec, Encoded(codec, value)) == Some(value) <==>
            value.status < 65536 && |value.contentType| <= MAX_TYPE_LENGTH
  {
    DecodeEncoded(codec, value);
    Uint16RoundTrip(value.status);
  }

  // ---------------------------------------------------------------- hints

  /** The earlier of two moments, None being no moment at all. */
  function Earlier(a: Option<int>, b: Option<int>): Option<int> {
    if a.None? then b else if b.None? then a else if b.value < a.value then b else a
  }

  /** The earliest moment reported. */
  function Earliest(reports: seq<Option<int>>): Option<int> {
    if reports == [] then None
    else Earlier(Earliest(reports[..|reports| - 1]), reports[|reports| - 1])
  }

  class Hint {
    var moment: Option<int>
    ghost var reports: seq<Option<int>>

    ghost predicate Valid()
      reads this
    {
      moment == Earliest(reports)
    }

    constructor ()
      ensures Valid() && reports == []
    {
      moment := None;
      reports := [];
    }

    /** A zero time (None) is ignored. */
    method ValidUntil(t: Option<int>)
      requires Valid()
      modifies this
      ensures Valid() && reports == old(reports) + [t]
    {
      reports := reports + [t];
      assert reports[..|reports| - 1] == old(reports);
      if t.None? {
        return;
      }
      if moment.None? || t.value < moment.value {
        moment := t;
      }
    }

    method Until() returns (t: Option<int>)
      requires Valid()
      ensures t == Earliest(reports)
    {
      return moment;
    }
  }

  /** The earliest moment is one reported, and no report comes before it. */
  lemma {:induction false} EarliestIsMinimum(reports: seq<Option<int>>)
    ensures Earliest(reports).None? <==> forall i :: 0 <= i < |reports| ==> reports[i].None?
    ensures Earliest(reports).Some? ==> Earliest(reports) in reports
    ensures Earliest(reports).Some? ==>
              forall i :: 0 <= i < |reports| && reports[i].Some? ==> Earliest(reports).value <= reports[i].value
  {
    if reports != [] {
      var n := |reports| - 1;
      EarliestIsMinimum(reports[..n]);
      assert reports == reports[..n] + [reports[n]];
    }
  }

  // ---------------------------------------------------------------- recorder

  class Recorder {
    var body: seq<Byte>
    var overflow: bool
    const limit: nat
    ghost var written: seq<Byte>

    /** The copy is the whole body, or dropped once it outgrew the limit. */
    ghost predicate Valid()
      reads this
    {
      (overflow <==> |written| > limit) && body == if overflow then [] else written
    }

    constructor (limit: nat)
      ensures Valid() && written == [] && this.limit == limit
    {
      this.limit := limit;
      body, overflow, written := [], false, [];
    }

    method Write(data: seq<Byte>)
      requires Valid()
      modifies this
      ensures Valid() && written == old(written) + data
    {
      written := written + data;
      if overflow {
        return;
      }
      if |body| + |data| > limit {
        overflow := true;
        body := [];
        return;
      }
      body := body + data;
    }
  }
}
