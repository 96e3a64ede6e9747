/** git's pkt-line framing and ref advertisements as the GitHub repository reads
    them (internal/repository/master_data_github_repository.go); the format is
    the "pkt-line Format" section of gitprotocol-common(5), with the special
    packets of "Packet-Line Framing" in gitprotocol-v2(5). */
module PktLines {
  import opened Text

  datatype Packet = Data(payload: string) | Flush | ResponseEnd | Delimiter

  const MAX_PAYLOAD := 65531

  predicate Printable(packet: Packet) {
    packet.Data? ==> |packet.payload| <= MAX_PAYLOAD
  }

  // ---------------------------------------------------------------- lengths

  function HexValue(c: char): Option<nat> {
    if '0' <= c <= '9' then Some(c as int - '0' as int)
    else if 'a' <= c <= 'f' then Some(c as int - 'a' as int + 10)
    else if 'A' <= c <= 'F' then Some(c as int - 'A' as int + 10)
    else None
  }

  lemma HexDigitRead(d: nat)
    requires d < 16
    ensures HexValue(HexDigit(d, 'a')) == Some(d)
  {
  }

  /** strconv.ParseUint(s, 16, 16) on four bytes; either case of digit counts. */
  function ParseLength(s: string): (n: Option<nat>)
    requires |s| == 4
    ensures n.Some? ==> n.value < 65536
  {
    var a, b, c, d := HexValue(s[0]), HexValue(s[1]), HexValue(s[2]), HexValue(s[3]);
    if a.None? || b.None? || c.None? || d.None? then None
    else Joined(a.value, b.value, c.value, d.value)
  }

  function Joined(a: nat, b: nat, c: nat, d: nat): (n: Option<nat>)
    ensures n.Some? ==> n.value < 65536
  {
    var n := 4096 * a + 256 * b + 16 * c + d;
    if n < 65536 then Some(n) else None
  }

  /** Four lower-case hex digits. */
  function PrintLength(n: nat): (s: string)
    requires n < 65536
    ensures |s| == 4
  {
    [HexDigit(n / 4096, 'a'), HexDigit(n / 256 % 16, 'a'), HexDigit(n / 16 % 16, 'a'), HexDigit(n % 16, 'a')]
  }

  lemma DigitsOf(n: nat)
    requires n < 65536
    ensures Joined(n / 4096, n / 256 % 16, n / 16 % 16, n % 16) == Some(n)
  {
    var p := n / 16;
    var q := p / 16;
    assert n == 16 * p + n % 16 && p == 16 * q + p % 16 && q == 16 * (q / 16) + q % 16;
    assert n / 256 == q && n / 4096 == q / 16;
  }

  lemma LengthRoundTrip(n: nat)
    requires n < 65536
    ensures ParseLength(PrintLength(n)) == Some(n)
  {
    DigitsOf(n);
    HexDigitRead(n / 4096);
    HexDigitRead(n / 256 % 16);
    HexDigitRead(n / 16 % 16);
    HexDigitRead(n % 16);
  }

  // ---------------------------------------------------------------- packets

  /** The number a packet's header carries. */
  function LengthOf(packet: Packet): (n: nat)
    requires Printable(packet)
    ensures n < 65536
  {
    match packet
    case Data(payload) => |payload| + 4
    case Flush => 0
    case ResponseEnd => 1
    case Delimiter => 2
  }

  function PayloadOf(packet: Packet): string {
    if packet.Data? then packet.payload else ""
  }

  function Printed(packet: Packet): string
    requires Printable(packet)
  {
    PrintLength(LengthOf(packet)) + PayloadOf(packet)
  }

  function PrintedAll(packets: seq<Packet>): string
    requires forall i :: 0 <= i < |packets| ==> Printable(packets[i])
  {
    if packets == [] then "" else Printed(packets[0]) + PrintedAll(packets[1..])
  }

  /** What one read finds at an offset: a packet and the offset after it, or an
      error: a truncated header or payload, a length that is not hex, or 3. */
  datatype Reading = Found(packet: Packet, next: nat) | Malformed

  function ReadAt(body: string, offset: nat): (r: Reading)
    requires offset <= |body|
    ensures r.Found? ==> offset + 4 <= r.next <= |body|
  {
    if |body| - offset < 4 then Malformed
    else
      var length := ParseLength(body[offset..offset + 4]);
      if length.None? then Malformed
      else PacketAt(body, offset + 4, length.value)
  }

  function PacketAt(body: string, start: nat, length: nat): (r: Reading)
    requires start <= |body|
    ensures r.Found? ==> start <= r.next <= |body|
  {
    if length == 0 then Found(Flush, start)
    else if length == 1 then Found(ResponseEnd, start)
    else if length == 2 then Found(Delimiter, start)
    else if length == 3 || length - 4 > |body| - start then Malformed
    else Found(Data(body[start..start + length - 4]), start + length - 4)
  }

  datatype Kind = DataKind | FlushKind | ResponseEndKind | DelimiterKind

  function KindOf(packet: Packet): Kind {
    match packet
    case Data(_) => DataKind
    case Flush => FlushKind
    case ResponseEnd => ResponseEndKind
    case Delimiter => DelimiterKind
  }

  class GitPktLineReader {
    const body: string
    var offset: nat

    constructor (body: string)
      ensures this.body == body && offset == 0
    {
      this.body := body;
      offset := 0;
    }

    /** Payload and kind of the next packet; a successful read moves the offset
        past it, by at least 4 and within the body. */
    method Read() returns (payload: string, kind: Kind, ok: bool)
      requires offset <= |body|
      modifies this
      ensures old(offset) <= offset <= |body|
      ensures ok <==> ReadAt(body, old(offset)).Found?
      ensures ok ==> offset == ReadAt(body, old(offset)).next >= old(offset) + 4
      ensures ok ==> kind == KindOf(ReadAt(body, old(offset)).packet)
      ensures ok && kind == DataKind ==> Data(payload) == ReadAt(body, old(offset)).packet
      ensures ok && kind != DataKind ==> payload == ""
    {
      if |body| - offset < 4 {
        return "", DataKind, false;
      }
      var packetLength := ParseLength(body[offset..offset + 4]);
      if packetLength.None? {
        return "", DataKind, false;
      }
      offset := offset + 4;
      var length := packetLength.value;
      if length == 0 {
        return "", FlushKind, true;
      } else if length == 1 {
        return "", ResponseEndKind, true;
      } else if length == 2 {
        return "", DelimiterKind, true;
      } else if length == 3 {
        return "", DataKind, false;
      }
      var payloadLength := length - 4;
      if payloadLength > |body| - offset {
        return "", DataKind, false;
      }
      payload := body[offset..offset + payloadLength];
      offset := offset + payloadLength;
      return payload, DataKind, true;
    }
  }

  /** Reading on from an offset until the body ends. */
  function ReadAllFrom(body: string, offset: nat): Result<seq<Packet>>
    requires offset <= |body|
    decreases |body| - offset
  {
    if offset == |body| then Ok([])
    else
      match ReadAt(body, offset)
      case Malformed => Err
      case Found(packet, next) =>
        var rest := ReadAllFrom(body, next);
        if rest.Err? then Err else Ok([packet] + rest.value)
  }

  lemma PacketRead(body: string, start: nat, packet: Packet)
    requires Printable(packet) && start + |PayloadOf(packet)| <= |body|
    requires body[start..start + |PayloadOf(packet)|] == PayloadOf(packet)
    ensures PacketAt(body, start, LengthOf(packet)) == Found(packet, start + |PayloadOf(packet)|)
  {
  }

  lemma Slices(body: string, offset: nat, header: string, payload: string)
    requires offset <= |body| && header + payload <= body[offset..]
    ensures offset + |header| + |payload| <= |body|
    ensures body[offset..offset + |header|] == header
    ensures body[offset + |header|..offset + |header| + |payload|] == payload
  {
    var text := body[offset..];
    assert text[..|header + payload|] == header + payload;
    assert body[offset..offset + |header|] == text[..|header + payload|][..|header|];
    assert body[offset + |header|..offset + |header| + |payload|] == text[..|header + payload|][|header|..];
  }

  lemma HeaderRead(body: string, offset: nat, length: nat)
    requires offset + 4 <= |body| && length < 65536 && body[offset..offset + 4] == PrintLength(length)
    ensures ReadAt(body, offset) == PacketAt(body, offset + 4, length)
  {
    LengthRoundTrip(length);
  }

  lemma ReadPrinted(body: string, offset: nat, packet: Packet)
    requires Printable(packet) && offset <= |body| && Printed(packet) <= body[offset..]
    ensures ReadAt(body, offset) == Found(packet, offset + |Printed(packet)|)
  {
    Slices(body, offset, PrintLength(LengthOf(packet)), PayloadOf(packet));
    HeaderRead(body, offset, LengthOf(packet));
    PacketRead(body, offset + 4, packet);
  }

  lemma ReadOne(body: string, offset: nat, packet: Packet, next: nat)
    requires offset < |body| && ReadAt(body, offset) == Found(packet, next)
    ensures ReadAllFrom(body, offset)
         == if ReadAllFrom(body, next).Err? then Err else Ok([packet] + ReadAllFrom(body, next).value)
  {
  }

  lemma AfterPrefix(body: string, offset: nat, first: string, rest: string)
    requires offset <= |body| && body[offset..] == first + rest
    ensures first <= body[offset..] && offset + |first| <= |body| && body[offset + |first|..] == rest
  {
    assert body[offset + |first|..] == body[offset..][|first|..];
  }

  lemma PrintedStep(body: string, offset: nat, packet: Packet, next: nat, after: seq<Packet>)
    requires Printable(packet) && offset <= |body| && Printed(packet) <= body[offset..]
    requires offset < next == offset + |Printed(packet)| <= |body| && ReadAllFrom(body, next) == Ok(after)
    ensures ReadAllFrom(body, offset) == Ok([packet] + after)
  {
    ReadPrinted(body, offset, packet);
    ReadOne(body, offset, packet, next);
  }

  /** Reading inverts printing: any payloads of up to 65531 bytes, with special
      packets in between, come back exactly and in order. */
  lemma {:induction false} ReadInvertsPrinting(body: string, offset: nat, packets: seq<Packet>)
    requires forall i :: 0 <= i < |packets| ==> Printable(packets[i])
    requires offset <= |body| && body[offset..] == PrintedAll(packets)
    ensures ReadAllFrom(body, offset) == Ok(packets)
    decreases |packets|
  {
    if packets == [] {
      assert offset == |body|;
    } else {
      var packet := packets[0];
      var next := offset + |Printed(packet)|;
      AfterPrefix(body, offset, Printed(packet), PrintedAll(packets[1..]));
      ReadInvertsPrinting(body, next, packets[1..]);
      PrintedStep(body, offset, packet, next, packets[1..]);
      assert packets == [packet] + packets[1..];
    }
  }

  predicate HexChar(c: char) {
    '0' <= c <= '9' || 'a' <= c <= 'f' || 'A' <= c <= 'F'
  }

  /** Either case of digit has its value, and nothing else has one. */
  lemma HexValues(d: nat, c: char)
    requires d < 16
    ensures HexValue(HexDigit(d, 'a')) == HexValue(HexDigit(d, 'A')) == Some(d)
    ensures HexValue(c).None? <==> !HexChar(c)
  {
  }

  /** A read fails exactly on a truncated header, one that is not hex, the unused
      length 3, or a payload that runs past the body. */
  lemma MalformedExact(body: string, offset: nat)
    requires offset <= |body|
    ensures ReadAt(body, offset) == Malformed <==>
            || |body| - offset < 4
            || (exists i :: offset <= i < offset + 4 && !HexChar(body[i]))
            || ParseLength(body[offset..offset + 4]) == Some(3)
            || (ParseLength(body[offset..offset + 4]).Some? &&
                ParseLength(body[offset..offset + 4]).value - 4 > |body| - offset - 4)
  {
    if |body| - offset >= 4 {
      var header := body[offset..offset + 4];
      assert header[0] == body[offset] && header[1] == body[offset + 1];
      assert header[2] == body[offset + 2] && header[3] == body[offset + 3];
      FourDigits(header);
    }
  }

  /** Four bytes are a length exactly when all are hex digits. */
  lemma FourDigits(s: string)
    requires |s| == 4
    ensures ParseLength(s).Some? <==> HexChar(s[0]) && HexChar(s[1]) && HexChar(s[2]) && HexChar(s[3])
  {
  }

  // ---------------------------------------------------------------- refs

  type Refs = map<string, string>

  function TrimNewline(s: string): string {
    if s != "" && s[|s| - 1] == '\n' then s[..|s| - 1] else s
  }

  const SERVICE_PREFIX := "# service="
  const VERSION_LINE := "version 2"

  predicate Skipped(packet: string) {
    SERVICE_PREFIX <= packet || packet == VERSION_LINE
  }

  function WithoutCapabilities(refName: string): string {
    var separator := IndexByte(refName, NUL);
    if separator >= 0 then refName[..separator] else refName
  }

  datatype Ref = Ref(sha: string, name: string)

  /** parseGitRefAdvertisementPacket. */
  function ParseRef(packet: string): Option<Ref> {
    var separator := IndexByte(packet, ' ');
    if separator <= 0 then None
    else
      var sha := TrimSpace(packet[..separator]);
      var name := TrimSpace(WithoutCapabilities(packet[separator + 1..]));
      if sha == "" || name == "" then None else Some(Ref(sha, name))
  }

  /** A line is no ref without a space, with nothing before it, or when sha or name
      are blank, capabilities aside; otherwise both are read, trimmed. */
  lemma RefLinesExact(sha: string, rest: string)
    requires ' ' !in sha
    ensures ParseRef(sha).None?
    ensures var name := TrimSpace(WithoutCapabilities(rest));
            ParseRef(sha + " " + rest)
              == if TrimSpace(sha) == "" || name == "" then None else Some(Ref(TrimSpace(sha), name))
    ensures WithoutCapabilities(rest) <= rest && NUL !in WithoutCapabilities(rest)
    ensures WithoutCapabilities(rest) == rest || rest[|WithoutCapabilities(rest)|] == NUL
  {
    var line := sha + [' '] + rest;
    assert line == sha + " " + rest;
    IndexByteFirst(sha, ' ', rest);
    assert line[..|sha|] == sha && line[|sha| + 1..] == rest;
  }

  /** What one packet does to the refs found so far. */
  function AddPacket(refs: Refs, packet: Packet): Result<Refs> {
    if !packet.Data? || Skipped(TrimNewline(packet.payload)) then Ok(refs)
    else
      var parsed := ParseRef(TrimNewline(packet.payload));
      if parsed.None? then Err else Ok(refs[parsed.value.name := parsed.value.sha])
  }

  /** A data packet, its final newline aside, is a service or version line, which is
      passed over, or a ref line, which is added, or an error. */
  lemma DataPacketsExact(refs: Refs, payload: string, text: string)
    requires payload == text + "\n" || (payload == text && (text == "" || text[|text| - 1] != '\n'))
    ensures AddPacket(refs, Data(payload))
         == if "# service=" <= text || text == "version 2" then Ok(refs)
            else if ParseRef(text).None? then Err
            else Ok(refs[ParseRef(text).value.name := ParseRef(text).value.sha])
  {
    if payload == text + "\n" {
      assert payload[..|payload| - 1] == text;
    }
  }

  function RefsOf(refs: Refs, packets: seq<Packet>): Result<Refs>
    decreases |packets|
  {
    if packets == [] then Ok(refs)
    else
      var next := AddPacket(refs, packets[0]);
      if next.Err? then Err else RefsOf(next.value, packets[1..])
  }

  /** The refs of the packets from an offset on, failing when a packet does not
      read or parse. */
  function RefsFrom(refs: Refs, body: string, offset: nat): Result<Refs>
    requires offset <= |body|
  {
    var packets := ReadAllFrom(body, offset);
    if packets.Err? then Err else RefsOf(refs, packets.value)
  }

  lemma RefsOneMore(refs: Refs, body: string, offset: nat)
    requires offset < |body|
    ensures RefsFrom(refs, body, offset)
         == match ReadAt(body, offset)
            case Malformed => Err
            case Found(packet, next) =>
              if AddPacket(refs, packet).Err? then Err else RefsFrom(AddPacket(refs, packet).value, body, next)
  {
    match ReadAt(body, offset) {
      case Malformed =>
      case Found(packet, next) =>
        var rest := ReadAllFrom(body, next);
        if rest.Ok? {
          assert ([packet] + rest.value)[1..] == rest.value;
        }
    }
  }

  /** parseGitUploadPackRefs: the loop ends because every read that succeeds
      moves the offset on. */
  method ParseGitUploadPackRefs(body: string) returns (result: Result<Refs>)
    ensures result == var refs := RefsFrom(map[], body, 0);
                      if refs.Err? || refs.value == map[] then Err else refs
  {
    var refs: Refs := map[];
    var reader := new GitPktLineReader(body);
    while reader.offset < |body|
      invariant fresh(reader) && reader.body == body && reader.offset <= |body|
      invariant RefsFrom(map[], body, 0) == RefsFrom(refs, body, reader.offset)
      decreases |body| - reader.offset
    {
      RefsOneMore(refs, body, reader.offset);
      var payload, kind, ok := reader.Read();
      if !ok {
        return Err;
      }
      if kind != DataKind {
        continue;
      }
      var packet := TrimNewline(payload);
      if SERVICE_PREFIX <= packet || packet == VERSION_LINE {
        continue;
      }
      var parsed := ParseRef(packet);
      if parsed.None? {
        return Err;
      }
      refs := refs[parsed.value.name := parsed.value.sha];
    }
    if refs == map[] {
      return Err;
    }
    return Ok(refs);
  }

  // ---------------------------------------------------------------- advertisements

  /** What an advertisement may hold: ref lines, the first with capabilities,
      ended by a newline or not; service and version lines; special packets. */
  datatype Line =
    | RefLine(ref: Ref, capabilities: Option<string>, newline: bool)
    | ServiceLine(service: string)
    | VersionLine(newline: bool)
    | Special(packet: Packet)

  predicate HexName(sha: string) {
    sha != "" && forall i :: 0 <= i < |sha| ==> HexValue(sha[i]).Some?
  }

  predicate RefName(name: string) {
    name != "" && NUL !in name && !IsSpace(name[0]) && !IsSpace(name[|name| - 1])
  }

  function Newline(newline: bool): string {
    if newline then "\n" else ""
  }

  /** A line's text without its final newline. A bare line must not end in a
      newline of its own, which trimming would take. */
  function LineText(line: Line): string
    requires line.RefLine?
  {
    line.ref.sha + " " + line.ref.name + if line.capabilities.Some? then [NUL] + line.capabilities.value else ""
  }

  predicate ValidLine(line: Line) {
    match line
    case RefLine(ref, capabilities, newline) =>
      HexName(ref.sha) && RefName(ref.name) &&
      (!newline && capabilities.Some? ==> TrimNewline(capabilities.value) == capabilities.value) &&
      |LineText(line)| < MAX_PAYLOAD
    case ServiceLine(service) => |SERVICE_PREFIX| + |service| < MAX_PAYLOAD
    case VersionLine(_) => true
    case Special(packet) => !packet.Data?
  }

  function PacketOf(line: Line): (packet: Packet)
    requires ValidLine(line)
    ensures Printable(packet)
  {
    match line
    case RefLine(_, _, newline) => Data(LineText(line) + Newline(newline))
    case ServiceLine(service) => Data(SERVICE_PREFIX + service + "\n")
    case VersionLine(newline) => Data(VERSION_LINE + Newline(newline))
    case Special(packet) => packet
  }

  predicate ValidLines(lines: seq<Line>) {
    forall i :: 0 <= i < |lines| ==> ValidLine(lines[i])
  }

  function PacketsOf(lines: seq<Line>): (packets: seq<Packet>)
    requires ValidLines(lines)
    ensures |packets| == |lines| && forall i :: 0 <= i < |packets| ==> Printable(packets[i])
  {
    seq(|lines|, i requires 0 <= i < |lines| => PacketOf(lines[i]))
  }

  /** The refs advertised, the last line of each name winning. */
  function LastWins(refs: Refs, lines: seq<Line>): Refs
    decreases |lines|
  {
    if lines == [] then refs
    else LastWins(if lines[0].RefLine? then refs[lines[0].ref.name := lines[0].ref.sha] else refs, lines[1..])
  }

  lemma TrimSpaceKeeps(s: string)
    requires s != "" && !IsSpace(s[0]) && !IsSpace(s[|s| - 1])
    ensures TrimSpace(s) == s
  {
  }

  lemma TrimsNewline(text: string, newline: bool)
    requires newline || TrimNewline(text) == text
    ensures TrimNewline(text + Newline(newline)) == text
  {
    assert newline ==> (text + "\n")[..|text|] == text;
    assert !newline ==> text + "" == text;
  }

  lemma NotHexStart(sha: string)
    requires HexName(sha)
    ensures ' ' !in sha && sha[0] != '#' && sha[0] != 'v' && !IsSpace(sha[0]) && !IsSpace(sha[|sha| - 1])
  {
    assert HexValue(sha[0]).Some? && HexValue(sha[|sha| - 1]).Some?;
  }

  lemma NameRead(name: string, capabilities: Option<string>)
    requires RefName(name)
    ensures TrimSpace(WithoutCapabilities(name + if capabilities.Some? then [NUL] + capabilities.value else "")) == name
  {
    TrimSpaceKeeps(name);
    if capabilities.Some? {
      IndexByteFirst(name, NUL, capabilities.value);
      assert name + ([NUL] + capabilities.value) == name + [NUL] + capabilities.value;
      assert (name + [NUL] + capabilities.value)[..|name|] == name;
    } else {
      assert name + "" == name;
    }
  }

  /** A printed ref line parses to its ref, without the capabilities. */
  lemma RefLineParses(line: Line)
    requires ValidLine(line) && line.RefLine?
    ensures !Skipped(LineText(line)) && ParseRef(LineText(line)) == Some(line.ref)
  {
    var sha, text := line.ref.sha, LineText(line);
    var tail := line.ref.name + if line.capabilities.Some? then [NUL] + line.capabilities.value else "";
    NotHexStart(sha);
    assert text == sha + [' '] + tail;
    IndexByteFirst(sha, ' ', tail);
    assert text[..|sha|] == sha && text[|sha| + 1..] == tail;
    TrimSpaceKeeps(sha);
    NameRead(line.ref.name, line.capabilities);
    assert text[0] == sha[0] && SERVICE_PREFIX[0] == '#' && VERSION_LINE[0] == 'v';
  }

  lemma LineNotEndingInNewline(line: Line)
    requires ValidLine(line) && line.RefLine? && !line.newline
    ensures TrimNewline(LineText(line)) == LineText(line)
  {
    var text := LineText(line);
    var name := line.ref.name;
    if line.capabilities.None? || line.capabilities.value == "" {
      assert text[|text| - 1] == if line.capabilities.None? then name[|name| - 1] else NUL;
      assert IsSpace('\n');
    } else {
      assert text[|text| - 1] == line.capabilities.value[|line.capabilities.value| - 1];
    }
  }

  lemma LineAdds(refs: Refs, line: Line)
    requires ValidLine(line)
    ensures AddPacket(refs, PacketOf(line)) == Ok(if line.RefLine? then refs[line.ref.name := line.ref.sha] else refs)
  {
    match line {
      case RefLine(_, _, newline) =>
        if !newline {
          LineNotEndingInNewline(line);
        }
        TrimsNewline(LineText(line), newline);
        RefLineParses(line);
      case ServiceLine(service) =>
        assert (SERVICE_PREFIX + service + "\n")[..|SERVICE_PREFIX + service|] == SERVICE_PREFIX + service;
      case VersionLine(newline) =>
        TrimsNewline(VERSION_LINE, newline);
      case Special(_) =>
    }
  }

  lemma {:induction false} LinesParse(refs: Refs, lines: seq<Line>)
    requires ValidLines(lines)
    ensures RefsOf(refs, PacketsOf(lines)) == Ok(LastWins(refs, lines))
    decreases |lines|
  {
    if lines != [] {
      LineAdds(refs, lines[0]);
      assert PacketsOf(lines)[0] == PacketOf(lines[0]) && PacketsOf(lines)[1..] == PacketsOf(lines[1..]);
      LinesParse(if lines[0].RefLine? then refs[lines[0].ref.name := lines[0].ref.sha] else refs, lines[1..]);
    }
  }

  /** A printed advertisement parses to its last-wins ref map, capabilities
      dropped, whatever special packets, service and version lines come between. */
  lemma AdvertisementParses(lines: seq<Line>)
    requires ValidLines(lines)
    ensures RefsFrom(map[], PrintedAll(PacketsOf(lines)), 0) == Ok(LastWins(map[], lines))
  {
    var body := PrintedAll(PacketsOf(lines));
    assert body[0..] == body;
    ReadInvertsPrinting(body, 0, PacketsOf(lines));
    LinesParse(map[], lines);
  }

  /** Each name of the map has the sha of the last line naming it. */
  lemma {:induction false} LastLineWins(refs: Refs, lines: seq<Line>, i: nat)
    requires i < |lines| && lines[i].RefLine?
    requires forall j :: i < j < |lines| && lines[j].RefLine? ==> lines[j].ref.name != lines[i].ref.name
    ensures lines[i].ref.name in LastWins(refs, lines) && LastWins(refs, lines)[lines[i].ref.name] == lines[i].ref.sha
    decreases |lines|
  {
    var next := if lines[0].RefLine? then refs[lines[0].ref.name := lines[0].ref.sha] else refs;
    if i > 0 {
      LastLineWins(next, lines[1..], i - 1);
    } else {
      Unnamed(next, lines[1..], lines[0].ref.name);
    }
  }

  lemma {:induction false} Unnamed(refs: Refs, lines: seq<Line>, name: string)
    requires name in refs && forall j :: 0 <= j < |lines| && lines[j].RefLine? ==> lines[j].ref.name != name
    ensures name in LastWins(refs, lines) && LastWins(refs, lines)[name] == refs[name]
    decreases |lines|
  {
    if lines != [] {
      Unnamed(if lines[0].RefLine? then refs[lines[0].ref.name := lines[0].ref.sha] else refs, lines[1..], name);
    }
  }
}
