/** CurrentEventUntil (internal/usecase/master_data_sync_usecase.go): the event
    whose window contains now, and the next moment the answer can change. */
module CurrentEvents {
  import opened Text
  import opened Json

  const TWO_63 := 0x8000_0000_0000_0000
  type Int64 = n: int | -TWO_63 <= n < TWO_63

  /** Two's complement wrap-around. */
  function Wrap(n: int): Int64 {
    (n + TWO_63) % (2 * TWO_63) - TWO_63
  }

  /** Go's integer division, truncating toward zero. */
  function TowardZero(n: int, d: nat): int
    requires d > 0
  {
    if n >= 0 then n / d else -((-n) / d)
  }

  /** normalizeEpochTimestamp: seconds, milliseconds, microseconds or nanoseconds
      by magnitude, as milliseconds; in 64-bit arithmetic. */
  function Normalized(timestamp: Int64): Int64 {
    var n: int := timestamp;
    var abs: Int64 := if n < 0 then Wrap(-n) else n;
    if abs == 0 then 0
    else if abs < 100_000_000_000 then Wrap(timestamp * 1000)
    else if abs >= 100_000_000_000_000_000 then TowardZero(timestamp, 1_000_000)
    else if abs >= 100_000_000_000_000 then TowardZero(timestamp, 1000)
    else timestamp
  }

  const MAX_MILLIS := 100_000_000_000_000

  lemma WrapFits(n: int)
    requires -TWO_63 <= n < TWO_63
    ensures Wrap(n) == n
  {
  }

  /** The smallest int64 has no positive counterpart, and wraps twice to zero. */
  lemma SmallestTimestamp()
    ensures Normalized(-TWO_63) == 0
  {
    assert Wrap(TWO_63) == -TWO_63;
    assert -TWO_63 * 1000 + TWO_63 == -500 * (2 * TWO_63) + TWO_63;
    assert (-TWO_63 * 1000 + TWO_63) % (2 * TWO_63) == TWO_63;
  }

  /** Normalized timestamps of every int64, the smallest included, stay below
      10^14 in magnitude, and keep their sign. */
  lemma NormalizedBounded(timestamp: Int64)
    ensures -MAX_MILLIS < Normalized(timestamp) < MAX_MILLIS
    ensures timestamp != -TWO_63 ==>
              (Normalized(timestamp) > 0 <==> timestamp > 0) && (Normalized(timestamp) < 0 <==> timestamp < 0)
  {
    if timestamp == -TWO_63 {
      SmallestTimestamp();
    } else {
      WrapFits(-timestamp);
      var abs := if timestamp < 0 then -timestamp else timestamp;
      if abs < 100_000_000_000 {
        WrapFits(timestamp * 1000);
      }
    }
  }

  /** An instant whose nanoseconds fit int64 reads the same in milliseconds,
      microseconds and nanoseconds exactly from 10^11 ms on, and at 0; a whole
      second then reads the same in seconds. */
  lemma UnitsAgree(millis: nat)
    requires millis * 1_000_000 < TWO_63
    ensures Normalized(millis) == Normalized(millis * 1000) == Normalized(millis * 1_000_000) == millis
       <==> millis == 0 || 100_000_000_000 <= millis
    ensures millis % 1000 == 0 && 100_000_000_000 <= millis ==> Normalized(millis / 1000) == millis
  {
    if millis < 100_000_000_000 {
      WrapFits(millis * 1000);
    } else if millis % 1000 == 0 {
      WrapFits(millis / 1000 * 1000);
    }
  }

  // ---------------------------------------------------------------- windows

  /** What the source's conversions do beyond this model: a float64 as an int64,
      and the time texts parseTimestamp reads, within years 0 to 9999. */
  type Millis = m: int | -62167219200000 <= m <= 253402300799999
  datatype Parsing = Parsing(toInt64: Float64 -> Int64, parseText: string -> Option<TextTime>)
  datatype TextTime = Epoch(timestamp: Int64) | Written(millis: Millis)

  function TextMillis(time: Option<TextTime>): Option<Int64> {
    if time.None? then None
    else if time.value.Epoch? then Some(Normalized(time.value.timestamp))
    else Some(time.value.millis)
  }

  function ParseTimestamp(parsing: Parsing, value: Value): Option<Int64> {
    match value
    case Number(number) => Some(Normalized(parsing.toInt64(number)))
    case String(text) =>
      if TrimSpace(text) == "" then None else TextMillis(parsing.parseText(TrimSpace(text)))
    case _ => None
  }

  /** Numbers in milliseconds read as themselves, whole seconds as a thousand times
      them; blank texts, and anything but numbers and texts, read as no time. */
  lemma TimestampsRead(parsing: Parsing, number: Float64, text: string)
    ensures 100_000_000_000 <= parsing.toInt64(number) < 100_000_000_000_000 ==>
              ParseTimestamp(parsing, Number(number)) == Some(parsing.toInt64(number))
    ensures 0 <= parsing.toInt64(number) < 100_000_000_000 ==>
              ParseTimestamp(parsing, Number(number)) == Some(1000 * parsing.toInt64(number))
    ensures AllSpace(text) ==> ParseTimestamp(parsing, String(text)).None?
    ensures !AllSpace(text) && parsing.parseText(TrimSpace(text)).Some? && parsing.parseText(TrimSpace(text)).value.Written? ==>
              ParseTimestamp(parsing, String(text)) == Some(parsing.parseText(TrimSpace(text)).value.millis)
    ensures !AllSpace(text) && parsing.parseText(TrimSpace(text)).None? ==> ParseTimestamp(parsing, String(text)).None?
    ensures ParseTimestamp(parsing, Null).None? && ParseTimestamp(parsing, Bool(true)).None?
  {
    var left, right := TrimSpaceExact(text);
    if 0 <= parsing.toInt64(number) < 100_000_000_000 {
      WrapFits(parsing.toInt64(number) * 1000);
    }
  }

  const MAX_TIME := 253402300799999

  lemma ParsedBounded(parsing: Parsing, value: Value)
    ensures ParseTimestamp(parsing, value).Some? ==> ParseTimestamp(parsing, value).value <= MAX_TIME
  {
    match value {
      case Number(number) => NormalizedBounded(parsing.toInt64(number));
      case String(text) =>
        var time := parsing.parseText(TrimSpace(text));
        if time.Some? && time.value.Epoch? {
          NormalizedBounded(time.value.timestamp);
        }
      case _ =>
    }
  }

  /** selectPositiveTimestamp for one key. */
  function PositiveTimestamp(parsing: Parsing, record: Record, key: string): (r: Option<Int64>)
    ensures r.Some? ==> 0 < r.value <= MAX_TIME
  {
    if key !in record then None
    else
      ParsedBounded(parsing, record[key]);
      var parsed := ParseTimestamp(parsing, record[key]);
      if parsed.Some? && parsed.value > 0 then parsed else None
  }

  /** A window startAt..closedAt in milliseconds, both ends included. */
  datatype Window = Window(start: Int64, end: Int64)

  function ResolveEventTimeRange(parsing: Parsing, record: Record): (w: Option<Window>)
    ensures w.Some? ==> 0 < w.value.start <= w.value.end < TWO_63 - 1
  {
    var start, end := PositiveTimestamp(parsing, record, "startAt"), PositiveTimestamp(parsing, record, "closedAt");
    if start.None? || end.None? || end.value < start.value then None else Some(Window(start.value, end.value))
  }

  /** Each row's window, if it has one. */
  function Windows(parsing: Parsing, rows: seq<Record>): (windows: seq<Option<Window>>)
    ensures forall row :: 0 <= row < |windows| && windows[row].Some? ==>
              0 < windows[row].value.start <= windows[row].value.end < TWO_63 - 1
  {
    seq(|rows|, row requires 0 <= row < |rows| => ResolveEventTimeRange(parsing, rows[row]))
  }

  /** A record runs from one time to another: its startAt and closedAt, in
      milliseconds, both positive and in order. */
  predicate HasTimes(parsing: Parsing, record: Record, start: int, end: int) {
    && "startAt" in record && ParseTimestamp(parsing, record["startAt"]) == Some(start)
    && "closedAt" in record && ParseTimestamp(parsing, record["closedAt"]) == Some(end)
    && 0 < start <= end
  }

  lemma WindowsAreTimes(parsing: Parsing, record: Record)
    ensures forall start, end ::
              HasTimes(parsing, record, start, end) <==>
              ResolveEventTimeRange(parsing, record).Some? &&
              ResolveEventTimeRange(parsing, record).value.start == start &&
              ResolveEventTimeRange(parsing, record).value.end == end
  {
  }

  /** The row selected runs over now, and of all rows that do it starts last, the
      first of those that start last. */
  ghost predicate RunsNow(parsing: Parsing, rows: seq<Record>, now: int, selected: int) {
    && selected < |rows|
    && (selected >= 0 ==> exists start, end :: HasTimes(parsing, rows[selected], start, end) && start <= now <= end)
    && (forall row, start, end :: 0 <= row < |rows| && HasTimes(parsing, rows[row], start, end) && start <= now <= end ==>
          selected >= 0 &&
          exists latest, close :: HasTimes(parsing, rows[selected], latest, close) &&
                                  (start < latest || (start == latest && selected <= row)))
  }

  /** The next moment some row starts, or has just ended; 0 if none ever does. */
  ghost predicate ChangesNext(parsing: Parsing, rows: seq<Record>, now: int, next: int) {
    && next >= 0
    && (next > 0 ==> exists row, start, end ::
          0 <= row < |rows| && HasTimes(parsing, rows[row], start, end) &&
          ((now < start && next == start) || (start <= now <= end && next == end + 1)))
    && (forall row, start, end :: 0 <= row < |rows| && HasTimes(parsing, rows[row], start, end) && now <= end ==>
          0 < next <= if now < start then start else end + 1)
  }

  predicate Contains(window: Option<Window>, now: int) {
    window.Some? && window.value.start <= now <= window.value.end
  }

  /** Row b is preferred to row a: a later start, or the same start and earlier
      in the list. */
  predicate NotPreferred(windows: seq<Option<Window>>, a: nat, b: nat)
    requires a < |windows| && b < |windows| && windows[a].Some? && windows[b].Some?
  {
    windows[a].value.start < windows[b].value.start || (windows[a].value.start == windows[b].value.start && b <= a)
  }

  /** The first row with the latest start among those whose window contains now. */
  predicate IsCurrent(windows: seq<Option<Window>>, now: int, selected: int) {
    if selected < 0 then forall row :: 0 <= row < |windows| ==> !Contains(windows[row], now)
    else
      && selected < |windows| && Contains(windows[selected], now)
      && forall row :: 0 <= row < |windows| && Contains(windows[row], now) ==> NotPreferred(windows, row, selected)
  }

  lemma CurrentUnique(windows: seq<Option<Window>>, now: int, a: int, b: int)
    requires IsCurrent(windows, now, a) && IsCurrent(windows, now, b)
    ensures a == b || (a < 0 && b < 0)
  {
  }

  /** When a row's part of the answer next changes: when its window opens, or
      just after it closes. */
  function RowChange(window: Option<Window>, now: int): Option<int> {
    if window.None? then None
    else if now < window.value.start then Some(window.value.start)
    else if now <= window.value.end then Some(window.value.end + 1)
    else None
  }

  /** The least change of all rows, 0 for none. */
  predicate IsNextChange(windows: seq<Option<Window>>, now: int, next: int) {
    && (next == 0 ==> forall row :: 0 <= row < |windows| ==> RowChange(windows[row], now).None?)
    && (next != 0 ==> exists row :: 0 <= row < |windows| && RowChange(windows[row], now) == Some(next))
    && (forall row :: 0 <= row < |windows| && RowChange(windows[row], now).Some? ==>
          next <= RowChange(windows[row], now).value)
  }

  lemma CurrentRunsNow(parsing: Parsing, rows: seq<Record>, now: int, selected: int)
    requires selected < |rows| && IsCurrent(Windows(parsing, rows), now, selected)
    ensures RunsNow(parsing, rows, now, selected)
  {
    var windows := Windows(parsing, rows);
    if selected >= 0 {
      WindowsAreTimes(parsing, rows[selected]);
      assert HasTimes(parsing, rows[selected], windows[selected].value.start, windows[selected].value.end);
    }
    forall row, start, end | 0 <= row < |rows| && HasTimes(parsing, rows[row], start, end) && start <= now <= end
      ensures selected >= 0
      ensures exists latest, close :: HasTimes(parsing, rows[selected], latest, close) &&
                                      (start < latest || (start == latest && selected <= row))
    {
      WindowsAreTimes(parsing, rows[row]);
      assert Contains(windows[row], now);
      assert HasTimes(parsing, rows[selected], windows[selected].value.start, windows[selected].value.end);
    }
  }

  lemma NextChangesNext(parsing: Parsing, rows: seq<Record>, now: int, next: int)
    requires next >= 0 && IsNextChange(Windows(parsing, rows), now, next)
    ensures ChangesNext(parsing, rows, now, next)
  {
    var windows := Windows(parsing, rows);
    if next > 0 {
      var row :| 0 <= row < |windows| && RowChange(windows[row], now) == Some(next);
      WindowsAreTimes(parsing, rows[row]);
      assert HasTimes(parsing, rows[row], windows[row].value.start, windows[row].value.end);
    }
    forall row, start, end | 0 <= row < |rows| && HasTimes(parsing, rows[row], start, end) && now <= end
      ensures 0 < next <= if now < start then start else end + 1
    {
      WindowsAreTimes(parsing, rows[row]);
      assert RowChange(windows[row], now).Some?;
    }
  }

  /** The closure `earlier`. */
  function EarlierChange(next: Int64, candidate: Int64): Int64 {
    if next == 0 || candidate < next then candidate else next
  }

  /** The row loop. The sentinel 0 never meets a positive instant, and endAt + 1
      never leaves int64. */
  method SelectRow(parsing: Parsing, rows: seq<Record>, now: Int64) returns (selected: int, nextChange: Int64)
    ensures IsCurrent(Windows(parsing, rows), now, selected)
    ensures IsNextChange(Windows(parsing, rows), now, nextChange) && nextChange >= 0
    ensures selected < |rows|
  {
    selected, nextChange := -1, 0;
    var selectedStart: Int64 := 0;
    ghost var windows := Windows(parsing, rows);
    for row := 0 to |rows|
      invariant nextChange >= 0 && selected < row
      invariant IsCurrent(windows[..row], now, selected)
      invariant selected >= 0 ==> selectedStart == windows[selected].value.start
      invariant IsNextChange(windows[..row], now, nextChange)
    {
      var window := ResolveEventTimeRange(parsing, rows[row]);
      assert windows[..row + 1] == windows[..row] + [window];
      ghost var was, wasNext := selected, nextChange;
      if window.Some? && now < window.value.start {
        nextChange := EarlierChange(nextChange, window.value.start);
      } else if window.Some? && now <= window.value.end {
        nextChange := EarlierChange(nextChange, window.value.end + 1);
        if selected < 0 || window.value.start > selectedStart {
          selected := row;
          selectedStart := window.value.start;
        }
      }
      assert was >= 0 ==> windows[..row][was] == windows[was];
      RowStep(windows[..row], windows[..row + 1], window, now, was, wasNext, selected, nextChange);
    }
    assert windows[..|rows|] == windows;
  }

  /** One more row of the loop. */
  lemma RowStep(windows: seq<Option<Window>>, all: seq<Option<Window>>, window: Option<Window>, now: int,
                before: int, beforeNext: int, after: int, afterNext: int)
    requires all == windows + [window] && IsCurrent(windows, now, before)
    requires beforeNext >= 0 && IsNextChange(windows, now, beforeNext)
    requires window.Some? ==> 0 < window.value.start <= window.value.end
    requires after == if Contains(window, now) && (before < 0 || window.value.start > windows[before].value.start)
                      then |windows| else before
    requires var change := RowChange(window, now);
             afterNext == if change.Some? && (beforeNext == 0 || change.value < beforeNext) then change.value else beforeNext
    ensures IsCurrent(all, now, after) && IsNextChange(all, now, afterNext)
  {
    OneMoreRow(windows, window, now, before, after);
    OneMoreChange(windows, window, now, beforeNext, afterNext);
  }

  lemma OneMoreRow(windows: seq<Option<Window>>, window: Option<Window>, now: int, before: int, after: int)
    requires IsCurrent(windows, now, before)
    requires after == if Contains(window, now) && (before < 0 || window.value.start > windows[before].value.start)
                      then |windows| else before
    ensures IsCurrent(windows + [window], now, after)
  {
    var all := windows + [window];
    assert forall row :: 0 <= row < |windows| ==> all[row] == windows[row];
    if after >= 0 {
      forall row | 0 <= row < |all| && Contains(all[row], now) ensures NotPreferred(all, row, after) {
        assert before >= 0 && row < |windows| ==> NotPreferred(windows, row, before);
      }
    }
  }

  lemma OneMoreChange(windows: seq<Option<Window>>, window: Option<Window>, now: int, before: int, after: int)
    requires before >= 0 && IsNextChange(windows, now, before)
    requires var change := RowChange(window, now);
             after == if change.Some? && (before == 0 || change.value < before) then change.value else before
    requires window.Some? ==> 0 < window.value.start <= window.value.end
    ensures IsNextChange(windows + [window], now, after)
  {
    var all := windows + [window];
    assert forall row :: 0 <= row < |windows| ==> all[row] == windows[row];
    assert all[|windows|] == window;
    if before != 0 {
      var r :| 0 <= r < |windows| && RowChange(windows[r], now) == Some(before);
      assert RowChange(all[r], now) == Some(before);
    }
  }

  // ---------------------------------------------------------------- instants

  const NANOS_PER_MILLI := 1_000_000

  /** UnixMilli of an instant in nanoseconds. */
  function UnixMilli(instant: int): int {
    instant / NANOS_PER_MILLI
  }

  /** The instant the answer can next change, if any. */
  function Until(nextChange: int): Option<int> {
    if nextChange > 0 then Some(nextChange * NANOS_PER_MILLI) else None
  }

  lemma SameWindows(window: Option<Window>, now: int, later: int)
    requires now <= later && (RowChange(window, now).Some? ==> later < RowChange(window, now).value)
    ensures Contains(window, later) <==> Contains(window, now)
  {
  }

  lemma BeforeInstant(instant: int, millis: int)
    ensures instant < millis * NANOS_PER_MILLI <==> UnixMilli(instant) < millis
  {
  }

  lemma LaterInstant(now: int, later: int)
    requires now <= later
    ensures UnixMilli(now) <= UnixMilli(later)
  {
  }

  /** The same row is selected at every instant from now up to until, and at
      every later instant when there is no until; until is after now. */
  lemma SelectionStable(windows: seq<Option<Window>>, now: int, later: int, selected: int, nextChange: int)
    requires IsCurrent(windows, UnixMilli(now), selected) && nextChange >= 0
    requires IsNextChange(windows, UnixMilli(now), nextChange)
    requires now <= later && (Until(nextChange).Some? ==> later < Until(nextChange).value)
    ensures IsCurrent(windows, UnixMilli(later), selected)
    ensures Until(nextChange).Some? ==> now < Until(nextChange).value
  {
    LaterInstant(now, later);
    BeforeInstant(later, nextChange);
    BeforeInstant(now, nextChange);
    forall row | 0 <= row < |windows|
      ensures Contains(windows[row], UnixMilli(later))
         <==> Contains(windows[row], UnixMilli(now))
    {
      SameWindows(windows[row], UnixMilli(now), UnixMilli(later));
    }
  }

  /** CurrentEventUntil over the events projection: rows and their record keys;
      get is GetByID on the events. */
  method CurrentEventUntil(parsing: Parsing, keys: seq<string>, rows: seq<Record>, get: string -> Option<Record>, now: int)
    returns (record: Option<Record>, until: Option<int>, ghost selected: int)
    requires |keys| == |rows| && -TWO_63 <= UnixMilli(now) < TWO_63
    ensures RunsNow(parsing, rows, now / 1_000_000, selected)
    ensures exists next :: ChangesNext(parsing, rows, now / 1_000_000, next) &&
                           until == if next > 0 then Some(next * 1_000_000) else None
    ensures IsCurrent(Windows(parsing, rows), UnixMilli(now), selected)
    ensures record == if selected < 0 then None else get(keys[selected])
    ensures forall later :: now <= later && (until.Some? ==> later < until.value) ==>
              IsCurrent(Windows(parsing, rows), UnixMilli(later), selected)
    ensures until.Some? ==> now < until.value
  {
    var row, nextChange := SelectRow(parsing, rows, UnixMilli(now));
    CurrentRunsNow(parsing, rows, UnixMilli(now), row);
    NextChangesNext(parsing, rows, UnixMilli(now), nextChange);
    selected := row;
    ghost var windows := Windows(parsing, rows);
    until := if nextChange > 0 then Some(nextChange * NANOS_PER_MILLI) else None;
    forall later | now <= later && (until.Some? ==> later < until.value)
      ensures IsCurrent(windows, UnixMilli(later), selected)
    {
      SelectionStable(windows, now, later, selected, nextChange);
    }
    BeforeInstant(now, nextChange);
    if row < 0 {
      return None, until, selected;
    }
    return get(keys[row]), until, selected;
  }
}
