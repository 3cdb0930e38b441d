/** The lecturer dashboard's client-side logic (`client/index.js`): the countdown text,
    the seconds-left computation, the dashboard counters, and the table of active
    sessions with one countdown interval per row. The clock, `new Date(text)` and the
    browser's interval table are parameters or fields; the DOM is reduced to the rows'
    cells. */
module LecturerDashboard {
  import opened Bytes
  import ExpirySweep

  // ===========================================================================
  // Decimal text of non-negative integers (`Number.prototype.toString`)

  function DigitChar(d: nat): (c: byte)
    requires d < 10
    ensures IsDigit(c)
  {
    (0x30 + d) as byte
  }

  function DigitValue(c: byte): (d: nat)
    requires IsDigit(c)
    ensures d < 10 && DigitChar(d) == c
  {
    (c - 0x30) as nat
  }

  /** The shortest decimal text of `n`: no leading zeros, "0" for zero. */
  function Decimal(n: nat): (t: Text)
    ensures |t| >= 1 && IsAllDigits(t)
    ensures |t| > 1 ==> t[0] != Zero
    decreases n
  {
    if n < 10 then [DigitChar(n)] else Decimal(n / 10) + [DigitChar(n % 10)]
  }

  /** The value of a text of decimal digits, leading zeros allowed. */
  function ParseDecimal(t: Text): nat
    requires IsAllDigits(t)
    decreases |t|
  {
    if |t| == 0 then 0 else ParseDecimal(t[..|t| - 1]) * 10 + DigitValue(t[|t| - 1])
  }

  lemma {:induction false} ParseDecimalOfDecimal(n: nat)
    ensures ParseDecimal(Decimal(n)) == n
    decreases n
  {
    var t := Decimal(n);
    if n < 10 {
      DigitRoundTrip(n);
      assert t[..0] == [];
    } else {
      ParseDecimalOfDecimal(n / 10);
      DigitRoundTrip(n % 10);
      assert t[..|t| - 1] == Decimal(n / 10);
      assert t[|t| - 1] == DigitChar(n % 10);
      assert n == (n / 10) * 10 + n % 10;
    }
  }

  lemma DigitRoundTrip(d: nat)
    requires d < 10
    ensures DigitValue(DigitChar(d)) == d
  {
  }

  /** `padStart(2, "0")`. */
  function PadStart2(t: Text): (r: Text)
    ensures |r| == (if |t| < 2 then 2 else |t|)
  {
    if |t| == 0 then [Zero, Zero] else if |t| == 1 then [Zero] + t else t
  }

  /** A two-digit field: its padding does not change its value. */
  lemma ParsePadded(n: nat)
    ensures IsAllDigits(PadStart2(Decimal(n)))
    ensures ParseDecimal(PadStart2(Decimal(n))) == n
  {
    ParseDecimalOfDecimal(n);
    var t := PadStart2(Decimal(n));
    if n < 10 {
      assert t == [Zero, DigitChar(n)];
      assert t[..1] == [Zero];
      assert [Zero][..0] == [];
    }
  }

  // ===========================================================================
  // The countdown text

  const ZeroTime: Text := [Zero, Zero, Colon, Zero, Zero, Colon, Zero, Zero]

  /** `formatTimeLeft(seconds)`: "00:00:00" for no time left, otherwise hours, minutes and
      seconds, each at least two digits, joined by ':'. */
  function FormatTimeLeft(seconds: int): (r: Text)
    ensures seconds <= 0 ==> r == ZeroTime
    ensures |r| >= 8
  {
    if seconds <= 0 then ZeroTime
    else Joined(seconds / 3600, (seconds % 3600) / 60, seconds % 60)
  }

  /** The three fields, each padded to two digits, joined by ':'. */
  function Joined(hrs: nat, mins: nat, secs: nat): Text {
    PadStart2(Decimal(hrs)) + [Colon] + PadStart2(Decimal(mins)) + [Colon] + PadStart2(Decimal(secs))
  }

  /** Reading a countdown text back: three colon-separated runs of digits, taken as
      hours, minutes and seconds. */
  function ParseTimeLeft(t: Text): (r: Option<nat>)
  {
    var parts := SplitOn(t, Colon);
    if |parts| == 3 && IsAllDigits(parts[0]) && IsAllDigits(parts[1]) && IsAllDigits(parts[2])
    then Some(3600 * ParseDecimal(parts[0]) + 60 * ParseDecimal(parts[1]) + ParseDecimal(parts[2]))
    else None
  }

  /** Three colon-free texts joined by ':' split back into the three. */
  lemma SplitThree(h: Text, m: Text, s: Text)
    requires Colon !in h && Colon !in m && Colon !in s
    ensures SplitOn(h + [Colon] + m + [Colon] + s, Colon) == [h, m, s]
  {
    assert h + [Colon] + m + [Colon] + s == h + [Colon] + (m + [Colon] + s);
    SplitOnFirst(h, Colon, m + [Colon] + s);
    SplitOnFirst(m, Colon, s);
    SplitOnNone(s, Colon);
  }

  /** A number below 100 pads to exactly two digits. */
  lemma PaddedWidth(n: nat)
    requires n < 100
    ensures |PadStart2(Decimal(n))| == 2
  {
    if n >= 10 {
      assert n / 10 < 10;
      assert |Decimal(n / 10)| == 1;
    }
  }

  /** Digit texts hold no ':'. */
  lemma NoColonInDigits(t: Text)
    requires IsAllDigits(t)
    ensures Colon !in t
  {
    assert !IsDigit(Colon);
  }

  lemma MinutesBelow60(seconds: nat)
    ensures (seconds % 3600) / 60 < 60 && seconds % 60 < 60
  {
    assert seconds % 3600 < 3600;
  }

  /** Padded decimal fields hold no ':'. */
  lemma PaddedHasNoColon(n: nat)
    ensures Colon !in PadStart2(Decimal(n))
  {
    ParsePadded(n);
    NoColonInDigits(PadStart2(Decimal(n)));
  }

  lemma JoinedSplit(hrs: nat, mins: nat, secs: nat)
    ensures SplitOn(Joined(hrs, mins, secs), Colon)
            == [PadStart2(Decimal(hrs)), PadStart2(Decimal(mins)), PadStart2(Decimal(secs))]
  {
    PaddedHasNoColon(hrs);
    PaddedHasNoColon(mins);
    PaddedHasNoColon(secs);
    SplitThree(PadStart2(Decimal(hrs)), PadStart2(Decimal(mins)), PadStart2(Decimal(secs)));
  }

  /** Hours, minutes and seconds, padded and joined, split back into their values. */
  lemma JoinedFields(hrs: nat, mins: nat, secs: nat)
    requires mins < 60 && secs < 60
    ensures var parts := SplitOn(Joined(hrs, mins, secs), Colon);
            && |parts| == 3
            && IsAllDigits(parts[0]) && IsAllDigits(parts[1]) && IsAllDigits(parts[2])
            && ParseDecimal(parts[0]) == hrs
            && ParseDecimal(parts[1]) == mins
            && ParseDecimal(parts[2]) == secs
  {
    JoinedSplit(hrs, mins, secs);
    ParsePadded(hrs);
    ParsePadded(mins);
    ParsePadded(secs);
  }

  /** Hours take at least two digits, minutes and seconds exactly two. */
  lemma JoinedWidths(hrs: nat, mins: nat, secs: nat)
    requires mins < 60 && secs < 60
    ensures var parts := SplitOn(Joined(hrs, mins, secs), Colon);
            |parts| == 3 && |parts[0]| >= 2 && |parts[1]| == 2 && |parts[2]| == 2
  {
    var parts := SplitOn(Joined(hrs, mins, secs), Colon);
    JoinedSplit(hrs, mins, secs);
    PaddedWidth(mins);
    PaddedWidth(secs);
    assert parts[0] == PadStart2(Decimal(hrs));
    assert parts[1] == PadStart2(Decimal(mins));
    assert parts[2] == PadStart2(Decimal(secs));
  }

  /** The three fields of a countdown text: hours is the quotient by 3600, minutes and
      seconds are two digits each and below 60. */
  lemma FormatFields(seconds: int)
    requires seconds > 0
    ensures var parts := SplitOn(FormatTimeLeft(seconds), Colon);
            && |parts| == 3
            && IsAllDigits(parts[0]) && IsAllDigits(parts[1]) && IsAllDigits(parts[2])
            && |parts[0]| >= 2 && |parts[1]| == 2 && |parts[2]| == 2
            && ParseDecimal(parts[0]) == seconds / 3600
            && ParseDecimal(parts[1]) == (seconds % 3600) / 60 < 60
            && ParseDecimal(parts[2]) == seconds % 60 < 60
  {
    MinutesBelow60(seconds);
    JoinedFields(seconds / 3600, (seconds % 3600) / 60, seconds % 60);
    JoinedWidths(seconds / 3600, (seconds % 3600) / 60, seconds % 60);
  }

  lemma HoursMinutesSeconds(seconds: nat)
    ensures 3600 * (seconds / 3600) + 60 * ((seconds % 3600) / 60) + seconds % 60 == seconds
  {
    var h := seconds / 3600;
    var r := seconds % 3600;
    var m := r / 60;
    var s := r % 60;
    assert seconds == 3600 * h + r;
    assert r == 60 * m + s;
    Mod60(seconds, 60 * h + m, s);
  }

  lemma Mod60(a: int, q: int, s: int)
    requires a == 60 * q + s && 0 <= s < 60
    ensures a % 60 == s
  {
  }

  lemma ParseJoined(hrs: nat, mins: nat, secs: nat)
    requires mins < 60 && secs < 60
    ensures ParseTimeLeft(Joined(hrs, mins, secs)) == Some(3600 * hrs + 60 * mins + secs)
  {
    JoinedFields(hrs, mins, secs);
  }

  /** The countdown text always reads back as the time left, clamped at zero. */
  lemma FormatThenParse(seconds: int)
    ensures ParseTimeLeft(FormatTimeLeft(seconds)) == Some(if seconds <= 0 then 0 else seconds)
  {
    if seconds <= 0 {
      assert ZeroTime == Joined(0, 0, 0);
      ParseJoined(0, 0, 0);
    } else {
      var h, m, s := seconds / 3600, (seconds % 3600) / 60, seconds % 60;
      assert FormatTimeLeft(seconds) == Joined(h, m, s);
      assert m < 60 && s < 60 by { MinutesBelow60(seconds); }
      assert 3600 * h + 60 * m + s == seconds by { HoursMinutesSeconds(seconds); }
      ParseJoined(h, m, s);
    }
  }

  // ===========================================================================
  // Seconds left

  /** `Math.max(0, Math.floor((end - now) / 1000))` for two instants in milliseconds. */
  function SecondsLeft(endMs: int, nowMs: int): (r: nat)
    ensures endMs - nowMs >= 0 ==> r * 1000 <= endMs - nowMs < r * 1000 + 1000
    ensures endMs - nowMs < 1000 ==> r == 0
  {
    if endMs - nowMs <= 0 then 0 else (endMs - nowMs) / 1000
  }

  // ===========================================================================
  // What the dashboard receives

  /** A session as `GET /api/attendance/active` or `/history` returns it, reduced to the
      fields the dashboard reads: the `_id` text, the two names, the date, the end time,
      and the length of the `students` array when one is present. */
  datatype Listing = Listing(
    id: Text, className: Text, courseName: Text, date: Text, endTime: Text,
    studentCount: Option<nat>)

  /** `new Date(text).getTime()`: the instant in milliseconds, or `None` for an
      Invalid Date. */
  type DateParser = Text -> Option<int>

  /** The end instant the table counts down to. */
  function EndMillis(parse: DateParser, a: Listing): Option<int> {
    parse(ExpirySweep.EndText(a.date, a.endTime))
  }

  /** The seconds left of a listing at `nowMs`. An Invalid Date makes the JavaScript
      value NaN, which fails the `> 0` and `<= 0` tests alike; the table only ever asks
      `> 0`, so it is modelled as zero there. */
  function LiveSeconds(parse: DateParser, nowMs: int, a: Listing): nat {
    match EndMillis(parse, a)
    case None => 0
    case Some(e) => SecondsLeft(e, nowMs)
  }

  predicate IsLive(parse: DateParser, nowMs: int, a: Listing) {
    LiveSeconds(parse, nowMs, a) > 0
  }

  /** The ids of the listings that still have time left (`newIds` once the loop is done). */
  function LiveIds(parse: DateParser, nowMs: int, fs: seq<Listing>): (r: set<Text>)
    ensures forall i | 0 <= i < |fs| && IsLive(parse, nowMs, fs[i]) :: fs[i].id in r
    ensures forall x | x in r :: exists i | 0 <= i < |fs| :: fs[i].id == x && IsLive(parse, nowMs, fs[i])
    decreases |fs|
  {
    if |fs| == 0 then {}
    else
      var last := fs[|fs| - 1];
      var before := LiveIds(parse, nowMs, fs[..|fs| - 1]);
      assert forall i | 0 <= i < |fs| - 1 :: fs[..|fs| - 1][i] == fs[i];
      if IsLive(parse, nowMs, last) then before + {last.id} else before
  }

  /** The server sends each `_id` once. */
  predicate DistinctListings(fs: seq<Listing>) {
    forall i, j | 0 <= i < j < |fs| :: fs[i].id != fs[j].id
  }

  // ===========================================================================
  // Dashboard counters

  datatype Stats = Unavailable | Counts(activeSessions: nat, sessionsToday: nat, studentsMarked: nat)

  const LetterT: byte := 0x54      // 'T'

  /** `new Date().toISOString().split('T')[0]`. */
  function Today(nowIso: Text): Text {
    SplitOn(nowIso, LetterT)[0]
  }

  /** The date part of an ISO instant is today. */
  lemma TodayOfIso(date: Text, rest: Text)
    requires LetterT !in date
    ensures Today(date + [LetterT] + rest) == date
  {
    SplitOnFirst(date, LetterT, rest);
  }

  /** `history.filter(att => att.date === today).length`. */
  function SessionsToday(history: seq<Listing>, today: Text): (n: nat)
    ensures n <= |history|
    decreases |history|
  {
    if |history| == 0 then 0
    else SessionsToday(history[..|history| - 1], today)
         + (if history[|history| - 1].date == today then 1 else 0)
  }

  /** `active.reduce((sum, att) => sum + (att.students ? att.students.length : 0), 0)`. */
  function StudentsMarked(active: seq<Listing>): nat
    decreases |active|
  {
    if |active| == 0 then 0
    else
      var last := active[|active| - 1];
      StudentsMarked(active[..|active| - 1]) + (if last.studentCount.Some? then last.studentCount.value else 0)
  }

  /** `updateDashboardStats`: `None` stands for a request that failed or a body that did
      not parse; either failure shows N/A in all three counters. */
  function DashboardStats(active: Option<seq<Listing>>, history: Option<seq<Listing>>, nowIso: Text)
    : (r: Stats)
    ensures r.Unavailable? <==> active.None? || history.None?
    ensures r.Counts? ==> r.activeSessions == |active.value| && r.sessionsToday <= |history.value|
    ensures r.Counts? ==>
              && r.sessionsToday == SessionsToday(history.value, Today(nowIso))
              && r.studentsMarked == StudentsMarked(active.value)
  {
    if active.None? || history.None? then Unavailable
    else Counts(|active.value|, SessionsToday(history.value, Today(nowIso)), StudentsMarked(active.value))
  }

  /** The today count splits over a split history. */
  lemma {:induction false} SessionsTodayAppend(h1: seq<Listing>, h2: seq<Listing>, today: Text)
    ensures SessionsToday(h1 + h2, today) == SessionsToday(h1, today) + SessionsToday(h2, today)
    decreases |h2|
  {
    if |h2| == 0 {
      assert h1 + h2 == h1;
    } else {
      SessionsTodayAppend(h1, h2[..|h2| - 1], today);
      assert (h1 + h2)[..|h1 + h2| - 1] == h1 + h2[..|h2| - 1];
    }
  }

  /** The today count is the number of positions holding today's date. */
  lemma {:induction false} SessionsTodayCounts(history: seq<Listing>, today: Text)
    ensures SessionsToday(history, today) == |set i | 0 <= i < |history| && history[i].date == today|
    decreases |history|
  {
    if |history| > 0 {
      var n := |history| - 1;
      var init := history[..n];
      SessionsTodayCounts(init, today);
      var before := set i | 0 <= i < n && init[i].date == today;
      var after := set i | 0 <= i < |history| && history[i].date == today;
      assert forall i | 0 <= i < n :: init[i] == history[i];
      assert n !in before;
      if history[n].date == today {
        assert after == before + {n};
        assert |before + {n}| == |before| + 1;
      } else {
        assert after == before;
      }
    }
  }

  /** The students count splits over a split list of active sessions. */
  lemma {:induction false} StudentsMarkedAppend(a1: seq<Listing>, a2: seq<Listing>)
    ensures StudentsMarked(a1 + a2) == StudentsMarked(a1) + StudentsMarked(a2)
    decreases |a2|
  {
    if |a2| == 0 {
      assert a1 + a2 == a1;
    } else {
      StudentsMarkedAppend(a1, a2[..|a2| - 1]);
      assert (a1 + a2)[..|a1 + a2| - 1] == a1 + a2[..|a2| - 1];
    }
  }

  // ===========================================================================
  // The active-sessions table and its countdown intervals

  /** One table row: its `data-id` and the text of its class, course and time-left cells. */
  datatype Row = Row(id: Text, className: Text, courseName: Text, timeLeft: Text)

  /** An entry of `activeTimers`: the interval's handle and the end instant its callback
      counts down to. */
  datatype Timer = Timer(handle: nat, endMs: int)

  function RowIds(rows: seq<Row>): set<Text> {
    set j | 0 <= j < |rows| :: rows[j].id
  }

  predicate DistinctIds(rows: seq<Row>) {
    forall i, j | 0 <= i < j < |rows| :: rows[i].id != rows[j].id
  }

  function Handles(timers: map<Text, Timer>): set<nat> {
    set id | id in timers :: timers[id].handle
  }

  /** `existingRows.find(row => row.dataset.id === id)`, as a position. */
  function FindRow(rows: seq<Row>, id: Text): (r: Option<nat>)
    ensures r.Some? ==> r.value < |rows| && rows[r.value].id == id
    ensures r.Some? ==> forall j | 0 <= j < r.value :: rows[j].id != id
    ensures r.None? <==> id !in RowIds(rows)
    decreases |rows|
  {
    if |rows| == 0 then None
    else if rows[0].id == id then Some(0)
    else
      match FindRow(rows[1..], id)
      case None => None
      case Some(j) => Some(j + 1)
  }

  /** The row appended for a listing that has none yet. */
  function NewRow(parse: DateParser, nowMs: int, a: Listing): Row {
    Row(a.id, a.className, a.courseName, FormatTimeLeft(LiveSeconds(parse, nowMs, a)))
  }

  /** The existing rows after the first loop has visited `fs`: a live listing's row
      gets its time-left cell rewritten; ids and names never change. */
  function Refreshed(existing: seq<Row>, fs: seq<Listing>, parse: DateParser, nowMs: int)
    : (r: seq<Row>)
    ensures |r| == |existing|
    ensures forall j | 0 <= j < |r| ::
              r[j].id == existing[j].id && r[j].className == existing[j].className
              && r[j].courseName == existing[j].courseName
    decreases |fs|
  {
    if |fs| == 0 then existing
    else
      var r := Refreshed(existing, fs[..|fs| - 1], parse, nowMs);
      var a := fs[|fs| - 1];
      var found := FindRow(existing, a.id);
      if IsLive(parse, nowMs, a) && found.Some? then
        r[found.value := r[found.value].(timeLeft := FormatTimeLeft(LiveSeconds(parse, nowMs, a)))]
      else r
  }

  /** The rows the first loop appends: one per live listing with no existing row. */
  function Appended(existing: seq<Row>, fs: seq<Listing>, parse: DateParser, nowMs: int)
    : (r: seq<Row>)
    ensures forall j | 0 <= j < |r| :: r[j].id in LiveIds(parse, nowMs, fs) && r[j].id !in RowIds(existing)
    decreases |fs|
  {
    if |fs| == 0 then []
    else
      var r := Appended(existing, fs[..|fs| - 1], parse, nowMs);
      var a := fs[|fs| - 1];
      if IsLive(parse, nowMs, a) && FindRow(existing, a.id).None? then r + [NewRow(parse, nowMs, a)] else r
  }

  /** The rows whose id is in `ids`, in order. */
  function KeepIds(rows: seq<Row>, ids: set<Text>): (r: seq<Row>)
    ensures |r| <= |rows|
    ensures forall j | 0 <= j < |r| :: r[j].id in ids && r[j] in rows
    decreases |rows|
  {
    if |rows| == 0 then []
    else
      var last := rows[|rows| - 1];
      KeepIds(rows[..|rows| - 1], ids) + (if last.id in ids then [last] else [])
  }

  /** The table after `updateActiveAttendanceTable` has seen the listings `fs`. */
  function Reconciled(existing: seq<Row>, fs: seq<Listing>, parse: DateParser, nowMs: int): seq<Row> {
    KeepIds(Refreshed(existing, fs, parse, nowMs), LiveIds(parse, nowMs, fs))
    + Appended(existing, fs, parse, nowMs)
  }

  lemma RowIdsSetCell(rows: seq<Row>, j: nat, row: Row)
    requires j < |rows| && row.id == rows[j].id
    ensures RowIds(rows[j := row]) == RowIds(rows)
    ensures DistinctIds(rows) ==> DistinctIds(rows[j := row])
  {
    assert forall i | 0 <= i < |rows| :: rows[j := row][i].id == rows[i].id;
  }

  lemma RowIdsAppend(rows: seq<Row>, row: Row)
    ensures RowIds(rows + [row]) == RowIds(rows) + {row.id}
    ensures DistinctIds(rows) && row.id !in RowIds(rows) ==> DistinctIds(rows + [row])
  {
    var r := rows + [row];
    assert r[|rows|].id == row.id;
    assert forall i | 0 <= i < |rows| :: r[i] == rows[i];
  }

  lemma RowIdsRemove(rows: seq<Row>, j: nat)
    requires j < |rows| && DistinctIds(rows)
    ensures RowIds(rows[..j] + rows[j + 1..]) == RowIds(rows) - {rows[j].id}
    ensures DistinctIds(rows[..j] + rows[j + 1..])
  {
    var r := rows[..j] + rows[j + 1..];
    assert forall i | 0 <= i < |r| :: r[i] == if i < j then rows[i] else rows[i + 1];
    forall x | x in RowIds(rows) - {rows[j].id} ensures x in RowIds(r) {
      var i :| 0 <= i < |rows| && rows[i].id == x;
      if i < j {
        assert r[i] == rows[i];
      } else {
        assert r[i - 1] == rows[i];
      }
    }
  }

  /** Replacing an id's timer by one with an unused handle swaps the two handles. */
  lemma HandlesPut(timers: map<Text, Timer>, id: Text, t: Timer)
    requires forall a, b | a in timers && b in timers && a != b :: timers[a].handle != timers[b].handle
    requires t.handle !in Handles(timers)
    ensures Handles(timers[id := t])
            == Handles(timers) - (if id in timers then {timers[id].handle} else {}) + {t.handle}
  {
    var m := timers[id := t];
    forall h | h in Handles(timers) - (if id in timers then {timers[id].handle} else {})
      ensures h in Handles(m)
    {
      var x :| x in timers && timers[x].handle == h;
      assert x != id;
      assert m[x] == timers[x];
    }
    assert m[id].handle == t.handle;
  }

  /** The active-sessions table: its rows and `activeTimers`, with the browser's table of
      running intervals beside them. */
  class ActiveTable {
    var rows: seq<Row>
    var timers: map<Text, Timer>
    /** Handles of the countdown intervals the browser is running. */
    var intervals: set<nat>
    /** The handle the next `setInterval` returns. */
    var nextHandle: nat

    /** One row per id; a timer only for a displayed row with a non-empty id; distinct
        timers hold distinct intervals, and exactly the intervals in `activeTimers` run:
        none is leaked. */
    ghost predicate Valid()
      reads this
    {
      && DistinctIds(rows)
      && (forall id | id in timers :: id != [] && id in RowIds(rows) && timers[id].handle < nextHandle)
      && (forall a, b | a in timers && b in timers && a != b :: timers[a].handle != timers[b].handle)
      && intervals == Handles(timers)
    }

    constructor ()
      ensures Valid() && rows == [] && timers == map[] && intervals == {}
    {
      rows := [];
      timers := map[];
      intervals := {};
      nextHandle := 0;
    }

    /** `startTimer(row, end, id)`: nothing for an empty id; otherwise the id's previous
        interval is cleared and a fresh one is registered. */
    method StartTimer(id: Text, endMs: int)
      requires Valid() && (id == [] || id in RowIds(rows))
      modifies this`timers, this`intervals, this`nextHandle
      ensures Valid()
      ensures id == [] ==> timers == old(timers) && intervals == old(intervals) && nextHandle == old(nextHandle)
      ensures id != [] ==>
                && timers == old(timers)[id := Timer(old(nextHandle), endMs)]
                && nextHandle == old(nextHandle) + 1
                && intervals == old(intervals) - (if id in old(timers) then {old(timers)[id].handle} else {})
                                + {old(nextHandle)}
    {
      if id == [] {
        return;
      }
      if id in timers {
        intervals := intervals - {timers[id].handle};
      }
      HandlesPut(timers, id, Timer(nextHandle, endMs));
      var handle := nextHandle;
      nextHandle := nextHandle + 1;
      intervals := intervals + {handle};
      timers := timers[id := Timer(handle, endMs)];
    }

    /** `clearInterval(activeTimers.get(id)); activeTimers.delete(id)` when the id has a
        timer. */
    method ClearTimer(id: Text)
      requires Valid()
      modifies this`timers, this`intervals
      ensures Valid()
      ensures timers == old(timers) - {id}
      ensures intervals == old(intervals) - (if id in old(timers) then {old(timers)[id].handle} else {})
    {
      if id in timers {
        intervals := intervals - {timers[id].handle};
        timers := timers - {id};
      }
    }

    /** One firing of the interval registered for `id`: the row's time-left cell is
        rewritten, and once no time is left the interval is cleared, forgotten, and the
        row removed. */
    method Tick(id: Text, nowMs: int)
      requires Valid() && id in timers
      modifies this
      ensures Valid() && nextHandle == old(nextHandle)
      ensures var secs := SecondsLeft(old(timers)[id].endMs, nowMs);
              var j := FindRow(old(rows), id).value;
              && (secs > 0 ==>
                    && timers == old(timers) && intervals == old(intervals)
                    && rows == old(rows)[j := old(rows)[j].(timeLeft := FormatTimeLeft(secs))])
              && (secs == 0 ==>
                    && timers == old(timers) - {id}
                    && intervals == old(intervals) - {old(timers)[id].handle}
                    && rows == old(rows)[..j] + old(rows)[j + 1..])
    {
      var secondsLeft := SecondsLeft(timers[id].endMs, nowMs);
      var j := FindRow(rows, id).value;
      RowIdsSetCell(rows, j, rows[j].(timeLeft := FormatTimeLeft(secondsLeft)));
      rows := rows[j := rows[j].(timeLeft := FormatTimeLeft(secondsLeft))];
      if secondsLeft <= 0 {
        ClearTimer(id);
        RowIdsRemove(rows, j);
        rows := rows[..j] + rows[j + 1..];
      }
    }

    /** `stopAllTimers()`: every interval in the map is cleared, then the map. */
    method StopAllTimers()
      requires Valid()
      modifies this`timers, this`intervals
      ensures Valid() && timers == map[] && intervals == {}
    {
      var pending := timers.Keys;
      while pending != {}
        invariant pending <= timers.Keys && timers == old(timers)
        invariant intervals == set id | id in pending :: timers[id].handle
        decreases pending
      {
        var id :| id in pending;
        intervals := intervals - {timers[id].handle};
        pending := pending - {id};
      }
      timers := map[];
    }
  
    /** The first loop of `updateActiveAttendanceTable`: each listing with time left is
        recorded in `newIds`; its existing row gets a new time-left text, or a new row is
        appended; then its countdown is (re)started. */
    method RefreshRows(fs: seq<Listing>, parse: DateParser, nowMs: int) returns (newIds: set<Text>)
      requires Valid() && DistinctListings(fs)
      modifies this`rows, this`timers, this`intervals, this`nextHandle
      ensures Valid()
      ensures newIds == LiveIds(parse, nowMs, fs)
      ensures rows == Refreshed(old(rows), fs, parse, nowMs) + Appended(old(rows), fs, parse, nowMs)
      ensures timers == Started(old(timers), fs, parse, nowMs, old(nextHandle))
      ensures nextHandle == old(nextHandle) + StartCount(fs, parse, nowMs)
    {
      var existing := rows;
      ghost var timers0 := timers;
      ghost var next0 := nextHandle;
      newIds := {};
      var k := 0;
      while k < |fs|
        invariant 0 <= k <= |fs|
        invariant Valid()
        invariant newIds == LiveIds(parse, nowMs, fs[..k])
        invariant rows == Refreshed(existing, fs[..k], parse, nowMs) + Appended(existing, fs[..k], parse, nowMs)
        invariant timers == Started(timers0, fs[..k], parse, nowMs, next0)
        invariant nextHandle == next0 + StartCount(fs[..k], parse, nowMs)
      {
        newIds := Visit(existing, fs, k, parse, nowMs, newIds, timers0, next0);
        k := k + 1;
      }
      assert fs[..k] == fs;
    }

    /** `updateActiveAttendanceTable()` once the listings `fs` have arrived and the clock
        reads `nowMs`: the first loop refreshes, appends and (re)starts countdowns, the
        second drops the rows of sessions no longer live together with their countdowns. */
    method UpdateTable(fs: seq<Listing>, parse: DateParser, nowMs: int)
      requires Valid() && DistinctListings(fs)
      modifies this`rows, this`timers, this`intervals, this`nextHandle
      ensures Valid()
      ensures rows == Reconciled(old(rows), fs, parse, nowMs)
      ensures timers == Started(old(timers), fs, parse, nowMs, old(nextHandle))
                        - (RowIds(old(rows)) - LiveIds(parse, nowMs, fs))
      ensures nextHandle == old(nextHandle) + StartCount(fs, parse, nowMs)
    {
      var existing := rows;
      var newIds := RefreshRows(fs, parse, nowMs);
      ghost var mid := rows;
      ghost var refreshed := Refreshed(existing, fs, parse, nowMs);
      assert mid[..|existing|] == refreshed;
      assert mid[|existing|..] == Appended(existing, fs, parse, nowMs);
      DropStaleRows(existing, newIds);
    }

    /** `handleCancel` once the cancel request has returned and the active listings `fs`
        have been fetched again: the session's countdown is cleared, then the table is
        reconciled. */
    method HandleCancel(id: Text, fs: seq<Listing>, parse: DateParser, nowMs: int)
      requires Valid() && DistinctListings(fs)
      modifies this`rows, this`timers, this`intervals, this`nextHandle
      ensures Valid()
      ensures rows == Reconciled(old(rows), fs, parse, nowMs)
      ensures timers == Started(old(timers) - {id}, fs, parse, nowMs, old(nextHandle))
                        - (RowIds(old(rows)) - LiveIds(parse, nowMs, fs))
    {
      ClearTimer(id);
      UpdateTable(fs, parse, nowMs);
    }

    /** The second loop of `updateActiveAttendanceTable`: every row that was there before
        the refresh and whose id is not in `newIds` is removed, with its countdown. */
    method DropStaleRows(existing: seq<Row>, newIds: set<Text>)
      requires Valid()
      requires |existing| <= |rows| && forall j | 0 <= j < |existing| :: rows[j].id == existing[j].id
      modifies this`rows, this`timers, this`intervals
      ensures Valid()
      ensures rows == KeepIds(old(rows)[..|existing|], newIds) + old(rows)[|existing|..]
      ensures timers == old(timers) - (RowIds(existing) - newIds)
    {
      ghost var mid := rows;
      ghost var midTimers := timers;
      var j := 0;
      var kept := 0;
      assert mid[..0] == [] && mid[0..] == mid && existing[..0] == [];
      assert RowIds(existing[..0]) == {};
      while j < |existing|
        invariant 0 <= j <= |existing|
        invariant Valid()
        invariant rows == KeepIds(mid[..j], newIds) + mid[j..]
        invariant kept == |KeepIds(mid[..j], newIds)|
        invariant timers == midTimers - (RowIds(existing[..j]) - newIds)
      {
        kept := DropIfStale(existing, newIds, j, kept, mid, midTimers);
        j := j + 1;
      }
      assert existing[..j] == existing;
      assert mid[..j] == old(rows)[..|existing|] && mid[j..] == old(rows)[|existing|..];
    }

    /** One iteration of the second loop: the row that held `existing[j]`. */
    method DropIfStale(existing: seq<Row>, newIds: set<Text>, j: nat, kept: nat,
                       ghost mid: seq<Row>, ghost midTimers: map<Text, Timer>)
      returns (kept': nat)
      requires Valid()
      requires j < |existing| <= |mid| && forall i | 0 <= i < |existing| :: mid[i].id == existing[i].id
      requires rows == KeepIds(mid[..j], newIds) + mid[j..]
      requires kept == |KeepIds(mid[..j], newIds)|
      requires timers == midTimers - (RowIds(existing[..j]) - newIds)
      modifies this`rows, this`timers, this`intervals
      ensures Valid()
      ensures rows == KeepIds(mid[..j + 1], newIds) + mid[j + 1..]
      ensures kept' == |KeepIds(mid[..j + 1], newIds)|
      ensures timers == midTimers - (RowIds(existing[..j + 1]) - newIds)
    {
      var id := existing[j].id;
      DropRowsStep(mid, j, newIds);
      DropTimersStep(existing, j, newIds, midTimers);
      if id !in newIds {
        ClearTimer(id);
        RemoveRow(kept);
        kept' := kept;
      } else {
        kept' := kept + 1;
      }
    }

    /** Removing a row that has no timer keeps the table consistent. */
    method RemoveRow(j: nat)
      requires Valid() && j < |rows| && rows[j].id !in timers
      modifies this`rows
      ensures Valid() && rows == old(rows)[..j] + old(rows)[j + 1..]
    {
      RowIdsRemove(rows, j);
      rows := rows[..j] + rows[j + 1..];
    }

    /** One iteration of the first loop: the listing `fs[k]`. */
    method Visit(existing: seq<Row>, fs: seq<Listing>, k: nat, parse: DateParser, nowMs: int,
                 newIds: set<Text>, ghost timers0: map<Text, Timer>, ghost next0: nat)
      returns (newIds': set<Text>)
      requires k < |fs| && Valid() && DistinctListings(fs)
      requires newIds == LiveIds(parse, nowMs, fs[..k])
      requires rows == Refreshed(existing, fs[..k], parse, nowMs) + Appended(existing, fs[..k], parse, nowMs)
      requires timers == Started(timers0, fs[..k], parse, nowMs, next0)
      requires nextHandle == next0 + StartCount(fs[..k], parse, nowMs)
      modifies this`rows, this`timers, this`intervals, this`nextHandle
      ensures Valid()
      ensures newIds' == LiveIds(parse, nowMs, fs[..k + 1])
      ensures rows == Refreshed(existing, fs[..k + 1], parse, nowMs) + Appended(existing, fs[..k + 1], parse, nowMs)
      ensures timers == Started(timers0, fs[..k + 1], parse, nowMs, next0)
      ensures nextHandle == next0 + StartCount(fs[..k + 1], parse, nowMs)
    {
      var a := fs[k];
      var end := EndMillis(parse, a);
      var secondsLeft := if end.Some? then SecondsLeft(end.value, nowMs) else 0;
      assert secondsLeft == LiveSeconds(parse, nowMs, a);
      LiveStep(fs, k, parse, nowMs);
      if secondsLeft > 0 {
        newIds' := newIds + {a.id};
        if FindRow(existing, a.id).None? {
          NotYetShown(existing, fs, k, parse, nowMs);
        }
        ghost var rowsBefore, timersBefore, nextBefore := rows, timers, nextHandle;
        ShowListing(existing, a, secondsLeft, end.value);
        VisitRowsStep(existing, fs, k, parse, nowMs, rowsBefore, rows);
        VisitTimersStep(timers0, next0, fs, k, parse, nowMs, timersBefore, nextBefore, timers, nextHandle);
      } else {
        newIds' := newIds;
        VisitRowsStep(existing, fs, k, parse, nowMs, rows, rows);
        VisitTimersStep(timers0, next0, fs, k, parse, nowMs, timers, nextHandle, timers, nextHandle);
      }
    }

    /** The body of the first loop for a listing with time left: rewrite the time-left
        cell of its row in `existing`, or append a row; then start its countdown. */
    method ShowListing(existing: seq<Row>, a: Listing, secondsLeft: nat, endMs: int)
      requires Valid() && secondsLeft > 0
      requires |existing| <= |rows| && forall j | 0 <= j < |existing| :: rows[j].id == existing[j].id
      requires FindRow(existing, a.id).None? ==> a.id !in RowIds(rows)
      modifies this`rows, this`timers, this`intervals, this`nextHandle
      ensures Valid()
      ensures var found := FindRow(existing, a.id);
              rows == if found.Some?
                      then old(rows)[found.value := old(rows)[found.value].(timeLeft := FormatTimeLeft(secondsLeft))]
                      else old(rows) + [Row(a.id, a.className, a.courseName, FormatTimeLeft(secondsLeft))]
      ensures a.id == [] ==> timers == old(timers) && nextHandle == old(nextHandle)
      ensures a.id != [] ==>
                timers == old(timers)[a.id := Timer(old(nextHandle), endMs)] && nextHandle == old(nextHandle) + 1
    {
      var found := FindRow(existing, a.id);
      if found.Some? {
        var j := found.value;
        var row := rows[j].(timeLeft := FormatTimeLeft(secondsLeft));
        RowIdsSetCell(rows, j, row);
        rows := rows[j := row];
      } else {
        var row := Row(a.id, a.className, a.courseName, FormatTimeLeft(secondsLeft));
        RowIdsAppend(rows, row);
        rows := rows + [row];
      }
      StartTimer(a.id, endMs);
    }
  }

  lemma LiveStep(fs: seq<Listing>, k: nat, parse: DateParser, nowMs: int)
    requires k < |fs|
    ensures LiveIds(parse, nowMs, fs[..k + 1])
            == LiveIds(parse, nowMs, fs[..k]) + (if IsLive(parse, nowMs, fs[k]) then {fs[k].id} else {})
  {
    assert fs[..k + 1][..k] == fs[..k];
  }

  /** Whether the first loop starts a countdown for a listing: it has time left and a
      non-empty id. */
  predicate Starts(parse: DateParser, nowMs: int, a: Listing) {
    IsLive(parse, nowMs, a) && a.id != []
  }

  /** How many countdowns the first loop starts for `fs`. */
  function StartCount(fs: seq<Listing>, parse: DateParser, nowMs: int): nat
    decreases |fs|
  {
    if |fs| == 0 then 0
    else StartCount(fs[..|fs| - 1], parse, nowMs) + (if Starts(parse, nowMs, fs[|fs| - 1]) then 1 else 0)
  }

  /** `activeTimers` after the first loop has visited `fs`, handles being issued from `next`
      on: each started countdown replaces its id's entry. */
  function Started(timers: map<Text, Timer>, fs: seq<Listing>, parse: DateParser, nowMs: int, next: nat)
    : map<Text, Timer>
    decreases |fs|
  {
    if |fs| == 0 then timers
    else
      var before := Started(timers, fs[..|fs| - 1], parse, nowMs, next);
      var a := fs[|fs| - 1];
      if Starts(parse, nowMs, a)
      then before[a.id := Timer(next + StartCount(fs[..|fs| - 1], parse, nowMs), EndMillis(parse, a).value)]
      else before
  }

  lemma StartedStep(timers: map<Text, Timer>, fs: seq<Listing>, k: nat, parse: DateParser, nowMs: int, next: nat)
    requires k < |fs|
    ensures StartCount(fs[..k + 1], parse, nowMs)
            == StartCount(fs[..k], parse, nowMs) + (if Starts(parse, nowMs, fs[k]) then 1 else 0)
    ensures Started(timers, fs[..k + 1], parse, nowMs, next)
            == if Starts(parse, nowMs, fs[k])
               then Started(timers, fs[..k], parse, nowMs, next)[fs[k].id :=
                      Timer(next + StartCount(fs[..k], parse, nowMs), EndMillis(parse, fs[k]).value)]
               else Started(timers, fs[..k], parse, nowMs, next)
  {
    assert fs[..k + 1][..k] == fs[..k];
  }

  lemma UpdateInPrefix(r: seq<Row>, app: seq<Row>, j: nat, row: Row)
    requires j < |r|
    ensures (r + app)[j := row] == r[j := row] + app
  {
  }

  /** What visiting one more listing does to the rows. */
  lemma RefreshStep(existing: seq<Row>, fs: seq<Listing>, k: nat, parse: DateParser, nowMs: int)
    requires k < |fs|
    ensures var a := fs[k];
            var before := Refreshed(existing, fs[..k], parse, nowMs) + Appended(existing, fs[..k], parse, nowMs);
            var after := Refreshed(existing, fs[..k + 1], parse, nowMs) + Appended(existing, fs[..k + 1], parse, nowMs);
            var found := FindRow(existing, a.id);
            && (!IsLive(parse, nowMs, a) ==> after == before)
            && (IsLive(parse, nowMs, a) && found.Some? ==>
                  after == before[found.value := before[found.value].(timeLeft := FormatTimeLeft(LiveSeconds(parse, nowMs, a)))])
            && (IsLive(parse, nowMs, a) && found.None? ==> after == before + [NewRow(parse, nowMs, a)])
  {
    var a := fs[k];
    assert fs[..k + 1][..k] == fs[..k] && fs[..k + 1][k] == a;
    var r := Refreshed(existing, fs[..k], parse, nowMs);
    var app := Appended(existing, fs[..k], parse, nowMs);
    var found := FindRow(existing, a.id);
    if IsLive(parse, nowMs, a) && found.Some? {
      var j := found.value;
      var row := r[j].(timeLeft := FormatTimeLeft(LiveSeconds(parse, nowMs, a)));
      assert Refreshed(existing, fs[..k + 1], parse, nowMs) == r[j := row];
      assert Appended(existing, fs[..k + 1], parse, nowMs) == app;
      assert (r + app)[j] == r[j];
      UpdateInPrefix(r, app, j, row);
    }
  }

  /** One iteration of the first loop, from the rows it finds to the rows it leaves. */
  lemma VisitRowsStep(existing: seq<Row>, fs: seq<Listing>, k: nat, parse: DateParser, nowMs: int,
                      rows: seq<Row>, rows': seq<Row>)
    requires k < |fs|
    requires rows == Refreshed(existing, fs[..k], parse, nowMs) + Appended(existing, fs[..k], parse, nowMs)
    requires var a := fs[k];
             var secs := LiveSeconds(parse, nowMs, a);
             var found := FindRow(existing, a.id);
             && (secs == 0 ==> rows' == rows)
             && (secs > 0 ==>
                   rows' == if found.Some?
                            then rows[found.value := rows[found.value].(timeLeft := FormatTimeLeft(secs))]
                            else rows + [Row(a.id, a.className, a.courseName, FormatTimeLeft(secs))])
    ensures rows' == Refreshed(existing, fs[..k + 1], parse, nowMs) + Appended(existing, fs[..k + 1], parse, nowMs)
  {
    RefreshStep(existing, fs, k, parse, nowMs);
  }

  /** One iteration of the first loop, from the timers it finds to the timers it leaves. */
  lemma VisitTimersStep(timers0: map<Text, Timer>, next0: nat, fs: seq<Listing>, k: nat,
                        parse: DateParser, nowMs: int,
                        timers: map<Text, Timer>, next: nat, timers': map<Text, Timer>, next': nat)
    requires k < |fs|
    requires timers == Started(timers0, fs[..k], parse, nowMs, next0)
    requires next == next0 + StartCount(fs[..k], parse, nowMs)
    requires var a := fs[k];
             && (!Starts(parse, nowMs, a) ==> timers' == timers && next' == next)
             && (Starts(parse, nowMs, a) ==>
                   timers' == timers[a.id := Timer(next, EndMillis(parse, a).value)] && next' == next + 1)
    ensures timers' == Started(timers0, fs[..k + 1], parse, nowMs, next0)
    ensures next' == next0 + StartCount(fs[..k + 1], parse, nowMs)
  {
    StartedStep(timers0, fs, k, parse, nowMs, next0);
  }

  lemma KeepStep(rows: seq<Row>, j: nat, ids: set<Text>)
    requires j < |rows|
    ensures KeepIds(rows[..j + 1], ids) == KeepIds(rows[..j], ids) + (if rows[j].id in ids then [rows[j]] else [])
  {
    assert rows[..j + 1][..j] == rows[..j];
  }

  /** The second loop's rows after visiting `mid[j]`. */
  lemma DropRowsStep(mid: seq<Row>, j: nat, ids: set<Text>)
    requires j < |mid|
    ensures var k := KeepIds(mid[..j], ids);
            var rows := k + mid[j..];
            && rows[|k|] == mid[j]
            && (mid[j].id in ids ==> KeepIds(mid[..j + 1], ids) + mid[j + 1..] == rows
                                     && |KeepIds(mid[..j + 1], ids)| == |k| + 1)
            && (mid[j].id !in ids ==> KeepIds(mid[..j + 1], ids) + mid[j + 1..] == rows[..|k|] + rows[|k| + 1..]
                                      && |KeepIds(mid[..j + 1], ids)| == |k|)
  {
    KeepStep(mid, j, ids);
    var k := KeepIds(mid[..j], ids);
    assert mid[j..] == [mid[j]] + mid[j + 1..];
    assert (k + mid[j..])[..|k|] == k;
    assert (k + mid[j..])[|k| + 1..] == mid[j + 1..];
  }

  /** The second loop's timers after visiting `existing[j]`. */
  lemma DropTimersStep(existing: seq<Row>, j: nat, ids: set<Text>, midTimers: map<Text, Timer>)
    requires j < |existing|
    ensures var before := midTimers - (RowIds(existing[..j]) - ids);
            var after := midTimers - (RowIds(existing[..j + 1]) - ids);
            && (existing[j].id in ids ==> after == before)
            && (existing[j].id !in ids ==> after == before - {existing[j].id})
  {
    RowIdsSnoc(existing, j);
  }

  lemma RowIdsSnoc(rows: seq<Row>, j: nat)
    requires j < |rows|
    ensures RowIds(rows[..j + 1]) == RowIds(rows[..j]) + {rows[j].id}
  {
    assert rows[..j + 1] == rows[..j] + [rows[j]];
    RowIdsAppend(rows[..j], rows[j]);
  }

  /** A listing without an existing row has no row yet when the first loop reaches it:
      the rows appended before it belong to other ids. */
  lemma NotYetShown(existing: seq<Row>, fs: seq<Listing>, k: nat, parse: DateParser, nowMs: int)
    requires k < |fs| && DistinctListings(fs) && fs[k].id !in RowIds(existing)
    ensures fs[k].id !in RowIds(Refreshed(existing, fs[..k], parse, nowMs) + Appended(existing, fs[..k], parse, nowMs))
  {
    var r := Refreshed(existing, fs[..k], parse, nowMs);
    var app := Appended(existing, fs[..k], parse, nowMs);
    var both: seq<Row> := r + app;
    forall p | 0 <= p < |both| ensures both[p].id != fs[k].id {
      if p < |r| {
        assert both[p].id == existing[p].id;
      } else {
        var x := app[p - |r|].id;
        assert x in LiveIds(parse, nowMs, fs[..k]);
        var i :| 0 <= i < k && fs[..k][i].id == x;
        assert fs[i].id == x;
      }
    }
  }

  // ===========================================================================
  // What a reconciliation leaves on the page

  lemma RowIdsConcat(a: seq<Row>, b: seq<Row>)
    ensures RowIds(a + b) == RowIds(a) + RowIds(b)
  {
    var ab := a + b;
    assert forall j | 0 <= j < |b| :: ab[|a| + j] == b[j];
    assert forall j | 0 <= j < |a| :: ab[j] == a[j];
  }

  lemma {:induction false} KeepIdsIds(rows: seq<Row>, ids: set<Text>)
    ensures RowIds(KeepIds(rows, ids)) == RowIds(rows) * ids
    decreases |rows|
  {
    if |rows| > 0 {
      var init := rows[..|rows| - 1];
      var last := rows[|rows| - 1];
      KeepIdsIds(init, ids);
      RowIdsConcat(KeepIds(init, ids), if last.id in ids then [last] else []);
      assert rows == init + [last];
      RowIdsAppend(init, last);
      assert RowIds([last]) == {last.id};
    }
  }

  lemma RefreshedIds(existing: seq<Row>, fs: seq<Listing>, parse: DateParser, nowMs: int)
    ensures RowIds(Refreshed(existing, fs, parse, nowMs)) == RowIds(existing)
  {
    var r := Refreshed(existing, fs, parse, nowMs);
    assert forall j | 0 <= j < |r| :: r[j].id == existing[j].id;
  }

  /** The rows appended are exactly those of the live sessions that had no row. */
  lemma {:induction false} AppendedIds(existing: seq<Row>, fs: seq<Listing>, parse: DateParser, nowMs: int)
    ensures RowIds(Appended(existing, fs, parse, nowMs)) == LiveIds(parse, nowMs, fs) - RowIds(existing)
    decreases |fs|
  {
    if |fs| > 0 {
      var init := fs[..|fs| - 1];
      var a := fs[|fs| - 1];
      AppendedIds(existing, init, parse, nowMs);
      RowIdsAppend(Appended(existing, init, parse, nowMs), NewRow(parse, nowMs, a));
    }
  }

  /** After `updateActiveAttendanceTable`, the table shows one row for each session that
      still has time left, and no other. */
  lemma ReconciledIds(existing: seq<Row>, fs: seq<Listing>, parse: DateParser, nowMs: int)
    ensures RowIds(Reconciled(existing, fs, parse, nowMs)) == LiveIds(parse, nowMs, fs)
  {
    var r := Refreshed(existing, fs, parse, nowMs);
    var live := LiveIds(parse, nowMs, fs);
    RowIdsConcat(KeepIds(r, live), Appended(existing, fs, parse, nowMs));
    KeepIdsIds(r, live);
    RefreshedIds(existing, fs, parse, nowMs);
    AppendedIds(existing, fs, parse, nowMs);
  }

  /** The ids that hold a countdown after the first loop: the ones that had one, and every
      live session with a non-empty id. */
  lemma {:induction false} StartedKeys(timers: map<Text, Timer>, fs: seq<Listing>, parse: DateParser, nowMs: int, next: nat)
    ensures Started(timers, fs, parse, nowMs, next).Keys == timers.Keys + (LiveIds(parse, nowMs, fs) - {[]})
    decreases |fs|
  {
    if |fs| > 0 {
      StartedKeys(timers, fs[..|fs| - 1], parse, nowMs, next);
    }
  }

  /** After `updateActiveAttendanceTable`, exactly the live sessions with a non-empty id
      have a countdown: the countdown of every removed row has been cleared. */
  lemma ReconciledTimerIds(existing: seq<Row>, timers: map<Text, Timer>, fs: seq<Listing>,
                           parse: DateParser, nowMs: int, next: nat)
    requires forall id | id in timers :: id != [] && id in RowIds(existing)
    ensures (Started(timers, fs, parse, nowMs, next) - (RowIds(existing) - LiveIds(parse, nowMs, fs))).Keys
            == LiveIds(parse, nowMs, fs) - {[]}
  {
    StartedKeys(timers, fs, parse, nowMs, next);
  }

  /** Each countdown the first loop starts counts down to its session's end, on an interval
      issued during this call. */
  lemma {:induction false} StartedTimer(timers: map<Text, Timer>, fs: seq<Listing>, parse: DateParser, nowMs: int,
                                        next: nat, i: nat)
    requires DistinctListings(fs) && i < |fs| && Starts(parse, nowMs, fs[i])
    ensures fs[i].id in Started(timers, fs, parse, nowMs, next)
    ensures Started(timers, fs, parse, nowMs, next)[fs[i].id].endMs == EndMillis(parse, fs[i]).value
    ensures Started(timers, fs, parse, nowMs, next)[fs[i].id].handle >= next
    decreases |fs|
  {
    var init := fs[..|fs| - 1];
    if i < |fs| - 1 {
      assert init[i] == fs[i];
      assert DistinctListings(init);
      StartedTimer(timers, init, parse, nowMs, next, i);
    }
  }

  /** A live session's existing row shows that session's time left once the first loop
      has visited it. */
  lemma {:induction false} RefreshedCell(existing: seq<Row>, fs: seq<Listing>, parse: DateParser, nowMs: int,
                                         j: nat, i: nat)
    requires DistinctIds(existing) && DistinctListings(fs)
    requires j < |existing| && i < |fs| && existing[j].id == fs[i].id && IsLive(parse, nowMs, fs[i])
    ensures Refreshed(existing, fs, parse, nowMs)[j].timeLeft == FormatTimeLeft(LiveSeconds(parse, nowMs, fs[i]))
    decreases |fs|
  {
    var init := fs[..|fs| - 1];
    var a := fs[|fs| - 1];
    var found := FindRow(existing, a.id);
    if i == |fs| - 1 {
      assert found.Some? && found.value == j;
    } else {
      assert init[i] == fs[i];
      assert DistinctListings(init);
      RefreshedCell(existing, init, parse, nowMs, j, i);
      assert found.Some? ==> found.value != j;
    }
  }

  /** Every appended row is the fresh row of some live session. */
  lemma {:induction false} AppendedRows(existing: seq<Row>, fs: seq<Listing>, parse: DateParser, nowMs: int, j: nat)
    requires j < |Appended(existing, fs, parse, nowMs)|
    ensures exists i | 0 <= i < |fs| :: IsLive(parse, nowMs, fs[i])
              && Appended(existing, fs, parse, nowMs)[j] == NewRow(parse, nowMs, fs[i])
    decreases |fs|
  {
    var init := fs[..|fs| - 1];
    var a := fs[|fs| - 1];
    var r := Appended(existing, init, parse, nowMs);
    var app := Appended(existing, fs, parse, nowMs);
    if j < |r| {
      assert app[j] == r[j];
      AppendedRows(existing, init, parse, nowMs, j);
      var i :| 0 <= i < |init| && IsLive(parse, nowMs, init[i]) && r[j] == NewRow(parse, nowMs, init[i]);
      assert init[i] == fs[i];
      assert IsLive(parse, nowMs, fs[i]) && app[j] == NewRow(parse, nowMs, fs[i]);
    } else {
      assert app == r + [NewRow(parse, nowMs, a)];
      assert IsLive(parse, nowMs, fs[|fs| - 1]) && app[j] == NewRow(parse, nowMs, fs[|fs| - 1]);
    }
  }

  /** Every row of the reconciled table shows the time left of the session it stands for. */
  lemma ShowsTimeLeft(existing: seq<Row>, fs: seq<Listing>, parse: DateParser, nowMs: int, j: nat, i: nat)
    requires DistinctIds(existing) && DistinctListings(fs)
    requires j < |Reconciled(existing, fs, parse, nowMs)| && i < |fs|
    requires Reconciled(existing, fs, parse, nowMs)[j].id == fs[i].id
    ensures IsLive(parse, nowMs, fs[i])
    ensures Reconciled(existing, fs, parse, nowMs)[j].timeLeft == FormatTimeLeft(LiveSeconds(parse, nowMs, fs[i]))
  {
    var live := LiveIds(parse, nowMs, fs);
    var r := Refreshed(existing, fs, parse, nowMs);
    var kept := KeepIds(r, live);
    var app := Appended(existing, fs, parse, nowMs);
    var both: seq<Row> := kept + app;
    var row := both[j];
    ReconciledIds(existing, fs, parse, nowMs);
    assert row.id in RowIds(both);
    var i' :| 0 <= i' < |fs| && fs[i'].id == row.id && IsLive(parse, nowMs, fs[i']);
    assert i' == i;
    if j < |kept| {
      assert row == kept[j];
      var p :| 0 <= p < |r| && r[p] == row;
      RefreshedCell(existing, fs, parse, nowMs, p, i);
    } else {
      assert row == app[j - |kept|];
      AppendedRows(existing, fs, parse, nowMs, j - |kept|);
      var q :| 0 <= q < |fs| && IsLive(parse, nowMs, fs[q]) && row == NewRow(parse, nowMs, fs[q]);
      assert q == i;
    }
  }
}
