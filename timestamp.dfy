/** The timestamp handling of the upload timeline: `datetime.strptime` with the
    format `%d/%b/%Y:%H:%M:%S %z`, `strftime` with `%Y/%m/%d %H:%M:%S`, and the
    sort key, which reads a formatted time back into a `datetime`.

    `strptime` turns its format into a regular expression in which every
    directive is an alternation of digit strings, the space becomes `\s+`, and
    the match must consume the whole input. Each directive is followed by a
    character it cannot contain, so each field is the text up to that
    character and must belong to the directive's language:
      %d  `3[0-1]|[1-2]\d|0[1-9]|[1-9]| [1-9]`  (01-31, 1-9, or space and 1-9)
      %b  a month abbreviation, in any letter case
      %Y  exactly four digits
      %H  `2[0-3]|[0-1]\d|\d`                  (00-23 or one digit)
      %M  `[0-5]\d|\d`                          (00-59 or one digit)
      %S  `6[0-1]|[0-5]\d|\d`                   (00-61 or one digit)
      %z  `+` or `-`, two hour digits, minutes 00-59
    `datetime` then rejects year 0, a day past the end of its month, seconds
    60 and 61, and `timezone` rejects an offset of 24 hours or more. */
module Timestamp {
  import opened Wrappers
  import opened Text

  /** The local fields of a parsed timestamp. */
  datatype DateTime = DateTime(year: int, month: int, day: int, hour: int, minute: int, second: int)

  /** A parsed Apache timestamp: the local time and its offset east of UTC,
      in minutes. */
  datatype Stamp = Stamp(local: DateTime, offset: int)

  /** The text before the first `sep`, and the text after it. */
  datatype Cut = Cut(head: string, tail: string)

  const MonthNames: seq<string> :=
    ["jan", "feb", "mar", "apr", "may", "jun", "jul", "aug", "sep", "oct", "nov", "dec"]

  predicate IsLeapYear(y: int) {
    y % 4 == 0 && (y % 100 != 0 || y % 400 == 0)
  }

  function DaysInMonth(y: int, m: int): (n: int)
    requires 1 <= m <= 12
    ensures 28 <= n <= 31
    ensures n == 29 <==> m == 2 && IsLeapYear(y)
  {
    if m == 2 then (if IsLeapYear(y) then 29 else 28)
    else if m == 4 || m == 6 || m == 9 || m == 11 then 30
    else 31
  }

  /** What `datetime` accepts, with a four-digit year. */
  predicate ValidDateTime(dt: DateTime) {
    1 <= dt.year <= 9999 && 1 <= dt.month <= 12 && 1 <= dt.day <= DaysInMonth(dt.year, dt.month)
    && 0 <= dt.hour < 24 && 0 <= dt.minute < 60 && 0 <= dt.second < 60
  }

  /** What `timezone` accepts: strictly less than a day either way. */
  predicate ValidStamp(st: Stamp) {
    ValidDateTime(st.local) && -24 * 60 < st.offset < 24 * 60
  }

  // ---------------------------------------------------------------------
  // Reading fields

  function DigitValue(c: char): int {
    c as int - '0' as int
  }

  function DigitChar(d: int): (c: char)
    requires 0 <= d < 10
    ensures IsDigit(c) && DigitValue(c) == d
  {
    ('0' as int + d) as char
  }

  /** The length of the leading run of `s` whose characters satisfy `inRun`. */
  function Span(s: string, inRun: char -> bool): (n: nat)
    ensures n <= |s|
    ensures forall i :: 0 <= i < n ==> inRun(s[i])
    ensures n < |s| ==> !inRun(s[n])
  {
    if s == [] || !inRun(s[0]) then 0 else 1 + Span(s[1..], inRun)
  }

  /** Splits `s` at its first `sep`; `None` when there is none. */
  function CutAt(s: string, sep: char): (r: Option<Cut>)
    ensures r.Some? ==> sep !in r.value.head && s == r.value.head + [sep] + r.value.tail
    ensures r.None? ==> sep !in s
  {
    var n := Span(s, c => c != sep);
    if n < |s| then
      assert s == s[..n] + [sep] + s[n + 1..];
      Some(Cut(s[..n], s[n + 1..]))
    else None
  }

  /** Two digits are the zero-padded spelling of their value. */
  lemma Pad2Digits(t: string)
    requires |t| == 2 && IsDigit(t[0]) && IsDigit(t[1])
    ensures Pad2(10 * DigitValue(t[0]) + DigitValue(t[1])) == t
  {
  }

  /** How `%H`, `%M` and `%S` may spell `n`: two digits, or just one. */
  predicate SmallText(t: string, n: int) {
    (0 <= n < 100 && t == Pad2(n)) || (0 <= n < 10 && t == [DigitChar(n)])
  }

  /** How `%d` may spell `n`: as `%H` may, or a space and one digit. */
  predicate DayText(t: string, n: int) {
    SmallText(t, n) || (0 <= n < 10 && t == [' ', DigitChar(n)])
  }

  /** `3[0-1]|[1-2]\d|0[1-9]|[1-9]| [1-9]`, read as `int` reads it. */
  function DayNumber(t: string): (r: Option<int>)
    ensures r.Some? ==> 1 <= r.value <= 31 && DayText(t, r.value)
    ensures r.Some? <==> (|t| == 1 && '1' <= t[0] <= '9')
                         || (|t| == 2 && t[0] == ' ' && '1' <= t[1] <= '9')
                         || (|t| == 2 && IsDigit(t[0]) && IsDigit(t[1]) && 1 <= 10 * DigitValue(t[0]) + DigitValue(t[1]) <= 31)
  {
    if |t| == 1 && '1' <= t[0] <= '9' then
      assert t == [DigitChar(DigitValue(t[0]))];
      Some(DigitValue(t[0]))
    else if |t| == 2 && t[0] == ' ' && '1' <= t[1] <= '9' then
      assert t == [' ', DigitChar(DigitValue(t[1]))];
      Some(DigitValue(t[1]))
    else if |t| == 2 && IsDigit(t[0]) && IsDigit(t[1]) then
      var n := 10 * DigitValue(t[0]) + DigitValue(t[1]);
      Pad2Digits(t);
      if 1 <= n <= 31 then Some(n) else None
    else None
  }

  /** One digit, or two digits worth at most `max`: the shape of `%H`
      (`max` 23), `%M` (59) and `%S` (61). */
  function SmallNumber(t: string, max: int): (r: Option<int>)
    requires 9 <= max <= 99
    ensures r.Some? ==> 0 <= r.value <= max && SmallText(t, r.value)
    ensures r.Some? <==> (|t| == 1 && IsDigit(t[0]))
                         || (|t| == 2 && IsDigit(t[0]) && IsDigit(t[1]) && 10 * DigitValue(t[0]) + DigitValue(t[1]) <= max)
  {
    if |t| == 1 && IsDigit(t[0]) then
      assert t == [DigitChar(DigitValue(t[0]))];
      Some(DigitValue(t[0]))
    else if |t| == 2 && IsDigit(t[0]) && IsDigit(t[1]) then
      var n := 10 * DigitValue(t[0]) + DigitValue(t[1]);
      Pad2Digits(t);
      if n <= max then Some(n) else None
    else None
  }

  /** `%Y`: exactly four digits. */
  function YearNumber(t: string): (r: Option<int>)
    ensures r.Some? <==> |t| == 4 && AllDigits(t)
    ensures r.Some? ==> 0 <= r.value <= 9999 && t == Pad4(r.value)
  {
    if |t| == 4 && IsDigit(t[0]) && IsDigit(t[1]) && IsDigit(t[2]) && IsDigit(t[3]) then
      Pad4Digits(t);
      Some(1000 * DigitValue(t[0]) + 100 * DigitValue(t[1]) + 10 * DigitValue(t[2]) + DigitValue(t[3]))
    else None
  }

  /** Four digits are the zero-padded spelling of their value. */
  lemma Pad4Digits(t: string)
    requires |t| == 4 && AllDigits(t)
    ensures Pad4(1000 * DigitValue(t[0]) + 100 * DigitValue(t[1]) + 10 * DigitValue(t[2]) + DigitValue(t[3])) == t
  {
    var n := 1000 * DigitValue(t[0]) + 100 * DigitValue(t[1]) + 10 * DigitValue(t[2]) + DigitValue(t[3]);
    assert n / 100 == 10 * DigitValue(t[0]) + DigitValue(t[1]) && n % 100 == 10 * DigitValue(t[2]) + DigitValue(t[3]);
    Pad2Digits(t[..2]);
    Pad2Digits(t[2..]);
    assert t == t[..2] + t[2..];
  }

  function LowerAscii(c: char): char {
    if 'A' <= c <= 'Z' then (c as int + 32) as char else c
  }

  /** `%b`: the month whose abbreviation `t` spells, ignoring letter case. */
  function MonthNumber(t: string): (r: Option<int>)
    ensures r.Some? ==> 1 <= r.value <= 12 && |t| == 3
                        && MonthNames[r.value - 1] == [LowerAscii(t[0]), LowerAscii(t[1]), LowerAscii(t[2])]
    ensures r.None? ==> |t| != 3 || [LowerAscii(t[0]), LowerAscii(t[1]), LowerAscii(t[2])] !in MonthNames
  {
    if |t| != 3 then None
    else MonthFrom([LowerAscii(t[0]), LowerAscii(t[1]), LowerAscii(t[2])], 0)
  }

  /** One plus the position of `low` in `MonthNames` at or after `i`. */
  function MonthFrom(low: string, i: nat): (r: Option<int>)
    requires |low| == 3 && i <= 12
    ensures r.Some? ==> i < r.value <= 12 && MonthNames[r.value - 1] == low
    ensures r.None? ==> low !in MonthNames[i..]
    decreases 12 - i
  {
    if i == 12 then None
    else
      var name := MonthNames[i];
      if name[0] == low[0] && name[1] == low[1] && name[2] == low[2] then
        assert name == low;
        Some(i + 1)
      else MonthFrom(low, i + 1)
  }

  /** How `%b` may spell month `m`: its abbreviation, in any letter case. */
  predicate MonthText(t: string, m: int) {
    1 <= m <= 12 && |t| == 3 && [LowerAscii(t[0]), LowerAscii(t[1]), LowerAscii(t[2])] == MonthNames[m - 1]
  }

  /** How `%z` may spell an offset: as Apache writes it, or `-0000` for 0. */
  predicate OffsetSpelled(z: string, offset: int) {
    -24 * 60 < offset < 24 * 60 && (z == OffsetText(offset) || (offset == 0 && z == "-0000"))
  }

  /** `%z` as `+HHMM` or `-HHMM`, in minutes east of UTC; `None` for an hour
      of 24 or more, which `timezone` refuses. */
  function OffsetMinutes(z: string): (r: Option<int>)
    ensures r.Some? ==> -24 * 60 < r.value < 24 * 60 && OffsetSpelled(z, r.value)
    ensures r.Some? <==> |z| == 5 && (z[0] == '+' || z[0] == '-') && IsDigit(z[1]) && IsDigit(z[2])
                         && '0' <= z[3] <= '5' && IsDigit(z[4]) && 10 * DigitValue(z[1]) + DigitValue(z[2]) <= 23
  {
    if |z| == 5 && (z[0] == '+' || z[0] == '-') && IsDigit(z[1]) && IsDigit(z[2])
       && '0' <= z[3] <= '5' && IsDigit(z[4])
    then
      var hours := 10 * DigitValue(z[1]) + DigitValue(z[2]);
      var minutes := 10 * DigitValue(z[3]) + DigitValue(z[4]);
      if hours > 23 then None
      else
        OffsetDigits(z);
        if z[0] == '-' then Some(-(hours * 60 + minutes))
        else Some(hours * 60 + minutes)
    else None
  }

  /** An offset text `strptime` reads is Apache's spelling of the offset,
      except `-0000`. */
  lemma OffsetDigits(z: string)
    requires |z| == 5 && (z[0] == '+' || z[0] == '-') && IsDigit(z[1]) && IsDigit(z[2])
             && '0' <= z[3] <= '5' && IsDigit(z[4]) && 10 * DigitValue(z[1]) + DigitValue(z[2]) <= 23
    ensures var a := 60 * (10 * DigitValue(z[1]) + DigitValue(z[2])) + 10 * DigitValue(z[3]) + DigitValue(z[4]);
            OffsetSpelled(z, if z[0] == '-' then -a else a)
  {
    var hours := 10 * DigitValue(z[1]) + DigitValue(z[2]);
    var minutes := 10 * DigitValue(z[3]) + DigitValue(z[4]);
    var a := 60 * hours + minutes;
    assert a / 60 == hours && a % 60 == minutes;
    Pad2Digits(z[1..3]);
    Pad2Digits(z[3..]);
    assert z == [z[0]] + (z[1..3] + z[3..]);
    if z[0] == '-' && a == 0 {
      assert z[1..3] == "00" && z[3..] == "00";
    }
  }

  /** The fields after the year: hour, minute, second and offset, each as
      its directive reads it. */
  datatype Clock = Clock(hour: int, minute: int, second: int, offset: int)

  predicate NotSpace(c: char) {
    !IsSpace(c)
  }

  /** The text of `%S %z` cut at its whitespace: the text before the first
      whitespace, the run of whitespace, and the rest. */
  datatype ZoneCut = ZoneCut(second: string, gap: string, zone: string)

  /** Cuts `s` where `\s+` matches; `None` when it has no whitespace. */
  function CutZone(s: string): (r: Option<ZoneCut>)
    ensures r.Some? ==> s == r.value.second + (r.value.gap + r.value.zone)
                        && r.value.gap != [] && AllSpace(r.value.gap)
    ensures r.None? ==> NoSpace(s)
  {
    var sec := Span(s, NotSpace);
    if sec == |s| then
      assert forall i :: 0 <= i < |s| ==> NotSpace(s[i]);
      None
    else
      var rest := s[sec..];
      var gap := Span(rest, IsSpace);
      assert rest[0] == s[sec];
      CutZoneParts(s, sec, gap);
      Some(ZoneCut(s[..sec], rest[..gap], rest[gap..]))
  }

  /** The pieces `CutZone` returns put `s` back together. */
  lemma CutZoneParts(s: string, sec: nat, gap: nat)
    requires sec <= |s| && gap <= |s| - sec
    requires forall i :: 0 <= i < gap ==> IsSpace(s[sec..][i])
    ensures s == s[..sec] + (s[sec..][..gap] + s[sec..][gap..])
    ensures AllSpace(s[sec..][..gap])
  {
    var rest := s[sec..];
    assert rest == rest[..gap] + rest[gap..];
    assert s == s[..sec] + rest;
  }

  /** `%S %z`: the seconds, a run of whitespace, and the offset, which must
      end the text. */
  function ParseZone(s: string): (r: Option<(int, int)>)
    ensures r.Some? ==> 0 <= r.value.0 <= 61 && -24 * 60 < r.value.1 < 24 * 60
  {
    var cut :- CutZone(s);
    var second :- SmallNumber(cut.second, 61);
    var offset :- OffsetMinutes(cut.zone);
    Some((second, offset))
  }

  /** `%H:%M:%S %z`. */
  function ParseClock(s: string): (r: Option<Clock>)
    ensures r.Some? ==> 0 <= r.value.hour <= 23 && 0 <= r.value.minute <= 59 && 0 <= r.value.second <= 61
                        && -24 * 60 < r.value.offset < 24 * 60
  {
    var h :- CutAt(s, ':');
    var hour :- SmallNumber(h.head, 23);
    var m :- CutAt(h.tail, ':');
    var minute :- SmallNumber(m.head, 59);
    var zone :- ParseZone(m.tail);
    Some(Clock(hour, minute, zone.0, zone.1))
  }

  /** `datetime.strptime(s, '%d/%b/%Y:%H:%M:%S %z')`; `None` where it raises
      `ValueError`. The text is cut at its first `/`, the next `/` and the
      next `:`, and the four pieces are read as fields. */
  function ParseTimestamp(s: string): (r: Option<Stamp>)
    ensures r.Some? ==> ValidStamp(r.value)
  {
    var d :- CutAt(s, '/');
    var b :- CutAt(d.tail, '/');
    var y :- CutAt(b.tail, ':');
    ReadStamp(d.head, b.head, y.head, y.tail)
  }

  /** Reads `%d`, `%b`, `%Y` and `%H:%M:%S %z`, then applies the checks of
      `datetime` and `timezone`. */
  function ReadStamp(dayText: string, monthText: string, yearText: string, clockText: string): (r: Option<Stamp>)
    ensures r.Some? ==> ValidStamp(r.value)
  {
    var day :- DayNumber(dayText);
    var month :- MonthNumber(monthText);
    var year :- YearNumber(yearText);
    var clock :- ParseClock(clockText);
    if year == 0 || day > DaysInMonth(year, month) || clock.second > 59 then None
    else Some(Stamp(DateTime(year, month, day, clock.hour, clock.minute, clock.second), clock.offset))
  }

  // ---------------------------------------------------------------------
  // Writing fields

  function Pad2(n: int): (r: string)
    requires 0 <= n < 100
    ensures |r| == 2 && IsDigit(r[0]) && IsDigit(r[1]) && 10 * DigitValue(r[0]) + DigitValue(r[1]) == n
  {
    [DigitChar(n / 10), DigitChar(n % 10)]
  }

  function Pad4(n: int): (r: string)
    requires 0 <= n < 10000
    ensures |r| == 4 && AllDigits(r)
    ensures 1000 * DigitValue(r[0]) + 100 * DigitValue(r[1]) + 10 * DigitValue(r[2]) + DigitValue(r[3]) == n
  {
    var hi, lo := Pad2(n / 100), Pad2(n % 100);
    assert 100 * (10 * DigitValue(hi[0]) + DigitValue(hi[1])) + 10 * DigitValue(lo[0]) + DigitValue(lo[1]) == n;
    hi + lo
  }

  /** `strftime('%Y/%m/%d %H:%M:%S')`: every field zero-padded, so the text
      always has 19 characters. */
  function FormatTime(dt: DateTime): (r: string)
    requires ValidDateTime(dt)
    ensures |r| == 19
  {
    Pad4(dt.year) + "/" + Pad2(dt.month) + "/" + Pad2(dt.day) + " "
    + Pad2(dt.hour) + ":" + Pad2(dt.minute) + ":" + Pad2(dt.second)
  }

  function Digits2(s: string, i: nat): int
    requires i + 2 <= |s|
  {
    10 * DigitValue(s[i]) + DigitValue(s[i + 1])
  }

  /** Reads a time written by `FormatTime` back into its fields: the
      `datetime.strptime(x['time'], '%Y/%m/%d %H:%M:%S')` of the sort key,
      on the only texts it is given. */
  function DecodeTime(s: string): (r: Option<DateTime>)
    ensures r.Some? ==> |s| == 19 && s[4] == '/' && s[7] == '/' && s[10] == ' ' && s[13] == ':' && s[16] == ':'
  {
    if |s| == 19 && s[4] == '/' && s[7] == '/' && s[10] == ' ' && s[13] == ':' && s[16] == ':'
       && AllDigits(s[..4]) && IsDigit(s[5]) && IsDigit(s[6]) && IsDigit(s[8]) && IsDigit(s[9])
       && IsDigit(s[11]) && IsDigit(s[12]) && IsDigit(s[14]) && IsDigit(s[15])
       && IsDigit(s[17]) && IsDigit(s[18])
    then
      Some(DateTime(1000 * DigitValue(s[0]) + 100 * DigitValue(s[1]) + 10 * DigitValue(s[2]) + DigitValue(s[3]),
                    Digits2(s, 5), Digits2(s, 8), Digits2(s, 11), Digits2(s, 14), Digits2(s, 17)))
    else None
  }

  /** Reading a formatted time gives back the time that was formatted. */
  lemma DecodeFormatTime(dt: DateTime)
    requires ValidDateTime(dt)
    ensures DecodeTime(FormatTime(dt)) == Some(dt)
  {
    var s := FormatTime(dt);
    var y, mo, d, h, mi, se := Pad4(dt.year), Pad2(dt.month), Pad2(dt.day), Pad2(dt.hour), Pad2(dt.minute), Pad2(dt.second);
    assert s[..4] == y;
    assert s[4] == '/' && s[5] == mo[0] && s[6] == mo[1];
    assert s[7] == '/' && s[8] == d[0] && s[9] == d[1];
    assert s[10] == ' ' && s[11] == h[0] && s[12] == h[1];
    assert s[13] == ':' && s[14] == mi[0] && s[15] == mi[1];
    assert s[16] == ':' && s[17] == se[0] && s[18] == se[1];
  }

  /** Python compares naive datetimes field by field, year first. */
  predicate Earlier(a: DateTime, b: DateTime) {
    a.year < b.year
    || (a.year == b.year && (a.month < b.month
    || (a.month == b.month && (a.day < b.day
    || (a.day == b.day && (a.hour < b.hour
    || (a.hour == b.hour && (a.minute < b.minute
    || (a.minute == b.minute && a.second < b.second)))))))))
  }

  /** The fields as one number, so that a sort by time is a sort by `int`. */
  function TimeKey(dt: DateTime): (k: int)
    ensures ValidDateTime(dt) ==> k % 60 == dt.second && k / 60 % 60 == dt.minute && k / 3600 % 24 == dt.hour
  {
    var days := (dt.year * 13 + dt.month) * 32 + dt.day;
    var hours := days * 24 + dt.hour;
    var minutes := hours * 60 + dt.minute;
    var k := minutes * 60 + dt.second;
    if ValidDateTime(dt) then
      assert k / 60 == minutes && k % 60 == dt.second;
      assert minutes / 60 == hours && minutes % 60 == dt.minute;
      assert k / 3600 == hours;
      k
    else k
  }

  /** `TimeKey` orders valid times as Python orders `datetime`s. */
  lemma TimeKeyOrder(a: DateTime, b: DateTime)
    requires ValidDateTime(a) && ValidDateTime(b)
    ensures TimeKey(a) < TimeKey(b) <==> Earlier(a, b)
    ensures TimeKey(a) == TimeKey(b) <==> a == b
  {
    var da := ((a.year * 13 + a.month) * 32 + a.day) * 24 + a.hour;
    var db := ((b.year * 13 + b.month) * 32 + b.day) * 24 + b.hour;
    assert da < db <==> Earlier(DateTime(a.year, a.month, a.day, a.hour, 0, 0), DateTime(b.year, b.month, b.day, b.hour, 0, 0));
  }

  // ---------------------------------------------------------------------
  // The Apache timestamp, written out: the inverse of ParseTimestamp

  const MonthAbbreviations: seq<string> :=
    ["Jan", "Feb", "Mar", "Apr", "May", "Jun", "Jul", "Aug", "Sep", "Oct", "Nov", "Dec"]

  /** `%z` as Apache writes it. */
  function OffsetText(offset: int): string
    requires -24 * 60 < offset < 24 * 60
  {
    var z := if offset < 0 then -offset else offset;
    (if offset < 0 then "-" else "+") + (Pad2(z / 60) + Pad2(z % 60))
  }

  function ZoneText(second: int, offset: int): string
    requires 0 <= second < 60 && -24 * 60 < offset < 24 * 60
  {
    Pad2(second) + (" " + OffsetText(offset))
  }

  function ClockText(dt: DateTime, offset: int): string
    requires ValidDateTime(dt) && -24 * 60 < offset < 24 * 60
  {
    Pad2(dt.hour) + (":" + (Pad2(dt.minute) + (":" + ZoneText(dt.second, offset))))
  }

  /** `%d/%b/%Y:%H:%M:%S %z` as Apache writes it. */
  function ApacheText(st: Stamp): string
    requires ValidStamp(st)
  {
    var dt := st.local;
    Pad2(dt.day) + ("/" + (MonthAbbreviations[dt.month - 1] + ("/" + (Pad4(dt.year) + (":"
    + ClockText(dt, st.offset))))))
  }

  /** A run that ends where a character outside it begins is found whole. */
  lemma SpanOf(a: string, b: string, inRun: char -> bool)
    requires forall i :: 0 <= i < |a| ==> inRun(a[i])
    requires b != [] && !inRun(b[0])
    ensures Span(a + b, inRun) == |a|
  {
    assert (a + b)[|a|] == b[0];
    assert forall i :: 0 <= i < |a| ==> (a + b)[i] == a[i];
  }

  lemma CutAtOf(a: string, sep: char, b: string)
    requires sep !in a
    ensures CutAt(a + ([sep] + b), sep) == Some(Cut(a, b))
  {
    SpanOf(a, [sep] + b, c => c != sep);
    var s := a + ([sep] + b);
    assert s[..|a|] == a && s[|a| + 1..] == b;
  }

  /** Apache's month abbreviation, lower-cased, is the month's name. */
  lemma LowerAbbreviation(m: int)
    requires 1 <= m <= 12
    ensures var t := MonthAbbreviations[m - 1];
            |t| == 3 && [LowerAscii(t[0]), LowerAscii(t[1]), LowerAscii(t[2])] == MonthNames[m - 1]
  {
  }

  /** Each month name is found at its own place: no earlier name equals it. */
  lemma MonthFromName(k: nat)
    requires k < 12
    ensures MonthFrom(MonthNames[k], 0) == Some(k + 1)
  {
    if k < 6 {
      if k == 0 {} else if k == 1 {} else if k == 2 {} else if k == 3 {} else if k == 4 {} else {}
    } else {
      MonthFromLate(k);
    }
  }

  lemma MonthFromLate(k: nat)
    requires 6 <= k < 12
    ensures MonthFrom(MonthNames[k], 0) == Some(k + 1)
  {
    if k == 6 {} else if k == 7 {} else if k == 8 {} else { MonthFromLast(k); }
  }

  lemma MonthFromLast(k: nat)
    requires 9 <= k < 12
    ensures MonthFrom(MonthNames[k], 0) == Some(k + 1)
  {
    if k == 9 {} else if k == 10 {} else {}
  }

  lemma MonthNumberOf(m: int)
    requires 1 <= m <= 12
    ensures MonthNumber(MonthAbbreviations[m - 1]) == Some(m)
  {
    LowerAbbreviation(m);
    MonthFromName(m - 1);
  }

  /** A field `%H`, `%M` or `%S` may spell reads back as its value, and holds
      no separator. */
  lemma SmallTextReads(t: string, n: int, max: int)
    requires SmallText(t, n) && n <= max && 9 <= max <= 99
    ensures SmallNumber(t, max) == Some(n)
    ensures ':' !in t && '/' !in t && t != [] && NoSpace(t)
  {
  }

  lemma DayTextReads(t: string, n: int)
    requires DayText(t, n) && 1 <= n <= 31
    ensures DayNumber(t) == Some(n) && '/' !in t
  {
  }

  lemma YearNumberPad4(n: int)
    requires 0 <= n < 10000
    ensures YearNumber(Pad4(n)) == Some(n) && ':' !in Pad4(n)
  {
  }

  /** A month spelled in any letter case reads as that month; a lower-cased
      slash is still a slash, so the spelling holds none. */
  lemma MonthTextReads(t: string, m: int)
    requires MonthText(t, m)
    ensures MonthNumber(t) == Some(m) && '/' !in t
  {
    MonthTextMonth(t, m);
    MonthTextNoSlash(t, m);
  }

  lemma MonthTextMonth(t: string, m: int)
    requires MonthText(t, m)
    ensures MonthNumber(t) == Some(m)
  {
    MonthFromName(m - 1);
  }

  lemma MonthTextNoSlash(t: string, m: int)
    requires MonthText(t, m)
    ensures '/' !in t
  {
    var name := MonthNames[m - 1];
    assert '/' !in name;
    assert forall i :: 0 <= i < 3 ==> LowerAscii(t[i]) == name[i];
  }

  lemma OffsetSpelledReads(z: string, offset: int)
    requires OffsetSpelled(z, offset)
    ensures OffsetMinutes(z) == Some(offset)
    ensures z != [] && !IsSpace(z[0])
  {
  }

  /** The text of the seconds, the whitespace `\s+` matches, and the offset. */
  lemma ParseZoneOf(secondText: string, gap: string, zone: string, second: int, offset: int)
    requires SmallText(secondText, second) && second <= 61
    requires gap != [] && AllSpace(gap) && OffsetSpelled(zone, offset)
    ensures ParseZone(secondText + (gap + zone)) == Some((second, offset))
  {
    var s := secondText + (gap + zone);
    SmallTextReads(secondText, second, 61);
    OffsetSpelledReads(zone, offset);
    SpanOf(secondText, gap + zone, NotSpace);
    assert s[|secondText|..] == gap + zone;
    SpanOf(gap, zone, IsSpace);
    assert CutZone(s) == Some(ZoneCut(secondText, gap, zone));
  }

  /** The texts of the clock fields `%H:%M:%S %z`, and the whitespace that
      separates the seconds from the offset. */
  datatype ClockSpelling = ClockSpelling(hour: string, minute: string, second: string, gap: string, zone: string)

  function ClockJoined(c: ClockSpelling): string {
    c.hour + (":" + (c.minute + (":" + (c.second + (c.gap + c.zone)))))
  }

  /** `c` spells the clock `k` in one of the ways `strptime` reads. */
  predicate ClockSpells(c: ClockSpelling, k: Clock) {
    SmallText(c.hour, k.hour) && k.hour <= 23 && SmallText(c.minute, k.minute) && k.minute <= 59
    && SmallText(c.second, k.second) && k.second <= 61
    && c.gap != [] && AllSpace(c.gap) && OffsetSpelled(c.zone, k.offset)
  }

  lemma ParseClockOf(c: ClockSpelling, k: Clock)
    requires ClockSpells(c, k)
    ensures ParseClock(ClockJoined(c)) == Some(k)
  {
    var zone := c.second + (c.gap + c.zone);
    SmallTextReads(c.hour, k.hour, 23);
    SmallTextReads(c.minute, k.minute, 59);
    CutAtOf(c.hour, ':', c.minute + (":" + zone));
    CutAtOf(c.minute, ':', zone);
    ParseZoneOf(c.second, c.gap, c.zone, k.second, k.offset);
  }

  /** The pieces `ParseClock` cut an accepted text into. */
  lemma ClockPieces(s: string) returns (c: ClockSpelling)
    requires ParseClock(s).Some?
    ensures ClockSpells(c, ParseClock(s).value) && ClockJoined(c) == s
  {
    var h := CutAt(s, ':').value;
    var m := CutAt(h.tail, ':').value;
    var z := CutZone(m.tail).value;
    var hour, minute := SmallNumber(h.head, 23).value, SmallNumber(m.head, 59).value;
    var k := Clock(hour, minute, SmallNumber(z.second, 61).value, OffsetMinutes(z.zone).value);
    assert ParseClock(s).value == k;
    c := ClockSpelling(h.head, m.head, z.second, z.gap, z.zone);
    assert SmallText(c.hour, k.hour) && k.hour <= 23;
    assert SmallText(c.minute, k.minute) && k.minute <= 59;
    assert ClockSpells(c, k);
    ConcatAssoc(h.head, ":", h.tail);
    ConcatAssoc(m.head, ":", m.tail);
    assert s == h.head + (":" + (m.head + (":" + m.tail)));
  }

  /** `%H:%M:%S %z` accepts exactly the spellings of a clock, and reads each
      as the clock it spells. */
  lemma ParseClockSpelled(s: string, k: Clock)
    ensures ParseClock(s) == Some(k) <==> exists c :: ClockSpells(c, k) && ClockJoined(c) == s
  {
    if ParseClock(s) == Some(k) {
      var c := ClockPieces(s);
    }
    if c :| ClockSpells(c, k) && ClockJoined(c) == s {
      ParseClockOf(c, k);
    }
  }

  /** The field texts of a timestamp. */
  datatype Spelling = Spelling(day: string, month: string, year: string, clock: ClockSpelling)

  function Joined(sp: Spelling): string {
    sp.day + ("/" + (sp.month + ("/" + (sp.year + (":" + ClockJoined(sp.clock))))))
  }

  /** `sp` spells `st` in one of the ways `%d/%b/%Y:%H:%M:%S %z` reads. */
  predicate Spells(sp: Spelling, st: Stamp) {
    var dt := st.local;
    DayText(sp.day, dt.day) && MonthText(sp.month, dt.month) && 0 <= dt.year < 10000 && sp.year == Pad4(dt.year)
    && ClockSpells(sp.clock, Clock(dt.hour, dt.minute, dt.second, st.offset))
  }

  /** The fields are read exactly when each text spells its field and the
      result is a valid `datetime` and `timezone`. */
  lemma ReadStampSpelled(dayText: string, monthText: string, yearText: string, clockText: string, st: Stamp)
    ensures ReadStamp(dayText, monthText, yearText, clockText) == Some(st) <==>
            ValidStamp(st) && DayText(dayText, st.local.day) && MonthText(monthText, st.local.month)
            && yearText == Pad4(st.local.year)
            && ParseClock(clockText) == Some(Clock(st.local.hour, st.local.minute, st.local.second, st.offset))
  {
    var dt := st.local;
    if ReadStamp(dayText, monthText, yearText, clockText) == Some(st) {
      SpelledOfReadStamp(dayText, monthText, yearText, clockText, st);
    }
    if ValidStamp(st) && DayText(dayText, dt.day) && MonthText(monthText, dt.month) && yearText == Pad4(dt.year) {
      ReadStampOfSpelled(dayText, monthText, yearText, clockText, st);
    }
  }

  /** The `==>` half of `ReadStampSpelled`. */
  lemma SpelledOfReadStamp(dayText: string, monthText: string, yearText: string, clockText: string, st: Stamp)
    requires ReadStamp(dayText, monthText, yearText, clockText) == Some(st)
    ensures ValidStamp(st) && DayText(dayText, st.local.day) && MonthText(monthText, st.local.month)
            && yearText == Pad4(st.local.year)
            && ParseClock(clockText) == Some(Clock(st.local.hour, st.local.minute, st.local.second, st.offset))
  {
    var day, month, year := DayNumber(dayText), MonthNumber(monthText), YearNumber(yearText);
    var clock := ParseClock(clockText);
    assert day.Some? && month.Some? && year.Some? && clock.Some?;
    assert st.local == DateTime(year.value, month.value, day.value, clock.value.hour, clock.value.minute, clock.value.second);
    assert st.offset == clock.value.offset;
  }

  /** The `<==` half of `ReadStampSpelled`. */
  lemma ReadStampOfSpelled(dayText: string, monthText: string, yearText: string, clockText: string, st: Stamp)
    requires ValidStamp(st) && DayText(dayText, st.local.day) && MonthText(monthText, st.local.month)
    requires yearText == Pad4(st.local.year)
    ensures ParseClock(clockText) == Some(Clock(st.local.hour, st.local.minute, st.local.second, st.offset)) ==>
            ReadStamp(dayText, monthText, yearText, clockText) == Some(st)
  {
    DayTextReads(dayText, st.local.day);
    MonthTextReads(monthText, st.local.month);
    YearNumberPad4(st.local.year);
  }

  /** Texts free of the separators, joined by them, are cut back into
      those texts. */
  lemma ParseTimestampOf(dayText: string, monthText: string, yearText: string, clockText: string)
    requires '/' !in dayText && '/' !in monthText && ':' !in yearText
    ensures ParseTimestamp(dayText + ("/" + (monthText + ("/" + (yearText + (":" + clockText))))))
            == ReadStamp(dayText, monthText, yearText, clockText)
  {
    CutsOf(dayText, monthText, yearText, clockText);
  }

  lemma CutsOf(dayText: string, monthText: string, yearText: string, clockText: string)
    requires '/' !in dayText && '/' !in monthText && ':' !in yearText
    ensures var yearRest := yearText + (":" + clockText);
            var monthRest := monthText + ("/" + yearRest);
            CutAt(dayText + ("/" + monthRest), '/') == Some(Cut(dayText, monthRest))
            && CutAt(monthRest, '/') == Some(Cut(monthText, yearRest))
            && CutAt(yearRest, ':') == Some(Cut(yearText, clockText))
  {
    var yearRest := yearText + (":" + clockText);
    var monthRest := monthText + ("/" + yearRest);
    CutAtOf(dayText, '/', monthRest);
    CutAtOf(monthText, '/', yearRest);
    CutAtOf(yearText, ':', clockText);
  }

  lemma ParseSpelling(sp: Spelling, st: Stamp)
    requires ValidStamp(st) && Spells(sp, st)
    ensures ParseTimestamp(Joined(sp)) == Some(st)
  {
    var dt := st.local;
    DayTextReads(sp.day, dt.day);
    MonthTextReads(sp.month, dt.month);
    YearNumberPad4(dt.year);
    ParseClockOf(sp.clock, Clock(dt.hour, dt.minute, dt.second, st.offset));
    ParseTimestampOf(sp.day, sp.month, sp.year, ClockJoined(sp.clock));
    ReadStampSpelled(sp.day, sp.month, sp.year, ClockJoined(sp.clock), st);
  }

  /** `strptime(s, '%d/%b/%Y:%H:%M:%S %z')` succeeds exactly when `s` spells
      a valid time and offset, and then gives that time and offset: every
      other text makes it raise. */
  lemma ParseTimestampSpelled(s: string, st: Stamp)
    ensures ParseTimestamp(s) == Some(st) <==> ValidStamp(st) && exists sp :: Spells(sp, st) && Joined(sp) == s
  {
    if ParseTimestamp(s) == Some(st) {
      var sp := StampPieces(s);
    }
    if ValidStamp(st) && exists sp :: Spells(sp, st) && Joined(sp) == s {
      var sp :| Spells(sp, st) && Joined(sp) == s;
      ParseSpelling(sp, st);
    }
  }

  /** The pieces `ParseTimestamp` cut an accepted text into. */
  lemma StampPieces(s: string) returns (sp: Spelling)
    requires ParseTimestamp(s).Some?
    ensures Spells(sp, ParseTimestamp(s).value) && Joined(sp) == s
  {
    var st := ParseTimestamp(s).value;
    var d := CutAt(s, '/').value;
    var b := CutAt(d.tail, '/').value;
    var y := CutAt(b.tail, ':').value;
    assert ReadStamp(d.head, b.head, y.head, y.tail) == Some(st);
    ReadStampSpelled(d.head, b.head, y.head, y.tail, st);
    var c := ClockPieces(y.tail);
    sp := Spelling(d.head, b.head, y.head, c);
    ConcatAssoc(y.head, ":", y.tail);
    ConcatAssoc(b.head, "/", b.tail);
    ConcatAssoc(d.head, "/", d.tail);
    assert s == d.head + ("/" + (b.head + ("/" + (y.head + (":" + y.tail)))));
  }

  /** Parsing what Apache writes gives back the time and offset it wrote. */
  lemma ParseApacheText(st: Stamp)
    requires ValidStamp(st)
    ensures ParseTimestamp(ApacheText(st)) == Some(st)
  {
    var dt := st.local;
    LowerAbbreviation(dt.month);
    var c := ClockSpelling(Pad2(dt.hour), Pad2(dt.minute), Pad2(dt.second), " ", OffsetText(st.offset));
    var sp := Spelling(Pad2(dt.day), MonthAbbreviations[dt.month - 1], Pad4(dt.year), c);
    assert Joined(sp) == ApacheText(st);
    ParseSpelling(sp, st);
  }

  lemma MidnightClockText()
    ensures ClockText(DateTime(2024, 1, 1, 0, 0, 0), 0) == "00:00:00 +0000"
  {
    assert Pad2(0) == "00";
    assert OffsetText(0) == "+0000";
    assert ZoneText(0, 0) == "00 +0000";
  }

  lemma Year2024Text()
    ensures Pad4(2024) == "2024"
  {
    assert Pad2(20) == "20" && Pad2(24) == "24";
  }

  lemma NewYearText()
    ensures ApacheText(Stamp(DateTime(2024, 1, 1, 0, 0, 0), 0)) == "01/Jan/2024:00:00:00 +0000"
  {
    MidnightClockText();
    Year2024Text();
    assert Pad2(1) == "01";
    assert MonthAbbreviations[0] == "Jan";
  }

  lemma ParseExample()
    ensures ParseTimestamp("01/Jan/2024:00:00:00 +0000") == Some(Stamp(DateTime(2024, 1, 1, 0, 0, 0), 0))
  {
    NewYearText();
    ParseApacheText(Stamp(DateTime(2024, 1, 1, 0, 0, 0), 0));
  }

  /** The time of an Apache timestamp is written zero-padded, year first. */
  lemma FormatExample()
    ensures FormatTime(DateTime(2024, 1, 1, 0, 0, 0)) == "2024/01/01 00:00:00"
  {
    Year2024Text();
    assert Pad2(0) == "00" && Pad2(1) == "01";
  }

  lemma LateFebruaryFields()
    ensures DayNumber("30") == Some(30) && MonthNumber("Feb") == Some(2) && YearNumber("2024") == Some(2024)
    ensures ParseClock("00:00:00 +0000") == Some(Clock(0, 0, 0, 0))
  {
    assert Pad2(30) == "30";
    DayTextReads("30", 30);
    MonthNumberOf(2);
    assert MonthAbbreviations[1] == "Feb";
    YearNumberPad4(2024);
    Year2024Text();
    var c := ClockSpelling("00", "00", "00", " ", "+0000");
    MidnightClockText();
    assert Pad2(0) == "00" && OffsetText(0) == "+0000";
    ParseClockOf(c, Clock(0, 0, 0, 0));
    assert ClockJoined(c) == "00:00:00 +0000";
  }

  lemma LateFebruaryRead()
    ensures ReadStamp("30", "Feb", "2024", "00:00:00 +0000") == None
  {
    LateFebruaryFields();
    assert DaysInMonth(2024, 2) == 29;
  }

  /** Every field reads, but there is no 30 February: `datetime` rejects it. */
  lemma RejectExample()
    ensures ParseTimestamp("30/Feb/2024:00:00:00 +0000") == None
  {
    var text := "30" + ("/" + ("Feb" + ("/" + ("2024" + (":" + "00:00:00 +0000")))));
    assert text == "30/Feb/2024:00:00:00 +0000";
    ParseTimestampOf("30", "Feb", "2024", "00:00:00 +0000");
    LateFebruaryRead();
  }
}
