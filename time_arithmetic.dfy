/** The time helpers of the tutor service: the HH:mm pattern, the conversion of such a string to
    minutes after midnight, the "start before end" range check, and the weekday of a date. */
module TimeArithmetic {
  import opened AppErrors

  const InvalidTimeFormat := AppError(400, "INVALID_TIME_FORMAT")

  predicate IsDigit(c: char) {
    '0' <= c <= '9'
  }

  function DigitValue(c: char): (d: nat)
    requires IsDigit(c)
    ensures d < 10
  {
    (c as int) - ('0' as int)
  }

  function DigitChar(d: nat): (c: char)
    requires d < 10
    ensures IsDigit(c) && DigitValue(c) == d
  {
    (('0' as int) + d) as char
  }

  /** The pattern ^([01]\d|2[0-3]):([0-5]\d)$, with \d the ASCII digits. */
  predicate IsValidTimeFormat(time: string) {
    && |time| == 5
    && IsDigit(time[0]) && IsDigit(time[1]) && time[2] == ':' && IsDigit(time[3]) && IsDigit(time[4])
    && (time[0] == '0' || time[0] == '1' || (time[0] == '2' && time[1] <= '3'))
    && time[3] <= '5'
  }

  /** h*60 + m for a well-formed "hh:mm". */
  function Minutes(time: string): (m: nat)
    requires IsValidTimeFormat(time)
    ensures m < 24 * 60
  {
    (DigitValue(time[0]) * 10 + DigitValue(time[1])) * 60 + DigitValue(time[3]) * 10 + DigitValue(time[4])
  }

  /** The zero-padded "hh:mm" spelling of a minute of the day: the reference the parser is checked against. */
  function FormatTime(m: nat): (time: string)
    requires m < 24 * 60
    ensures |time| == 5
  {
    var h, mm := m / 60, m % 60;
    [DigitChar(h / 10), DigitChar(h % 10), ':', DigitChar(mm / 10), DigitChar(mm % 10)]
  }

  lemma FormatTimeRoundTrip(m: nat)
    requires m < 24 * 60
    ensures IsValidTimeFormat(FormatTime(m))
    ensures Minutes(FormatTime(m)) == m
  {
    var h, mm := m / 60, m % 60;
    assert h < 24 && mm < 60;
    assert h / 10 <= 2 && (h / 10 == 2 ==> h % 10 <= 3);
    assert mm / 10 <= 5;
  }

  lemma MinutesRoundTrip(time: string)
    requires IsValidTimeFormat(time)
    ensures FormatTime(Minutes(time)) == time
  {
    var h := DigitValue(time[0]) * 10 + DigitValue(time[1]);
    var mm := DigitValue(time[3]) * 10 + DigitValue(time[4]);
    assert h < 24 && mm < 60;
    assert Minutes(time) / 60 == h && Minutes(time) % 60 == mm;
    assert h / 10 == DigitValue(time[0]) && h % 10 == DigitValue(time[1]);
    assert mm / 10 == DigitValue(time[3]) && mm % 10 == DigitValue(time[4]);
    var f := FormatTime(Minutes(time));
    assert f[0] == time[0] && f[1] == time[1] && f[2] == time[2] && f[3] == time[3] && f[4] == time[4];
  }

  /** The strings the pattern accepts are exactly the spellings of the minutes 0 .. 1439. */
  lemma ValidFormatsAreSpelledMinutes(time: string)
    ensures IsValidTimeFormat(time) <==> exists m: nat :: m < 24 * 60 && FormatTime(m) == time
  {
    if IsValidTimeFormat(time) {
      MinutesRoundTrip(time);
    }
    if exists m: nat :: m < 24 * 60 && FormatTime(m) == time {
      var m: nat :| m < 24 * 60 && FormatTime(m) == time;
      FormatTimeRoundTrip(m);
    }
  }

  /** timeToMinutes: the minute of the day that the string spells, or INVALID_TIME_FORMAT. */
  function TimeToMinutes(time: string): (r: Result<nat>)
    ensures r.Ok? <==> IsValidTimeFormat(time)
    ensures r.Ok? ==> r.value < 24 * 60 && FormatTime(r.value) == time
    ensures r.Err? ==> r.error == InvalidTimeFormat
  {
    if IsValidTimeFormat(time) then
      MinutesRoundTrip(time);
      Ok(Minutes(time))
    else
      Err(InvalidTimeFormat)
  }

  /** isValidTimeRange: both strings well formed and the start strictly earlier than the end. */
  predicate IsValidTimeRange(startTime: string, endTime: string) {
    IsValidTimeFormat(startTime) && IsValidTimeFormat(endTime) && Minutes(startTime) < Minutes(endTime)
  }

  lemma ValidRangesAreSpelledIntervals(startTime: string, endTime: string)
    ensures IsValidTimeRange(startTime, endTime) <==>
      exists s: nat, e: nat :: s < e < 24 * 60 && FormatTime(s) == startTime && FormatTime(e) == endTime
  {
    if IsValidTimeRange(startTime, endTime) {
      MinutesRoundTrip(startTime);
      MinutesRoundTrip(endTime);
      assert FormatTime(Minutes(startTime)) == startTime && FormatTime(Minutes(endTime)) == endTime;
    }
    if exists s: nat, e: nat :: s < e < 24 * 60 && FormatTime(s) == startTime && FormatTime(e) == endTime {
      var s: nat, e: nat :| s < e < 24 * 60 && FormatTime(s) == startTime && FormatTime(e) == endTime;
      FormatTimeRoundTrip(s);
      FormatTimeRoundTrip(e);
    }
  }

  /** The ordering of strings by code point, which is how the store compares the stored HH:mm columns. */
  predicate LexLe(a: string, b: string)
    decreases |a|
  {
    a == [] || (b != [] && (a[0] < b[0] || (a[0] == b[0] && LexLe(a[1..], b[1..]))))
  }

  /** Comparing two well-formed HH:mm strings as strings orders them as their minutes. */
  lemma LexLeAgreesWithMinutes(a: string, b: string)
    requires IsValidTimeFormat(a) && IsValidTimeFormat(b)
    ensures LexLe(a, b) <==> Minutes(a) <= Minutes(b)
  {
    var a1, b1 := a[1..], b[1..];
    var a2, b2 := a1[1..], b1[1..];
    var a3, b3 := a2[1..], b2[1..];
    var a4, b4 := a3[1..], b3[1..];
    assert a4[1..] == [] && b4[1..] == [];
    assert LexLe(a4, b4) <==> a[4] <= b[4];
    assert LexLe(a3, b3) <==> a[3] < b[3] || (a[3] == b[3] && a[4] <= b[4]);
    assert LexLe(a2, b2) <==> a[3] < b[3] || (a[3] == b[3] && a[4] <= b[4]);
    assert LexLe(a1, b1) <==> a[1] < b[1] || (a[1] == b[1] && LexLe(a2, b2));
    var ha, hb := DigitValue(a[0]) * 10 + DigitValue(a[1]), DigitValue(b[0]) * 10 + DigitValue(b[1]);
    var ma, mb := DigitValue(a[3]) * 10 + DigitValue(a[4]), DigitValue(b[3]) * 10 + DigitValue(b[4]);
    assert Minutes(a) == ha * 60 + ma && Minutes(b) == hb * 60 + mb;
    assert ma < 60 && mb < 60;
    assert Minutes(a) <= Minutes(b) <==> ha < hb || (ha == hb && ma <= mb);
  }

  /** The seven weekdays in the Sunday-first order of the lookup table. */
  datatype DayOfWeek = SUNDAY | MONDAY | TUESDAY | WEDNESDAY | THURSDAY | FRIDAY | SATURDAY

  const WeekdayTable: seq<DayOfWeek> := [SUNDAY, MONDAY, TUESDAY, WEDNESDAY, THURSDAY, FRIDAY, SATURDAY]

  /** Date.getUTCDay of a date given as a day count from 1970-01-01, which was a Thursday (4). */
  function UtcDay(date: int): (d: nat)
    ensures d < 7
  {
    (date + 4) % 7
  }

  function GetDayOfWeek(date: int): DayOfWeek {
    WeekdayTable[UtcDay(date)]
  }

  /** The position of a weekday in the Sunday-first week. */
  function WeekdayIndex(d: DayOfWeek): (i: nat)
    ensures i < 7 && WeekdayTable[i] == d
  {
    match d
    case SUNDAY => 0
    case MONDAY => 1
    case TUESDAY => 2
    case WEDNESDAY => 3
    case THURSDAY => 4
    case FRIDAY => 5
    case SATURDAY => 6
  }

  /** getDayOfWeek names the UTC weekday: its position in the table is getUTCDay, the day after
      has the next name (SATURDAY wrapping to SUNDAY), and 1970-01-01 is a THURSDAY. */
  lemma GetDayOfWeekIsUtcWeekday(date: int)
    ensures WeekdayIndex(GetDayOfWeek(date)) == UtcDay(date)
    ensures WeekdayIndex(GetDayOfWeek(date + 1)) == (WeekdayIndex(GetDayOfWeek(date)) + 1) % 7
    ensures GetDayOfWeek(date + 7) == GetDayOfWeek(date)
    ensures GetDayOfWeek(0) == THURSDAY
  {
    var i := UtcDay(date);
    assert WeekdayTable[WeekdayIndex(WeekdayTable[i])] == WeekdayTable[i];
    assert forall j, k :: 0 <= j < 7 && 0 <= k < 7 && WeekdayTable[j] == WeekdayTable[k] ==> j == k;
    assert UtcDay(date + 1) == (i + 1) % 7;
    assert UtcDay(date + 7) == i;
  }
}
