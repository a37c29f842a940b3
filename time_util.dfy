/*
 * Epoch-tick arithmetic and the compact time-string formats of
 * Lcl.EventLog/Utilities/TimeUtil.cs.
 *
 * A .NET tick is 100 ns; a DateTime is a tick count since 0001-01-01 00:00
 * together with a kind. The day number of a date is the proleptic Gregorian
 * count that DateTime itself uses and is written out here; the opposite
 * direction, from a day number to its date, is an abstract Calendar that is
 * required to invert it. The conversion from local time to UTC is a
 * parameter: time-zone rules are outside the model.
 */
module TimeUtil {
  import opened Common

  const TicksPerSecond: int := 10_000_000
  const SecondsPerDay: int := 86_400
  const TicksPerDay: int := 864_000_000_000
  /** DateTime.MaxValue.Ticks: the last tick of 9999-12-31. */
  const MaxTicks: int := 3_155_378_975_999_999_999
  /** The whole seconds of MaxTicks. */
  const MaxSeconds: int := 315_537_897_599
  const MaxDayNumber: int := 3_652_058
  /** The ticks of 1970-01-01T00:00:00Z. */
  const TicksAtEpoch: int := 621_355_968_000_000_000

  datatype DateTimeKind = Unspecified | Utc | Local

  /** A DateTime: ticks since 0001-01-01 in the clock of its kind. */
  datatype DateTime = DateTime(ticks: int, kind: DateTimeKind)

  /** A DateTimeOffset: clock ticks and the offset of that clock from UTC, in ticks. */
  datatype DateTimeOffset = DateTimeOffset(clockTicks: int, offsetTicks: int)
  {
    function UtcTicks(): int { clockTicks - offsetTicks }
  }

  datatype Date = Date(year: int, month: int, day: int)

  predicate IsLeapYear(y: int) { y % 4 == 0 && (y % 100 != 0 || y % 400 == 0) }

  function DaysInMonth(y: int, m: int): int
    requires 1 <= m <= 12
  {
    if m == 2 then (if IsLeapYear(y) then 29 else 28)
    else if m == 4 || m == 6 || m == 9 || m == 11 then 30
    else 31
  }

  predicate ValidDate(d: Date)
  {
    1 <= d.year <= 9999 && 1 <= d.month <= 12 && 1 <= d.day <= DaysInMonth(d.year, d.month)
  }

  function DaysBeforeMonth(y: int, m: int): int
    requires 1 <= m <= 12
    decreases m
  {
    if m == 1 then 0 else DaysBeforeMonth(y, m - 1) + DaysInMonth(y, m - 1)
  }

  /** Days from 0001-01-01 to the given date, the count DateTime's ticks are built on. */
  function DayNumber(d: Date): int
    requires ValidDate(d)
  {
    DaysBeforeYear(d.year) + DaysBeforeMonth(d.year, d.month) + d.day - 1
  }

  /** Days in the years before the given one: 365 each, plus the Gregorian leap days. */
  function DaysBeforeYear(year: int): int
  {
    var y := year - 1;
    365 * y + y / 4 - y / 100 + y / 400
  }

  /** The date of each day number: an inverse of DayNumber on the whole DateTime range. */
  datatype Calendar = Calendar(dateOf: int -> Date)

  ghost predicate ValidCalendar(cal: Calendar)
  {
    forall n :: 0 <= n <= MaxDayNumber ==> ValidDate(cal.dateOf(n)) && DayNumber(cal.dateOf(n)) == n
  }

  /** The two epoch constants agree with TicksAtEpoch: 1970-01-01 is day 719162. */
  lemma EpochConsistent()
    ensures ValidDate(Date(1970, 1, 1))
    ensures DayNumber(Date(1970, 1, 1)) * TicksPerDay == TicksAtEpoch
    ensures DateTimeOffset(TicksAtEpoch, 0).UtcTicks() == TicksAtEpoch
  {
  }

  // ------------------------------------------------------------ epoch ticks

  /** TicksSinceEpoch(DateTimeOffset): UtcTicks minus the epoch. */
  function TicksSinceEpochDto(dto: DateTimeOffset): (r: int)
    ensures r + TicksAtEpoch + dto.offsetTicks == dto.clockTicks
  {
    dto.UtcTicks() - TicksAtEpoch
  }

  /**
   * TicksSinceEpoch(DateTime): an Unspecified kind is refused; a Local time is
   * first converted to UTC with localToUtc.
   */
  function TicksSinceEpoch(dt: DateTime, localToUtc: int -> int): (r: Result<int>)
    ensures r.Err? <==> dt.kind == Unspecified
    ensures r.Err? ==> r.error == ArgumentException
    ensures dt.kind == Utc ==> r == Ok(dt.ticks - TicksAtEpoch)
    ensures dt.kind == Local ==> r == Ok(localToUtc(dt.ticks) - TicksAtEpoch)
  {
    match dt.kind
    case Unspecified => Err(ArgumentException)
    case Utc => Ok(dt.ticks - TicksAtEpoch)
    case Local => Ok(localToUtc(dt.ticks) - TicksAtEpoch)
  }

  predicate InDateTimeRange(epochTicks: int) { 0 <= TicksAtEpoch + epochTicks <= MaxTicks }

  /** EpochDateTime: Epoch.AddTicks(t), a UTC DateTime; out of range throws. */
  function EpochDateTime(epochTicks: int): (r: Result<DateTime>)
    ensures r.Ok? <==> InDateTimeRange(epochTicks)
    ensures r.Ok? ==> r.value.kind == Utc && r.value.ticks - TicksAtEpoch == epochTicks
    ensures r.Err? ==> r.error == ArgumentOutOfRange
  {
    if InDateTimeRange(epochTicks) then Ok(DateTime(TicksAtEpoch + epochTicks, Utc)) else Err(ArgumentOutOfRange)
  }

  /** EpochDateTimeOffset: EpochDto.AddTicks(t), at offset zero. */
  function EpochDateTimeOffset(epochTicks: int): (r: Result<DateTimeOffset>)
    ensures r.Ok? <==> InDateTimeRange(epochTicks)
    ensures r.Ok? ==> r.value.offsetTicks == 0 && r.value.UtcTicks() == TicksAtEpoch + epochTicks
  {
    if InDateTimeRange(epochTicks) then Ok(DateTimeOffset(TicksAtEpoch + epochTicks, 0)) else Err(ArgumentOutOfRange)
  }

  /** For every in-range t, converting to a DateTime and back gives t. */
  lemma EpochRoundTrip(t: int, localToUtc: int -> int)
    requires InDateTimeRange(t)
    ensures EpochDateTime(t).Ok? && TicksSinceEpoch(EpochDateTime(t).value, localToUtc) == Ok(t)
    ensures EpochDateTimeOffset(t).Ok? && TicksSinceEpochDto(EpochDateTimeOffset(t).value) == t
  {
  }

  // ------------------------------------------------------------ time strings

  /** The date of a count of whole seconds since 0001-01-01, by the calendar. */
  function DateOfSeconds(sec: int, cal: Calendar): (d: Date)
    requires 0 <= sec <= MaxSeconds && ValidCalendar(cal)
    ensures ValidDate(d) && DayNumber(d) == sec / SecondsPerDay
  {
    cal.dateOf(sec / SecondsPerDay)
  }

  /** "yyyyMMdd-HHmmss" of the whole seconds of a tick count: 15 characters that parse back to the count. */
  function ClockText(sec: int, cal: Calendar): (s: string)
    requires 0 <= sec <= MaxSeconds && ValidCalendar(cal)
    ensures |s| == 15
    ensures ParseClock(s) == Some(sec)
  {
    var d := DateOfSeconds(sec, cal);
    var sod := sec % SecondsPerDay;
    var h, mi, se := sod / 3600, sod / 60 % 60, sod % 60;
    ClockSplit(sec, h, mi, se);
    FieldsClockParses(d, h, mi, se, sec);
    FieldsText(d.year, d.month, d.day, 4) + "-" + FieldsText(h, mi, se, 2)
  }

  /** ToTimeString over a tick count: "yyyyMMdd-HHmmss-fffffff" when full, else "yyyyMMdd-HHmmss". */
  function TimeString(ticks: int, full: bool, cal: Calendar): (s: string)
    requires 0 <= ticks <= MaxTicks && ValidCalendar(cal)
    ensures |s| == (if full then 23 else 15)
  {
    SecondsOf(ticks);
    FractionText(ticks % TicksPerSecond);
    ClockText(ticks / TicksPerSecond, cal) + (if full then "-" + PadDecimal(ticks % TicksPerSecond, 7) else "")
  }

  /**
   * ToTimeString(DateTime): the kind is ignored. TimeStringRoundTrip and
   * ShortTimeStringRoundTrip show that ParseExact reads the text back.
   */
  function ToTimeString(dt: DateTime, full: bool, cal: Calendar): (s: string)
    requires 0 <= dt.ticks <= MaxTicks && ValidCalendar(cal)
    ensures |s| == (if full then 23 else 15)
  {
    TimeString(dt.ticks, full, cal)
  }

  /** ToTimeString(DateTimeOffset): the clock time, whatever the offset. */
  function ToTimeStringDto(dto: DateTimeOffset, full: bool, cal: Calendar): (s: string)
    requires 0 <= dto.clockTicks <= MaxTicks && ValidCalendar(cal)
    ensures |s| == (if full then 23 else 15)
  {
    TimeString(dto.clockTicks, full, cal)
  }

  /** ToTimeString(long): epoch ticks rendered as UTC; out of range throws. */
  function ToTimeStringEpoch(epochTicks: int, full: bool, cal: Calendar): (r: Result<string>)
    requires ValidCalendar(cal)
    ensures r.Ok? <==> InDateTimeRange(epochTicks)
  {
    match EpochDateTime(epochTicks)
    case Ok(dt) => Ok(ToTimeString(dt, full, cal))
    case Err(e) => Err(e)
  }

  predicate DigitsAt(txt: string, lo: int, hi: int)
  {
    0 <= lo <= hi <= |txt| && AllDigits(txt[lo..hi])
  }

  /** "ddddddddd-dddddd" starting at position i: what the pattern (\d{8}-\d{6}) matches. */
  predicate StampAt(txt: string, i: int)
  {
    0 <= i && i + 15 <= |txt| && DigitsAt(txt, i, i + 8) && txt[i + 8] == '-' && DigitsAt(txt, i + 9, i + 15)
  }

  /** The unanchored Regex.Match test of ParseDateTime: the pattern occurs anywhere in the text. */
  predicate ContainsStamp(txt: string)
  {
    exists i :: 0 <= i <= |txt| - 15 && StampAt(txt, i)
  }

  /** Three zero-padded fields: the first w digits wide, the other two 2 digits wide ("yyyyMMdd", "HHmmss"). */
  function FieldsText(a: nat, b: nat, c: nat, w: nat): string
  {
    PadDecimal(a, w) + PadDecimal(b, 2) + PadDecimal(c, 2)
  }

  /** The values of the three fields of a (w + 4)-digit string. */
  function FieldValues(s: string, w: nat): (int, int, int)
    requires |s| == w + 4 && AllDigits(s)
  {
    (DecimalValue(s[..w]), DecimalValue(s[w..w + 2]), DecimalValue(s[w + 2..]))
  }

  /** The whole seconds denoted by an exact "yyyyMMdd-HHmmss", if the fields form a valid date and time. */
  function ParseClock(txt: string): (r: Option<int>)
    requires |txt| == 15
    ensures r.Some? ==> StampAt(txt, 0) && 0 <= r.value <= MaxSeconds
  {
    if StampAt(txt, 0) then
      var (y, mo, dd) := FieldValues(txt[0..8], 4);
      var (h, m, s) := FieldValues(txt[9..15], 2);
      var d := Date(y, mo, dd);
      if ValidDate(d) && h < 24 && m < 60 && s < 60 then
        DayNumberBound(d);
        Some(DayNumber(d) * SecondsPerDay + h * 3600 + m * 60 + s)
      else None
    else None
  }

  /** DateTime.ParseExact with the formats "yyyyMMdd-HHmmss-fffffff" and "yyyyMMdd-HHmmss". */
  function ParseExact(txt: string): (r: Option<int>)
    ensures r.Some? ==> 0 <= r.value <= MaxTicks
  {
    if |txt| == 15 then
      match ParseClock(txt)
      case None => None
      case Some(sec) =>
        FractionFits(sec, 0);
        Some(sec * TicksPerSecond)
    else if |txt| == 23 && txt[15] == '-' && DigitsAt(txt, 16, 23) then
      match ParseClock(txt[..15])
      case None => None
      case Some(sec) =>
        DecimalValueBound(txt[16..23]);
        Pow10Values();
        FractionFits(sec, DecimalValue(txt[16..23]));
        Some(sec * TicksPerSecond + DecimalValue(txt[16..23]))
    else None
  }

  /**
   * ParseDateTime: text without the stamp pattern is refused with an ArgumentException;
   * text that has it but is not exactly one of the two formats (a valid date and time)
   * fails ParseExact with a FormatException. The kind is the caller's.
   */
  function ParseDateTime(txt: string, kind: DateTimeKind): (r: Result<DateTime>)
    ensures r.Ok? ==> r.value.kind == kind && Some(r.value.ticks) == ParseExact(txt)
    ensures r.Ok? <==> ParseExact(txt).Some?
    ensures !ContainsStamp(txt) ==> r == Err(ArgumentException)
  {
    ParseExactHasStamp(txt);
    if !ContainsStamp(txt) then Err(ArgumentException)
    else match ParseExact(txt)
      case None => Err(FormatException)
      case Some(t) => Ok(DateTime(t, kind))
  }

  lemma ParseExactHasStamp(txt: string)
    ensures ParseExact(txt).Some? ==> ContainsStamp(txt)
  {
    if ParseExact(txt).None? {
    } else if |txt| == 15 {
      assert StampAt(txt, 0);
    } else {
      assert StampAt(txt[..15], 0);
      assert txt[..15][0..8] == txt[0..8] && txt[..15][9..15] == txt[9..15];
      assert StampAt(txt, 0);
    }
  }

  /** ParseEpochTicks: parse as UTC and count ticks from the epoch. */
  function ParseEpochTicks(txt: string): (r: Result<int>)
    ensures r.Ok? <==> ParseExact(txt).Some?
    ensures r.Ok? ==> r.value + TicksAtEpoch == ParseExact(txt).value
  {
    match ParseDateTime(txt, Utc)
    case Err(e) => Err(e)
    case Ok(dt) => TicksSinceEpoch(dt, x => x)
  }

  // ------------------------------------------------------------ round trips

  lemma Pow10Values()
    ensures Pow10(2) == 100 && Pow10(4) == 10000 && Pow10(7) == 10_000_000
  {
    assert Pow10(1) == 10;
    assert Pow10(3) == 1000;
    assert Pow10(5) == 100000;
    assert Pow10(6) == 1000000;
  }

  /** A tick count in range is its whole seconds, in range, and a fraction of a second. */
  lemma SecondsOf(ticks: int)
    requires 0 <= ticks <= MaxTicks
    ensures 0 <= ticks / TicksPerSecond <= MaxSeconds && 0 <= ticks % TicksPerSecond < TicksPerSecond
    ensures ticks == ticks / TicksPerSecond * TicksPerSecond + ticks % TicksPerSecond
    ensures ticks - ticks % TicksPerSecond == ticks / TicksPerSecond * TicksPerSecond
  {
  }

  /** A whole second in range leaves room for any fraction of a second. */
  lemma FractionFits(sec: int, f: int)
    requires 0 <= sec <= MaxSeconds && 0 <= f < TicksPerSecond
    ensures 0 <= sec * TicksPerSecond + f <= MaxTicks
  {
  }

  lemma DayNumberBound(d: Date)
    requires ValidDate(d)
    ensures 0 <= DayNumber(d) <= MaxDayNumber
  {
    DaysBeforeMonthBound(d.year, d.month);
    DaysBeforeYearBound(d.year);
  }

  /** The years before 9999 leave a whole year of room below the last day of 9999. */
  lemma DaysBeforeYearBound(year: int)
    requires 1 <= year <= 9999
    ensures 0 <= DaysBeforeYear(year) && DaysBeforeYear(year) + 365 * (9999 - year) <= 3_651_694
  {
    var y := year - 1;
    var b, r := y / 100, y % 100;
    assert y == 100 * b + r;
    assert y / 4 == 25 * b + r / 4;
    assert y / 400 == b / 4;
  }

  lemma {:induction false} DaysBeforeMonthBound(y: int, m: int)
    requires 1 <= m <= 12
    ensures 0 <= DaysBeforeMonth(y, m) && DaysBeforeMonth(y, m) + DaysInMonth(y, m) <= (if IsLeapYear(y) then 366 else 365)
    ensures m == 12 ==> DaysBeforeMonth(y, m) + DaysInMonth(y, m) == (if IsLeapYear(y) then 366 else 365)
    decreases m
  {
    if m > 1 {
      DaysBeforeMonthBound(y, m - 1);
    }
  }

  /** A year holds 366 days when it is a leap year and 365 otherwise. */
  lemma YearLength(year: int)
    requires 1 <= year
    ensures DaysBeforeYear(year + 1) == DaysBeforeYear(year) + (if IsLeapYear(year) then 366 else 365)
  {
    QuotientStep(year - 1, 4);
    QuotientStep(year - 1, 100);
    QuotientStep(year - 1, 400);
  }

  /** Counting one further, a quotient grows by one exactly at a multiple of the divisor. */
  lemma QuotientStep(x: int, k: int)
    requires k == 4 || k == 100 || k == 400
    ensures (x + 1) / k == x / k + (if (x + 1) % k == 0 then 1 else 0)
  {
    var q, r := x / k, x % k;
    assert x == k * q + r && 0 <= r < k;
    if r + 1 == k {
      assert x + 1 == k * (q + 1);
    } else {
      assert x + 1 == k * q + (r + 1);
    }
  }

  lemma FieldsRoundTrip(a: nat, b: nat, c: nat, w: nat)
    requires 1 <= w && a < Pow10(w) && b < 100 && c < 100
    ensures |FieldsText(a, b, c, w)| == w + 4 && AllDigits(FieldsText(a, b, c, w))
    ensures FieldValues(FieldsText(a, b, c, w), w) == (a, b, c)
  {
    var pa, pb, pc := PadDecimal(a, w), PadDecimal(b, 2), PadDecimal(c, 2);
    assert |pa| == w && AllDigits(pa) && DecimalValue(pa) == a by {
      PadDecimalFixed(a, w);
    }
    assert |pb| == 2 && |pc| == 2 && DecimalValue(pb) == b && DecimalValue(pc) == c by {
      Pow10Values();
      PadDecimalFixed(b, 2);
      PadDecimalFixed(c, 2);
    }
    var s := pa + pb + pc;
    assert AllDigits(s) by {
      AllDigitsConcat(pa, pb);
      AllDigitsConcat(pa + pb, pc);
    }
    assert s[..w] == pa && s[w..w + 2] == pb && s[w + 2..] == pc;
  }

  /** "yyyyMMdd" and "HHmmss" joined by '-' form a stamp whose fields sit at the fixed positions. */
  lemma ClockParts(date: string, time: string)
    requires |date| == 8 && AllDigits(date) && |time| == 6 && AllDigits(time)
    ensures |date + "-" + time| == 15 && StampAt(date + "-" + time, 0)
    ensures (date + "-" + time)[0..8] == date && (date + "-" + time)[9..15] == time
  {
    var txt := date + "-" + time;
    assert txt[0..8] == date && txt[9..15] == time;
  }

  /** A clock text whose fields form a valid date and time parses to the seconds of those fields. */
  lemma ParseClockFields(date: string, time: string, d: Date, h: nat, mi: nat, se: nat, sec: int)
    requires |date| == 8 && AllDigits(date) && FieldValues(date, 4) == (d.year, d.month, d.day)
    requires |time| == 6 && AllDigits(time) && FieldValues(time, 2) == (h, mi, se)
    requires ValidDate(d) && h < 24 && mi < 60 && se < 60
    requires sec == DayNumber(d) * SecondsPerDay + h * 3600 + mi * 60 + se
    ensures |date + "-" + time| == 15
    ensures ParseClock(date + "-" + time) == Some(sec)
  {
    ClockParts(date, time);
  }

  /** Whole days, hours, minutes and seconds make up a count of seconds. */
  lemma ClockSplit(sec: int, h: int, mi: int, se: int)
    requires 0 <= sec
    requires h == sec % SecondsPerDay / 3600 && mi == sec % SecondsPerDay / 60 % 60 && se == sec % SecondsPerDay % 60
    ensures 0 <= h < 24 && 0 <= mi < 60 && 0 <= se < 60
    ensures sec == sec / SecondsPerDay * SecondsPerDay + h * 3600 + mi * 60 + se
  {
  }

  /** The clock text of valid date and time fields parses to the seconds they denote. */
  lemma FieldsClockParses(d: Date, h: nat, mi: nat, se: nat, sec: int)
    requires ValidDate(d) && h < 24 && mi < 60 && se < 60
    requires sec == DayNumber(d) * SecondsPerDay + h * 3600 + mi * 60 + se
    ensures |FieldsText(d.year, d.month, d.day, 4) + "-" + FieldsText(h, mi, se, 2)| == 15
    ensures ParseClock(FieldsText(d.year, d.month, d.day, 4) + "-" + FieldsText(h, mi, se, 2)) == Some(sec)
  {
    var date, time := FieldsText(d.year, d.month, d.day, 4), FieldsText(h, mi, se, 2);
    assert |date| == 8 && AllDigits(date) && FieldValues(date, 4) == (d.year, d.month, d.day) by {
      Pow10Values();
      FieldsRoundTrip(d.year, d.month, d.day, 4);
    }
    assert |time| == 6 && AllDigits(time) && FieldValues(time, 2) == (h, mi, se) by {
      Pow10Values();
      FieldsRoundTrip(h, mi, se, 2);
    }
    ParseClockFields(date, time, d, h, mi, se, sec);
  }

  /** The seven fraction digits of the full format. */
  lemma FractionText(f: int)
    requires 0 <= f < TicksPerSecond
    ensures |PadDecimal(f, 7)| == 7 && AllDigits(PadDecimal(f, 7)) && DecimalValue(PadDecimal(f, 7)) == f
  {
    Pow10Values();
    PadDecimalFixed(f, 7);
  }

  lemma ParseExactFull(clock: string, frac: string, sec: int, f: int, ticks: int)
    requires |clock| == 15 && |frac| == 7 && AllDigits(frac)
    requires ParseClock(clock) == Some(sec) && DecimalValue(frac) == f && ticks == sec * TicksPerSecond + f
    ensures ParseExact(clock + "-" + frac) == Some(ticks)
  {
    var txt := clock + "-" + frac;
    assert txt[..15] == clock;
    assert txt[16..23] == frac;
  }

  /** Parsing the full time string of a tick count gives the tick count back. */
  lemma TimeStringRoundTrip(ticks: int, cal: Calendar)
    requires 0 <= ticks <= MaxTicks && ValidCalendar(cal)
    ensures ParseExact(TimeString(ticks, true, cal)) == Some(ticks)
  {
    FullTimeStringParts(ticks, cal);
    FullTimeStringParses(ticks, cal);
  }

  lemma FullTimeStringParts(ticks: int, cal: Calendar)
    requires 0 <= ticks <= MaxTicks && ValidCalendar(cal)
    ensures TimeString(ticks, true, cal)
            == ClockText(ticks / TicksPerSecond, cal) + "-" + PadDecimal(ticks % TicksPerSecond, 7)
  {
  }

  lemma FullTimeStringParses(ticks: int, cal: Calendar)
    requires 0 <= ticks <= MaxTicks && ValidCalendar(cal)
    ensures ParseExact(ClockText(ticks / TicksPerSecond, cal) + "-" + PadDecimal(ticks % TicksPerSecond, 7))
            == Some(ticks)
  {
    var sec, f := ticks / TicksPerSecond, ticks % TicksPerSecond;
    SecondsOf(ticks);
    FractionText(f);
    ParseExactFull(ClockText(sec, cal), PadDecimal(f, 7), sec, f, ticks);
  }

  /** The short format loses exactly the fraction of a second. */
  lemma ShortTimeStringRoundTrip(ticks: int, cal: Calendar)
    requires 0 <= ticks <= MaxTicks && ValidCalendar(cal)
    ensures ParseExact(TimeString(ticks, false, cal)) == Some(ticks - ticks % TicksPerSecond)
  {
    assert TimeString(ticks, false, cal) == ClockText(ticks / TicksPerSecond, cal);
    ShortTimeStringParses(ticks, cal);
  }

  lemma ShortTimeStringParses(ticks: int, cal: Calendar)
    requires 0 <= ticks <= MaxTicks && ValidCalendar(cal)
    ensures ParseExact(ClockText(ticks / TicksPerSecond, cal)) == Some(ticks - ticks % TicksPerSecond)
  {
    var sec := ticks / TicksPerSecond;
    ParseExactShort(ClockText(sec, cal), sec, ticks);
  }

  lemma ParseExactShort(clock: string, sec: int, ticks: int)
    requires |clock| == 15 && ParseClock(clock) == Some(sec)
    requires 0 <= ticks <= MaxTicks && sec == ticks / TicksPerSecond
    ensures ParseExact(clock) == Some(ticks - ticks % TicksPerSecond)
  {
    SecondsOf(ticks);
  }

  /** ParseEpochTicks(ToTimeString(t)) == t for the full format and every t in range. */
  lemma EpochTimeStringRoundTrip(t: int, cal: Calendar)
    requires InDateTimeRange(t) && ValidCalendar(cal)
    ensures ParseEpochTicks(ToTimeStringEpoch(t, true, cal).value) == Ok(t)
  {
    EpochTimeStringText(t, cal);
    EpochTimeStringParses(t, cal);
  }

  lemma EpochTimeStringParses(t: int, cal: Calendar)
    requires InDateTimeRange(t) && ValidCalendar(cal)
    ensures ParseEpochTicks(TimeString(TicksAtEpoch + t, true, cal)) == Ok(t)
  {
    var ticks := TicksAtEpoch + t;
    TimeStringRoundTrip(ticks, cal);
    EpochTicksOfParse(TimeString(ticks, true, cal), ticks, t);
  }

  lemma EpochTimeStringText(t: int, cal: Calendar)
    requires InDateTimeRange(t) && ValidCalendar(cal)
    ensures ToTimeStringEpoch(t, true, cal) == Ok(TimeString(TicksAtEpoch + t, true, cal))
  {
    assert EpochDateTime(t) == Ok(DateTime(TicksAtEpoch + t, Utc));
  }

  lemma EpochTicksOfParse(txt: string, ticks: int, t: int)
    requires ParseExact(txt) == Some(ticks) && t == ticks - TicksAtEpoch
    ensures ParseEpochTicks(txt) == Ok(t)
  {
  }
}
