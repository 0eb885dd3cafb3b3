/** YYYYMMDD dates and ODBC timestamps, for both date libraries. */
module Dates {
  import opened Text
  import opened Wrappers

  datatype Date = Date(year: int, month: int, day: int)

  predicate IsLeap(year: int) {
    year % 4 == 0 && (year % 100 != 0 || year % 400 == 0)
  }

  function DaysIn(year: int, month: int): int {
    if month == 2 then (if IsLeap(year) then 29 else 28)
    else if month == 4 || month == 6 || month == 9 || month == 11 then 30
    else 31
  }

  /** A day of the proleptic Gregorian calendar. */
  predicate Exists(d: Date) {
    1 <= d.month <= 12 && 1 <= d.day <= DaysIn(d.year, d.month)
  }

  // ------------------------------------------------------------ the calendar, counted independently

  /** Leap days up to the end of a year. */
  function LeapDays(year: int): int {
    year / 4 - year / 100 + year / 400
  }

  function DaysUpTo(year: int, month: nat): int {
    if month == 0 then 0 else DaysUpTo(year, month - 1) + DaysIn(year, month)
  }

  lemma Quarter(year: int)
    ensures year / 4 - (year - 1) / 4 == if year % 4 == 0 then 1 else 0
    ensures (year + 400) / 4 == year / 4 + 100 && (year + 400) % 4 == year % 4
  {
  }

  lemma Century(year: int)
    ensures year / 100 - (year - 1) / 100 == if year % 100 == 0 then 1 else 0
    ensures (year + 400) / 100 == year / 100 + 4 && (year + 400) % 100 == year % 100
  {
  }

  lemma FourCenturies(year: int)
    ensures year / 400 - (year - 1) / 400 == if year % 400 == 0 then 1 else 0
    ensures (year + 400) / 400 == year / 400 + 1 && (year + 400) % 400 == year % 400
  {
  }

  lemma HundredTimes(k: int)
    ensures 100 * k % 100 == 0
  {
  }

  lemma FourTimes(k: int)
    ensures 4 * k % 4 == 0
  {
  }

  lemma Multiples(year: int)
    ensures year % 400 == 0 ==> year % 100 == 0
    ensures year % 100 == 0 ==> year % 4 == 0
  {
    if year % 400 == 0 {
      FourHundredth(year);
    }
    if year % 100 == 0 {
      Hundredth(year);
    }
  }

  lemma FourHundredth(year: int)
    requires year % 400 == 0
    ensures year % 100 == 0
  {
    HundredTimes(4 * (year / 400));
    assert year == 100 * (4 * (year / 400));
  }

  lemma Hundredth(year: int)
    requires year % 100 == 0
    ensures year % 4 == 0
  {
    FourTimes(25 * (year / 100));
    assert year == 4 * (25 * (year / 100));
  }

  lemma LeapCounts(year: int)
    ensures LeapDays(year) - LeapDays(year - 1) == if IsLeap(year) then 1 else 0
    ensures LeapDays(year + 400) == LeapDays(year) + 97 && IsLeap(year + 400) == IsLeap(year)
  {
    Quarter(year);
    Century(year);
    FourCenturies(year);
    Multiples(year);
  }

  /** The twelve months of a year have 365 days, and the leap days that were added. */
  lemma YearLength(year: int)
    ensures DaysUpTo(year, 12) == 365 + LeapDays(year) - LeapDays(year - 1)
  {
    LeapCounts(year);
    var feb := DaysIn(year, 2);
    assert DaysUpTo(year, 1) == 31;
    assert DaysUpTo(year, 2) == 31 + feb;
    assert DaysUpTo(year, 3) == 62 + feb;
    assert DaysUpTo(year, 4) == 92 + feb;
    assert DaysUpTo(year, 6) == 153 + feb;
    assert DaysUpTo(year, 8) == 215 + feb;
    assert DaysUpTo(year, 10) == 276 + feb;
    assert DaysUpTo(year, 12) == 337 + feb;
  }

  /** Days of the years from `year` on. */
  function DaysOf(year: int, years: nat): int {
    if years == 0 then 0 else DaysOf(year, years - 1) + DaysUpTo(year + years - 1, 12)
  }

  lemma {:induction false} DaysOfYears(year: int, years: nat)
    ensures DaysOf(year, years) == 365 * years + LeapDays(year + years - 1) - LeapDays(year - 1)
  {
    if years > 0 {
      DaysOfYears(year, years - 1);
      YearLength(year + years - 1);
    }
  }

  /** The calendar repeats after 400 years, which are 146097 days or 20871 weeks. */
  lemma CycleLength(year: int)
    ensures DaysOf(year, 400) == 146097 == 7 * 20871
    ensures forall month :: DaysIn(year + 400, month) == DaysIn(year, month)
  {
    DaysOfYears(year, 400);
    LeapCounts(year - 1);
    LeapCounts(year);
  }

  /** No month but the second has other than 30 or 31 days, by the usual list. */
  lemma MonthLengths(year: int)
    ensures forall m :: 1 <= m <= 12 && m != 2 ==> DaysIn(year, m) == [31, 0, 31, 30, 31, 30, 31, 31, 30, 31, 30, 31][m - 1]
    ensures IsLeap(2000) && IsLeap(2024) && !IsLeap(1900) && !IsLeap(2023)
  {
  }

  const CHRONO_YEARS := 262142
  const TIME_YEARS := 9999

  /** `NaiveDate::from_ymd_opt`. */
  function FromYmdOpt(year: int, month: nat, day: nat): Option<Date> {
    var d := Date(year, month, day);
    if -CHRONO_YEARS - 1 <= year <= CHRONO_YEARS && Exists(d) then Some(d) else None
  }

  /** `Month::try_from` and `Date::from_calendar_date`. */
  function FromCalendarDate(year: int, month: nat, day: nat): Option<Date> {
    var d := Date(year, month, day);
    if !(1 <= month <= 12) then None
    else if -TIME_YEARS <= year <= TIME_YEARS && Exists(d) then Some(d)
    else None
  }

  function AsU8(n: nat): nat {
    n % 0x100
  }

  // ------------------------------------------------------------ integers

  function ParseYyyymmdd(value: int): Option<Date> {
    if !(19000101 <= value <= 30001231) then None
    else FromYmdOpt(value / 10000, value % 10000 / 100, value % 100)
  }

  /** The version for the `time` crate narrows month and day to bytes. */
  function ParseYyyymmddTime(value: int): Option<Date> {
    if !(19000101 <= value <= 30001231) then None
    else FromCalendarDate(value / 10000, AsU8(value % 10000 / 100), AsU8(value % 100))
  }

  function Encode(d: Date): int {
    d.year * 10000 + d.month * 100 + d.day
  }

  predicate InSpan(d: Date) {
    1900 <= d.year <= 3000
  }

  /** An integer is read as a date exactly if it is the encoding of an existing day of the years 1900 to 3000. */
  lemma AcceptedExactly(value: int, d: Date)
    ensures ParseYyyymmdd(value) == Some(d) <==> Exists(d) && InSpan(d) && value == Encode(d)
  {
    if Exists(d) && InSpan(d) && value == Encode(d) {
      assert value / 10000 == d.year && value % 10000 == d.month * 100 + d.day;
      assert value % 100 == d.day;
    }
  }

  predicate Before(a: Date, b: Date) {
    a.year < b.year || (a.year == b.year && (a.month < b.month || (a.month == b.month && a.day < b.day)))
  }

  /** Reading keeps the order, in both directions. */
  lemma OrderIsKept(v: int, w: int)
    requires ParseYyyymmdd(v).Some? && ParseYyyymmdd(w).Some?
    ensures v < w <==> Before(ParseYyyymmdd(v).value, ParseYyyymmdd(w).value)
    ensures v == w <==> ParseYyyymmdd(v) == ParseYyyymmdd(w)
  {
    AcceptedExactly(v, ParseYyyymmdd(v).value);
    AcceptedExactly(w, ParseYyyymmdd(w).value);
  }

  /** Narrowing month and day to bytes loses nothing: both libraries read the same date. */
  lemma BothLibrariesAgree(value: int)
    ensures ParseYyyymmddTime(value) == ParseYyyymmdd(value)
  {
  }

  // ------------------------------------------------------------ text

  function ParseText(s: string): Option<Date> {
    if |s| != 8 || !AllDigits(s) then None
    else FromYmdOpt(DigitsValue(s[0..4]), DigitsValue(s[4..6]), DigitsValue(s[6..8]))
  }

  /** As parsed for the `time` crate: month and day must fit a byte, which two digits do. */
  function ParseTextTime(s: string): Option<Date> {
    if |s| != 8 || !AllDigits(s) then None
    else FromCalendarDate(DigitsValue(s[0..4]), AsU8(DigitsValue(s[4..6])), AsU8(DigitsValue(s[6..8])))
  }

  lemma PushDigit(s: string, c: char)
    requires AllDigits(s) && IsDigit(c)
    ensures AllDigits(s + [c]) && DigitsValue(s + [c]) == DigitsValue(s) * 10 + DigitValue(c)
  {
    assert (s + [c])[..|s|] == s;
  }

  /** The last two digits split off. */
  lemma LastTwoDigits(p: string, a: char, b: char)
    requires AllDigits(p) && IsDigit(a) && IsDigit(b)
    ensures AllDigits(p + [a, b]) && AllDigits([a, b])
    ensures DigitsValue(p + [a, b]) == DigitsValue(p) * 100 + DigitsValue([a, b])
    ensures 0 <= DigitsValue([a, b]) < 100
  {
    PushDigit(p, a);
    PushDigit(p + [a], b);
    assert p + [a] + [b] == p + [a, b];
    PushDigit([], a);
    PushDigit([a], b);
    assert [] + [a] == [a] && [a] + [b] == [a, b];
  }

  lemma FourDigits(s: string)
    requires |s| == 4 && AllDigits(s)
    ensures 0 <= DigitsValue(s) < 10000
  {
    LastTwoDigits([], s[0], s[1]);
    LastTwoDigits([s[0], s[1]], s[2], s[3]);
    assert s == [s[0], s[1]] + [s[2], s[3]];
  }

  /** Year, month and day that eight digits spell. */
  function SpelledDate(s: string): (d: Date)
    requires |s| == 8 && AllDigits(s)
    ensures d.month >= 0 && d.day >= 0
  {
    Date(DigitsValue(s[0..4]), DigitsValue(s[4..6]), DigitsValue(s[6..8]))
  }

  lemma EightDigits(s: string)
    requires |s| == 8 && AllDigits(s)
    ensures var p := SpelledDate(s);
            && DigitsValue(s) == Encode(p)
            && 0 <= p.year < 10000 && 0 <= p.month < 100 && 0 <= p.day < 100
  {
    FourDigits(s[0..4]);
    LastTwoDigits(s[0..4], s[4], s[5]);
    LastTwoDigits(s[0..6], s[6], s[7]);
    assert s[0..6] == s[0..4] + [s[4], s[5]] && s[4..6] == [s[4], s[5]];
    assert s == s[0..6] + [s[6], s[7]] && s[6..8] == [s[6], s[7]];
  }

  lemma Over10000(q: nat, r: nat)
    requires r < 10000
    ensures (q * 10000 + r) / 10000 == q && (q * 10000 + r) % 10000 == r
  {
  }

  lemma Over100(q: nat, r: nat)
    requires r < 100
    ensures (q * 100 + r) / 100 == q && (q * 100 + r) % 100 == r
  {
  }

  lemma SplitNumber(y: nat, m: nat, d: nat)
    requires m < 100 && d < 100
    ensures var v := y * 10000 + m * 100 + d; v / 10000 == y && v % 10000 / 100 == m && v % 100 == d
  {
    Over10000(y, m * 100 + d);
    Over100(m, d);
    Over100(y * 100 + m, d);
    assert y * 10000 + m * 100 + d == (y * 100 + m) * 100 + d;
  }

  lemma PartsAgree(y: nat, m: nat, d: nat)
    requires y < 10000 && m < 100 && d < 100
    ensures var v := y * 10000 + m * 100 + d;
            FromYmdOpt(y, m, d) == ParseYyyymmdd(v) <==> 19000101 <= v <= 30001231 || !Exists(Date(y, m, d))
    ensures FromCalendarDate(y, AsU8(m), AsU8(d)) == FromYmdOpt(y, m, d)
  {
    SplitNumber(y, m, d);
  }

  /** The text form agrees with the integer form exactly on the integer form's range, and for what is no day of the calendar. */
  lemma TextAgreesExactly(s: string)
    requires |s| == 8 && AllDigits(s)
    ensures ParseText(s) == ParseYyyymmdd(DigitsValue(s)) <==>
            19000101 <= DigitsValue(s) <= 30001231 || !Exists(SpelledDate(s))
    ensures ParseTextTime(s) == ParseText(s)
  {
    var d := SpelledDate(s);
    EightDigits(s);
    TextReadsParts(s);
    NumberReadsParts(d, DigitsValue(s), ParseText(s), ParseTextTime(s));
  }

  lemma NumberReadsParts(d: Date, v: int, text: Option<Date>, textTime: Option<Date>)
    requires 0 <= d.year < 10000 && 0 <= d.month < 100 && 0 <= d.day < 100 && v == Encode(d)
    requires text == FromYmdOpt(d.year, d.month, d.day) && textTime == FromCalendarDate(d.year, AsU8(d.month), AsU8(d.day))
    ensures text == ParseYyyymmdd(v) <==> 19000101 <= v <= 30001231 || !Exists(d)
    ensures textTime == text
  {
    PartsAgree(d.year, d.month, d.day);
  }

  lemma TextReadsParts(s: string)
    requires |s| == 8 && AllDigits(s)
    ensures var d := SpelledDate(s);
            && ParseText(s) == FromYmdOpt(d.year, d.month, d.day)
            && ParseTextTime(s) == FromCalendarDate(d.year, AsU8(d.month), AsU8(d.day))
  {
  }

  /** So the eight-digit numeral of an accepted integer reads as the same date. */
  lemma NumeralReadsTheSame(value: nat)
    requires ParseYyyymmdd(value).Some?
    ensures ParseText(Decimal(value)) == ParseYyyymmdd(value)
  {
    DecimalReadsBack(value);
    DecimalLength(value);
    TextAgreesExactly(Decimal(value));
  }

  lemma DecimalLength(value: nat)
    requires 10000000 <= value < 100000000
    ensures |Decimal(value)| == 8
  {
    var a := value / 10;
    var b := a / 10;
    var c := b / 10;
    var d := c / 10;
    var e := d / 10;
    var f := e / 10;
    var g := f / 10;
    assert 1 <= g < 10;
    assert |Decimal(g)| == 1 && |Decimal(f)| == 2 && |Decimal(e)| == 3 && |Decimal(d)| == 4;
    assert |Decimal(c)| == 5 && |Decimal(b)| == 6 && |Decimal(a)| == 7;
  }

  // ------------------------------------------------------------ timestamps

  datatype TimeOfDay = TimeOfDay(hour: nat, minute: nat, second: nat, nano: nat)

  datatype DateTime = DateTime(date: Date, time: TimeOfDay)

  /** The ODBC layout: a 16-bit year and a fraction in nanoseconds. */
  datatype Timestamp = Timestamp(year: int, month: nat, day: nat, hour: nat, minute: nat, second: nat, fraction: nat)

  const GIGA := 1_000_000_000

  /** `from_hms_nano_opt`: a leap second is a fraction of a second or more at second 59. */
  predicate TimeExists(t: TimeOfDay) {
    t.hour < 24 && t.minute < 60 && t.second < 60 && t.nano < 2 * GIGA && (t.nano >= GIGA ==> t.second == 59)
  }

  predicate DateTimeExists(v: DateTime) {
    -CHRONO_YEARS - 1 <= v.date.year <= CHRONO_YEARS && Exists(v.date) && TimeExists(v.time)
  }

  function AsI16(n: int): int {
    (n + 0x8000) % 0x1_0000 - 0x8000
  }

  function TimestampFromNaive(v: DateTime): Timestamp
    requires DateTimeExists(v)
  {
    Timestamp(AsI16(v.date.year), v.date.month, v.date.day, v.time.hour, v.time.minute, v.time.second, v.time.nano / 1000 * 1000)
  }

  function NaiveFromTimestamp(t: Timestamp): Option<DateTime> {
    var time := TimeOfDay(t.hour, t.minute, t.second, t.fraction);
    match FromYmdOpt(t.year, t.month, t.day)
    case None => None
    case Some(date) => if TimeExists(time) then Some(DateTime(date, time)) else None
  }

  function ToMicroseconds(v: DateTime): DateTime {
    v.(time := v.time.(nano := v.time.nano / 1000 * 1000))
  }

  /** A date and time comes back, cut to microseconds, exactly if its year fits 16 bits. */
  lemma TimestampReadsBackExactly(v: DateTime)
    requires DateTimeExists(v)
    ensures NaiveFromTimestamp(TimestampFromNaive(v)) == Some(ToMicroseconds(v)) <==> -0x8000 <= v.date.year < 0x8000
  {
    assert -0x8000 <= v.date.year < 0x8000 <==> AsI16(v.date.year) == v.date.year;
    assert v.time.nano / 1000 * 1000 <= v.time.nano;
  }

  /** `from_hms_nano`: no leap seconds. */
  predicate PlainTimeExists(t: TimeOfDay) {
    t.hour < 24 && t.minute < 60 && t.second < 60 && t.nano < GIGA
  }

  /** A date and time of the `time` crate. */
  predicate PrimitiveExists(v: DateTime) {
    -TIME_YEARS <= v.date.year <= TIME_YEARS && Exists(v.date) && PlainTimeExists(v.time)
  }

  /** `timestamp_from_primitive`: the years of the `time` crate fit the 16 bits. */
  function TimestampFromPrimitive(v: DateTime): Timestamp
    requires PrimitiveExists(v)
  {
    Timestamp(AsI16(v.date.year), v.date.month, v.date.day, v.time.hour, v.time.minute, v.time.second, v.time.nano / 1000 * 1000)
  }

  /** The version for the `time` crate narrows five fields to bytes first. */
  function PrimitiveFromTimestamp(t: Timestamp): Option<DateTime> {
    var time := TimeOfDay(AsU8(t.hour), AsU8(t.minute), AsU8(t.second), t.fraction);
    match FromCalendarDate(t.year, AsU8(t.month), AsU8(t.day))
    case None => None
    case Some(date) => if PlainTimeExists(time) then Some(DateTime(date, time)) else None
  }

  lemma PrimitiveReadsBack(v: DateTime)
    requires PrimitiveExists(v)
    ensures PrimitiveFromTimestamp(TimestampFromPrimitive(v)) == Some(ToMicroseconds(v))
    ensures DateTimeExists(v) && TimestampFromPrimitive(v) == TimestampFromNaive(v)
  {
    assert AsI16(v.date.year) == v.date.year;
    assert v.time.nano / 1000 * 1000 <= v.time.nano;
    assert DaysIn(v.date.year, v.date.month) <= 31;
  }

  predicate Bytes(t: Timestamp) {
    t.month < 0x100 && t.day < 0x100 && t.hour < 0x100 && t.minute < 0x100 && t.second < 0x100
  }

  /** The fields as they stand, and as the second reading narrows them. */
  function RawFields(t: Timestamp): DateTime {
    DateTime(Date(t.year, t.month, t.day), TimeOfDay(t.hour, t.minute, t.second, t.fraction))
  }

  function NarrowFields(t: Timestamp): DateTime {
    DateTime(Date(t.year, AsU8(t.month), AsU8(t.day)), TimeOfDay(AsU8(t.hour), AsU8(t.minute), AsU8(t.second), t.fraction))
  }

  lemma BothReadings(t: Timestamp)
    ensures NaiveFromTimestamp(t) == if DateTimeExists(RawFields(t)) then Some(RawFields(t)) else None
    ensures PrimitiveFromTimestamp(t) == if PrimitiveExists(NarrowFields(t)) then Some(NarrowFields(t)) else None
    ensures DateTimeExists(RawFields(t)) ==> Bytes(t)
  {
    assert DaysIn(t.year, t.month) <= 31;
  }

  /**
   * The two readings of a timestamp agree exactly if neither takes what only
   * it can represent: the first a far year or a leap second, the second a
   * field that is a date or time only after narrowing.
   */
  lemma TimestampsAgreeExactly(t: Timestamp)
    ensures PrimitiveFromTimestamp(t) == NaiveFromTimestamp(t) <==>
            && (DateTimeExists(RawFields(t)) ==> -TIME_YEARS <= t.year <= TIME_YEARS && t.fraction < GIGA)
            && (PrimitiveExists(NarrowFields(t)) ==> Bytes(t))
  {
    BothReadings(t);
  }

  /** Cutting to microseconds drops less than one, and nothing else. */
  lemma CutToMicroseconds(v: DateTime)
    ensures var cut := ToMicroseconds(v);
            && cut.time.nano % 1000 == 0 && cut.time.nano <= v.time.nano < cut.time.nano + 1000
            && cut.date == v.date && cut.time.(nano := 0) == v.time.(nano := 0)
  {
  }

  /** Year first, then month, then day. */
  lemma ReadingOrder()
    ensures ParseYyyymmdd(20240229) == Some(Date(2024, 2, 29)) && ParseYyyymmdd(20230229) == None
    ensures ParseText("20240229") == Some(Date(2024, 2, 29))
  {
    AcceptedExactly(20240229, Date(2024, 2, 29));
    DigitsOfDate();
  }

  lemma DigitsOfYear()
    ensures AllDigits("2024") && DigitsValue("2024") == 2024
  {
    PushDigit("", '2');
    PushDigit("2", '0');
    PushDigit("20", '2');
    PushDigit("202", '4');
    assert "" + ['2'] == "2" && "2" + ['0'] == "20" && "20" + ['2'] == "202" && "202" + ['4'] == "2024";
  }

  lemma DigitsOfMonth()
    ensures AllDigits("02") && DigitsValue("02") == 2
  {
    PushDigit("", '0');
    PushDigit("0", '2');
    assert "" + ['0'] == "0" && "0" + ['2'] == "02";
  }

  lemma DigitsOfDay()
    ensures AllDigits("29") && DigitsValue("29") == 29
  {
    PushDigit("", '2');
    PushDigit("2", '9');
    assert "" + ['2'] == "2" && "2" + ['9'] == "29";
  }

  lemma PartsOfDate(s: string, year: string, month: string, day: string)
    requires |year| == 4 && |month| == 2 && |day| == 2 && s == year + month + day
    ensures |s| == 8 && s[0..4] == year && s[4..6] == month && s[6..8] == day
  {
  }

  lemma DigitsOfDate()
    ensures AllDigits("20240229") && SpelledDate("20240229") == Date(2024, 2, 29)
  {
    PartsOfDate("20240229", "2024", "02", "29");
    DigitsOfYear();
    DigitsOfMonth();
    DigitsOfDay();
  }
}
