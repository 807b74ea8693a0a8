/**
 * Timestamps: `convert_time` (Python's `datetime.strptime(s[:-4], "%Y-%m-%dT%H:%M")`), the
 * arithmetic behind subtracting and comparing naive datetimes, and the `%I:%M%p` clock text.
 */
module Time {
  import opened Wrappers
  import opened Text

  /** The fields of a naive `datetime` whose seconds and microseconds are 0. */
  datatype DateTime = DateTime(year: nat, month: nat, day: nat, hour: nat, minute: nat) {

    /** What Python's datetime constructor accepts. */
    predicate Valid()
    {
      && 1 <= year <= 9999
      && 1 <= month <= 12
      && 1 <= day <= DaysInMonth(year, month)
      && hour < 24
      && minute < 60
    }
  }

  /** The values Python can hold in a `datetime`. */
  type ValidDateTime = dt: DateTime | dt.Valid() witness DateTime(1, 1, 1, 0, 0)

  predicate IsLeap(y: int)
  {
    y % 4 == 0 && (y % 100 != 0 || y % 400 == 0)
  }

  function DaysInMonth(y: int, m: nat): nat
    requires 1 <= m <= 12
  {
    if m == 2 then (if IsLeap(y) then 29 else 28)
    else if m == 4 || m == 6 || m == 9 || m == 11 then 30
    else 31
  }

  // ---------------------------------------------------------------------------------------------
  // Parsing. Python's strptime turns each directive into a regular expression (with IGNORECASE):
  //   %Y  \d\d\d\d        %m  1[0-2]|0[1-9]|[1-9]        %d  3[01]|[12]\d|0[1-9]|[1-9]| [1-9]
  //   %H  2[0-3]|[0-1]\d|\d                               %M  [0-5]\d|\d
  // matches from the start and raises ValueError when characters remain. None of the field
  // languages contains a separator, so each field is the text up to the next separator.

  function YearField(t: string): (r: Option<nat>)
    ensures r.Some? ==> r.value <= 9999
  {
    if |t| == 4 && IsDigit(t[0]) && IsDigit(t[1]) && IsDigit(t[2]) && IsDigit(t[3])
    then Some(100 * (10 * DigitValue(t[0]) + DigitValue(t[1])) + 10 * DigitValue(t[2]) + DigitValue(t[3]))
    else None
  }

  function MonthField(t: string): (r: Option<nat>)
    ensures r.Some? ==> 1 <= r.value <= 12
  {
    if |t| == 2 && t[0] == '1' && '0' <= t[1] <= '2' then Some(10 + DigitValue(t[1]))
    else if |t| == 2 && t[0] == '0' && '1' <= t[1] <= '9' then Some(DigitValue(t[1]))
    else if |t| == 1 && '1' <= t[0] <= '9' then Some(DigitValue(t[0]))
    else None
  }

  function DayField(t: string): (r: Option<nat>)
    ensures r.Some? ==> 1 <= r.value <= 31
  {
    if |t| == 2 && t[0] == '3' && '0' <= t[1] <= '1' then Some(30 + DigitValue(t[1]))
    else if |t| == 2 && '1' <= t[0] <= '2' && IsDigit(t[1]) then Some(10 * DigitValue(t[0]) + DigitValue(t[1]))
    else if |t| == 2 && t[0] == '0' && '1' <= t[1] <= '9' then Some(DigitValue(t[1]))
    else if |t| == 1 && '1' <= t[0] <= '9' then Some(DigitValue(t[0]))
    else if |t| == 2 && t[0] == ' ' && '1' <= t[1] <= '9' then Some(DigitValue(t[1]))
    else None
  }

  function HourField(t: string): (r: Option<nat>)
    ensures r.Some? ==> r.value < 24
  {
    if |t| == 2 && t[0] == '2' && '0' <= t[1] <= '3' then Some(20 + DigitValue(t[1]))
    else if |t| == 2 && '0' <= t[0] <= '1' && IsDigit(t[1]) then Some(10 * DigitValue(t[0]) + DigitValue(t[1]))
    else if |t| == 1 && IsDigit(t[0]) then Some(DigitValue(t[0]))
    else None
  }

  function MinuteField(t: string): (r: Option<nat>)
    ensures r.Some? ==> r.value < 60
  {
    if |t| == 2 && '0' <= t[0] <= '5' && IsDigit(t[1]) then Some(10 * DigitValue(t[0]) + DigitValue(t[1]))
    else if |t| == 1 && IsDigit(t[0]) then Some(DigitValue(t[0]))
    else None
  }

  /** The index of the first character of s that is in cs, or |s| when there is none. */
  function FirstIndexOf(s: string, cs: set<char>): (i: nat)
    ensures i <= |s|
    ensures i < |s| ==> s[i] in cs
    ensures forall j :: 0 <= j < i ==> s[j] !in cs
  {
    if |s| == 0 then 0
    else if s[0] in cs then 0
    else 1 + FirstIndexOf(s[1..], cs)
  }

  /** The text before and after the first character of s that is in cs, if there is one. */
  function SplitAt(s: string, cs: set<char>): (r: Option<(string, string)>)
    ensures r.Some? ==> |r.value.0| < |s| && s == r.value.0 + [s[|r.value.0|]] + r.value.1 && s[|r.value.0|] in cs
    ensures r.Some? ==> forall j :: 0 <= j < |r.value.0| ==> r.value.0[j] !in cs
    ensures r.None? ==> forall j :: 0 <= j < |s| ==> s[j] !in cs
  {
    var i := FirstIndexOf(s, cs);
    if i == |s| then None else Some((s[..i], s[i + 1..]))
  }

  /** The datetime made of the parsed fields, when every field parsed and the date exists. */
  function Assemble(year: Option<nat>, month: Option<nat>, day: Option<nat>, hour: Option<nat>,
                    minute: Option<nat>): (r: Option<ValidDateTime>)
    requires month.Some? ==> 1 <= month.value <= 12
    requires hour.Some? ==> hour.value < 24
    requires minute.Some? ==> minute.value < 60
    requires year.Some? ==> year.value <= 9999
    requires day.Some? ==> 1 <= day.value
  {
    if year.None? || month.None? || day.None? || hour.None? || minute.None? then None
    else if year.value < 1 || day.value > DaysInMonth(year.value, month.value) then None
    else Some(DateTime(year.value, month.value, day.value, hour.value, minute.value))
  }

  /** `datetime.strptime(p, "%Y-%m-%dT%H:%M")`; None stands for the ValueError it raises. */
  function ParseMinutes(p: string): (r: Option<ValidDateTime>)
  {
    if |p| < 5 || p[4] != '-' then None
    else
      match SplitAt(p[5..], {'-'})
      case None => None
      case Some((month, rest)) =>
        match SplitAt(rest, {'T', 't'})
        case None => None
        case Some((day, time)) =>
          match SplitAt(time, {':'})
          case None => None
          case Some((hour, minute)) =>
            Assemble(YearField(p[..4]), MonthField(month), DayField(day), HourField(hour), MinuteField(minute))
  }

  /** `convert_time`: drop the last four characters and parse the rest. */
  function ConvertTime(s: string): (r: Option<ValidDateTime>)
  {
    ParseMinutes(DropLast(s, 4))
  }

  /** The parse looks at nothing but the part before the four-character suffix. */
  lemma ConvertTimeIgnoresSuffix(p: string, a: string, b: string)
    requires |a| == 4 && |b| == 4
    ensures ConvertTime(p + a) == ConvertTime(p + b) == ParseMinutes(p)
  {
    assert DropLast(p + a, 4) == p;
    assert DropLast(p + b, 4) == p;
  }

  /** A string of fewer than four characters leaves an empty prefix, which never parses. */
  lemma ShortTimestampFails(s: string)
    requires |s| < 4
    ensures ConvertTime(s).None?
  {
  }

  // ---------------------------------------------------------------------------------------------
  // The canonical text form "YYYY-MM-DDTHH:MM", and its round trip through the parser.

  function Digits2(n: nat): (r: string)
    requires n < 100
    ensures |r| == 2 && IsDigit(r[0]) && IsDigit(r[1])
  {
    [DigitChar(n / 10), DigitChar(n % 10)]
  }

  function Digits4(n: nat): (r: string)
    requires n < 10000
    ensures |r| == 4 && forall i :: 0 <= i < 4 ==> IsDigit(r[i])
  {
    Digits2(n / 100) + Digits2(n % 100)
  }

  function Format(dt: ValidDateTime): (r: string)
    ensures |r| == 16
  {
    Digits4(dt.year) + "-" + Digits2(dt.month) + "-" + Digits2(dt.day) + "T"
      + Digits2(dt.hour) + ":" + Digits2(dt.minute)
  }

  lemma Digits2Fields(n: nat)
    requires n < 100
    ensures 1 <= n <= 12 ==> MonthField(Digits2(n)) == Some(n)
    ensures 1 <= n <= 31 ==> DayField(Digits2(n)) == Some(n)
    ensures n < 24 ==> HourField(Digits2(n)) == Some(n)
    ensures n < 60 ==> MinuteField(Digits2(n)) == Some(n)
  {
    var t := Digits2(n);
    assert DigitValue(t[0]) == n / 10 && DigitValue(t[1]) == n % 10;
    assert n == 10 * (n / 10) + n % 10;
  }

  lemma Digits2Value(n: nat)
    requires n < 100
    ensures 10 * DigitValue(Digits2(n)[0]) + DigitValue(Digits2(n)[1]) == n
  {
  }

  lemma Digits4Field(n: nat)
    requires n < 10000
    ensures YearField(Digits4(n)) == Some(n)
  {
    var t := Digits4(n);
    Digits2Value(n / 100);
    Digits2Value(n % 100);
    assert t[..2] == Digits2(n / 100) && t[2..] == Digits2(n % 100);
  }

  /** Splitting a text that has no separator before c finds c. */
  lemma SplitAtFirst(a: string, c: char, b: string, cs: set<char>)
    requires c in cs && forall j :: 0 <= j < |a| ==> a[j] !in cs
    ensures SplitAt(a + [c] + b, cs) == Some((a, b))
  {
    var s := a + [c] + b;
    assert s[|a|] == c;
    assert forall j :: 0 <= j < |a| ==> s[j] == a[j];
    assert FirstIndexOf(s, cs) == |a|;
    assert s[..|a|] == a && s[|a| + 1..] == b;
  }

  /** The texts that `ParseMinutes` reads as fields: year, '-', month, '-', day, 'T' or 't', hour, ':', minute. */
  predicate FieldLayout(p: string, y: string, mo: string, d: string, sep: char, h: string, mi: string)
  {
    && |y| == 4
    && (sep == 'T' || sep == 't')
    && |p| >= 5 && p[..4] == y && p[4] == '-'
    && p[5..] == mo + ['-'] + (d + [sep] + (h + [':'] + mi))
    && (forall j :: 0 <= j < |mo| ==> mo[j] != '-')
    && (forall j :: 0 <= j < |d| ==> d[j] != 'T' && d[j] != 't')
    && (forall j :: 0 <= j < |h| ==> h[j] != ':')
  }

  lemma LayoutSplits(p: string, y: string, mo: string, d: string, sep: char, h: string, mi: string)
    requires FieldLayout(p, y, mo, d, sep, h, mi)
    ensures SplitAt(p[5..], {'-'}) == Some((mo, d + [sep] + (h + [':'] + mi)))
    ensures SplitAt(d + [sep] + (h + [':'] + mi), {'T', 't'}) == Some((d, h + [':'] + mi))
    ensures SplitAt(h + [':'] + mi, {':'}) == Some((h, mi))
  {
    SplitAtFirst(mo, '-', d + [sep] + (h + [':'] + mi), {'-'});
    SplitAtFirst(d, sep, h + [':'] + mi, {'T', 't'});
    SplitAtFirst(h, ':', mi, {':'});
  }

  /** A text laid out as the format asks parses to whatever its fields parse to. */
  lemma ParseMinutesOfFields(p: string, y: string, mo: string, d: string, sep: char, h: string, mi: string)
    requires FieldLayout(p, y, mo, d, sep, h, mi)
    ensures ParseMinutes(p) == Assemble(YearField(y), MonthField(mo), DayField(d), HourField(h), MinuteField(mi))
  {
    LayoutSplits(p, y, mo, d, sep, h, mi);
  }

  /** Conversely, every text that parses is laid out as the format asks, and its fields give the result. */
  lemma ParsedFields(p: string) returns (y: string, mo: string, d: string, sep: char, h: string, mi: string)
    requires ParseMinutes(p).Some?
    ensures FieldLayout(p, y, mo, d, sep, h, mi)
    ensures ParseMinutes(p) == Assemble(YearField(y), MonthField(mo), DayField(d), HourField(h), MinuteField(mi))
  {
    var tail := p[5..];
    var (month, rest) := SplitAt(tail, {'-'}).value;
    var (day, time) := SplitAt(rest, {'T', 't'}).value;
    var (hour, minute) := SplitAt(time, {':'}).value;
    y, mo, d, sep, h, mi := p[..4], month, day, rest[|day|], hour, minute;
    assert time == h + [':'] + mi;
    assert rest == d + [sep] + time;
    assert tail == mo + ['-'] + rest;
    ParseMinutesOfFields(p, y, mo, d, sep, h, mi);
  }

  /** So "succeeds" means exactly: laid out as the format asks, every field accepted, the date exists. */
  lemma ParseMinutesIff(p: string, y: string, mo: string, d: string, sep: char, h: string, mi: string)
    requires FieldLayout(p, y, mo, d, sep, h, mi)
    ensures ParseMinutes(p).Some? <==>
      && YearField(y).Some? && MonthField(mo).Some? && DayField(d).Some?
      && HourField(h).Some? && MinuteField(mi).Some?
      && YearField(y).value >= 1 && DayField(d).value <= DaysInMonth(YearField(y).value, MonthField(mo).value)
  {
    ParseMinutesOfFields(p, y, mo, d, sep, h, mi);
  }

  /** In a text laid out as the format asks, the date/time separator follows the day. */
  lemma LayoutSeparator(p: string, y: string, mo: string, d: string, sep: char, h: string, mi: string)
    requires FieldLayout(p, y, mo, d, sep, h, mi)
    ensures 5 + |mo| + 1 + |d| < |p| && p[5 + |mo| + 1 + |d|] == sep
  {
    var rest := d + [sep] + (h + [':'] + mi);
    assert p[5..][|mo| + 1..] == rest;
    assert rest[|d|] == sep;
  }

  /** A text without a date/time separator 'T' or 't' never parses. */
  lemma ParsedHasSeparator(p: string)
    ensures ParseMinutes(p).Some? ==> exists j :: 0 <= j < |p| && (p[j] == 'T' || p[j] == 't')
  {
    if ParseMinutes(p).Some? {
      var y, mo, d, sep, h, mi := ParsedFields(p);
      LayoutSeparator(p, y, mo, d, sep, h, mi);
    }
  }

  /** The canonical text of a datetime is laid out as the format asks, with its fields in two or four digits. */
  lemma FormatLayout(dt: ValidDateTime)
    ensures FieldLayout(Format(dt), Digits4(dt.year), Digits2(dt.month), Digits2(dt.day), 'T',
                        Digits2(dt.hour), Digits2(dt.minute))
  {
    var y, mo, d, h, mi := Digits4(dt.year), Digits2(dt.month), Digits2(dt.day), Digits2(dt.hour), Digits2(dt.minute);
    var p := Format(dt);
    assert p == y + "-" + (mo + ['-'] + (d + ['T'] + (h + [':'] + mi)));
    assert p[..4] == y;
    assert p[5..] == mo + ['-'] + (d + ['T'] + (h + [':'] + mi));
  }

  /** Any datetime written as "YYYY-MM-DDTHH:MM" and followed by any four characters parses back to itself. */
  lemma ConvertTimeRoundTrip(dt: ValidDateTime, suffix: string)
    requires |suffix| == 4
    ensures ConvertTime(Format(dt) + suffix) == Some(dt)
  {
    var p := Format(dt);
    var y, mo, d, h, mi := Digits4(dt.year), Digits2(dt.month), Digits2(dt.day), Digits2(dt.hour), Digits2(dt.minute);
    ConvertTimeIgnoresSuffix(p, suffix, suffix);
    FormatLayout(dt);
    ParseMinutesOfFields(p, y, mo, d, 'T', h, mi);
    Digits4Field(dt.year);
    Digits2Fields(dt.month);
    Digits2Fields(dt.day);
    Digits2Fields(dt.hour);
    Digits2Fields(dt.minute);
  }

  /** The text of February 29 at hour:minute in the given year, as the format writes it. */
  lemma LeapDayLayout(year: nat, hour: nat, minute: nat)
    requires year < 10000 && hour < 24 && minute < 60
    ensures FieldLayout(Digits4(year) + "-02-29T" + Digits2(hour) + ":" + Digits2(minute),
                        Digits4(year), "02", "29", 'T', Digits2(hour), Digits2(minute))
  {
    var y, h, mi := Digits4(year), Digits2(hour), Digits2(minute);
    var p := y + "-02-29T" + h + ":" + mi;
    assert p == y + "-" + ("02" + ['-'] + ("29" + ['T'] + (h + [':'] + mi)));
    assert p[..4] == y;
    assert p[5..] == "02" + ['-'] + ("29" + ['T'] + (h + [':'] + mi));
  }

  /**
   * The calendar check: a February 29 timestamp, in any year the format can hold, converts exactly
   * when the year is a leap year, and then to that day.
   */
  lemma LeapDayChecked(year: nat, hour: nat, minute: nat, suffix: string)
    requires 1 <= year <= 9999 && hour < 24 && minute < 60 && |suffix| == 4
    ensures var r := ConvertTime(Digits4(year) + "-02-29T" + Digits2(hour) + ":" + Digits2(minute) + suffix);
            && (r.Some? <==> IsLeap(year))
            && (IsLeap(year) ==> r == Some(DateTime(year, 2, 29, hour, minute)))
  {
    var p := Digits4(year) + "-02-29T" + Digits2(hour) + ":" + Digits2(minute);
    LeapDayLayout(year, hour, minute);
    ConvertTimeIgnoresSuffix(p, suffix, suffix);
    ParseMinutesOfFields(p, Digits4(year), "02", "29", 'T', Digits2(hour), Digits2(minute));
    Digits4Field(year);
    Digits2Fields(2);
    Digits2Fields(29);
    assert Digits2(2) == "02" && Digits2(29) == "29";
    Digits2Fields(hour);
    Digits2Fields(minute);
  }

  // ---------------------------------------------------------------------------------------------
  // Arithmetic and comparison of naive datetimes, as Python's datetime module computes them.

  /** Days before January 1 of year y, counting from 0001-01-01 (Python's `_days_before_year`). */
  function DaysBeforeYear(y: nat): int
    requires y >= 1
  {
    var y1 := y - 1;
    y1 * 365 + y1 / 4 - y1 / 100 + y1 / 400
  }

  /** Days in year y before the first of month m (Python's `_days_before_month`). */
  function DaysBeforeMonth(y: nat, m: nat): nat
    requires 1 <= m <= 12
  {
    [0, 31, 59, 90, 120, 151, 181, 212, 243, 273, 304, 334][m - 1] + (if m > 2 && IsLeap(y) then 1 else 0)
  }

  /** The proleptic Gregorian ordinal of the date (Python's `date.toordinal`). */
  function Ordinal(dt: ValidDateTime): int
  {
    DaysBeforeYear(dt.year) + DaysBeforeMonth(dt.year, dt.month) + dt.day
  }

  /**
   * Minutes since 0000-12-31 00:00, the day before ordinal 1; `a - b` between two datetimes is
   * `Minutes(a) - Minutes(b)` minutes.
   */
  function Minutes(dt: ValidDateTime): int
  {
    (Ordinal(dt) * 24 + dt.hour) * 60 + dt.minute
  }

  /** Python's `a < b` on naive datetimes: the field tuples compared lexicographically. */
  predicate Before(a: DateTime, b: DateTime)
  {
    if a.year != b.year then a.year < b.year
    else if a.month != b.month then a.month < b.month
    else if a.day != b.day then a.day < b.day
    else if a.hour != b.hour then a.hour < b.hour
    else a.minute < b.minute
  }

  /** Before is a strict total order, so sorting by it is well defined. */
  lemma BeforeIsStrictTotalOrder(a: DateTime, b: DateTime, c: DateTime)
    ensures !Before(a, a)
    ensures Before(a, b) && Before(b, c) ==> Before(a, c)
    ensures a != b ==> Before(a, b) || Before(b, a)
    ensures Before(a, b) ==> !Before(b, a)
  {
  }

  /** A year has 365 days, 366 in a leap year: the next year starts that many days later. */
  lemma YearLength(y: nat)
    requires y >= 1
    ensures DaysBeforeYear(y + 1) == DaysBeforeYear(y) + 365 + (if IsLeap(y) then 1 else 0)
  {
    var n := y - 1;
    assert DaysBeforeYear(y) == n * 365 + n / 4 - n / 100 + n / 400;
    assert DaysBeforeYear(y + 1) == y * 365 + y / 4 - y / 100 + y / 400;
    var a := NextMultiple(y, 4);
    var b := NextMultiple(y, 100);
    var c := NextMultiple(y, 400);
    assert IsLeap(y) <==> a && (!b || c);
  }

  /** Counting multiples of k up to y adds one to the count up to y - 1 exactly when y is a multiple of k. */
  lemma NextMultiple(y: nat, k: nat) returns (multiple: bool)
    requires y >= 1 && (k == 4 || k == 100 || k == 400)
    ensures multiple <==> y % k == 0
    ensures y / k == (y - 1) / k + (if multiple then 1 else 0)
  {
    multiple := y % k == 0;
    if k == 4 {
      assert y / 4 == (y - 1) / 4 + (if y % 4 == 0 then 1 else 0);
    } else if k == 100 {
      assert y / 100 == (y - 1) / 100 + (if y % 100 == 0 then 1 else 0);
    } else {
      assert y / 400 == (y - 1) / 400 + (if y % 400 == 0 then 1 else 0);
    }
  }

  /** Every later year starts at least a year after y starts. */
  lemma {:induction false} YearsAdvance(y: nat, y': nat)
    requires 1 <= y < y'
    ensures DaysBeforeYear(y) + 365 + (if IsLeap(y) then 1 else 0) <= DaysBeforeYear(y')
    decreases y' - y
  {
    YearLength(y);
    if y + 1 < y' {
      YearsAdvance(y + 1, y');
      YearLength(y + 1);
    }
  }

  /** Each month starts where the one before it ends, and the last ends with the year. */
  lemma MonthLength(y: nat, m: nat)
    requires 1 <= m <= 12
    ensures m < 12 ==> DaysBeforeMonth(y, m + 1) == DaysBeforeMonth(y, m) + DaysInMonth(y, m)
    ensures m == 12 ==> DaysBeforeMonth(y, m) + DaysInMonth(y, m) == 365 + (if IsLeap(y) then 1 else 0)
  {
  }

  /** Every later month of the year starts no earlier than month m ends. */
  lemma {:induction false} MonthsAdvance(y: nat, m: nat, m': nat)
    requires 1 <= m < m' <= 12
    ensures DaysBeforeMonth(y, m) + DaysInMonth(y, m) <= DaysBeforeMonth(y, m')
    decreases m' - m
  {
    MonthLength(y, m);
    if m + 1 < m' {
      MonthsAdvance(y, m + 1, m');
      MonthLength(y, m + 1);
    }
  }

  /** A date that comes first in (year, month, day) order has the smaller ordinal. */
  lemma OrdinalOrder(a: ValidDateTime, b: ValidDateTime)
    requires (a.year, a.month, a.day) != (b.year, b.month, b.day)
    requires Before(a, b)
    ensures Ordinal(a) < Ordinal(b)
  {
    if a.year < b.year {
      MonthLength(a.year, 12);
      if a.month < 12 {
        MonthsAdvance(a.year, a.month, 12);
      }
      YearsAdvance(a.year, b.year);
    } else if a.month < b.month {
      MonthsAdvance(a.year, a.month, b.month);
    }
  }

  /**
   * Comparing naive datetimes agrees with comparing their `Minutes`, so the sort
   * key and the lateness arithmetic order datetimes alike.
   */
  lemma MinutesOrder(a: ValidDateTime, b: ValidDateTime)
    ensures Before(a, b) <==> Minutes(a) < Minutes(b)
    ensures a == b <==> Minutes(a) == Minutes(b)
  {
    BeforeIsStrictTotalOrder(a, b, b);
    if (a.year, a.month, a.day) != (b.year, b.month, b.day) {
      if Before(a, b) {
        OrdinalOrder(a, b);
      } else {
        OrdinalOrder(b, a);
      }
    }
  }

  // ---------------------------------------------------------------------------------------------
  // The clock text `strftime("%I:%M%p")`, with the C locale's AM/PM.

  /** `%I`: the hour on a 12-hour clock, 12 for midnight and noon. */
  function Hour12(hour: nat): (r: nat)
    requires hour < 24
    ensures 1 <= r <= 12
    ensures r % 12 == hour % 12
  {
    if hour % 12 == 0 then 12 else hour % 12
  }

  function Clock12(hour: nat, minute: nat): (r: string)
    requires hour < 24 && minute < 60
    ensures |r| == 7
  {
    Digits2(Hour12(hour)) + ":" + Digits2(minute) + (if hour < 12 then "AM" else "PM")
  }

  /** Reads an `%I:%M%p` text back into a 24-hour hour and a minute. */
  function ParseClock12(s: string): Option<(nat, nat)>
  {
    if |s| != 7 || s[2] != ':' || !(IsDigit(s[0]) && IsDigit(s[1]) && IsDigit(s[3]) && IsDigit(s[4])) then None
    else
      var h := 10 * DigitValue(s[0]) + DigitValue(s[1]);
      var m := 10 * DigitValue(s[3]) + DigitValue(s[4]);
      if h < 1 || h > 12 || m >= 60 then None
      else if s[5..] == "AM" then Some((h % 12, m))
      else if s[5..] == "PM" then Some((h % 12 + 12, m))
      else None
  }

  /** The clock text determines the hour and minute it was made from. */
  lemma Clock12RoundTrip(hour: nat, minute: nat)
    requires hour < 24 && minute < 60
    ensures ParseClock12(Clock12(hour, minute)) == Some((hour, minute))
  {
    var s := Clock12(hour, minute);
    var h12 := Hour12(hour);
    assert s[..2] == Digits2(h12) && s[3..5] == Digits2(minute);
    assert 10 * DigitValue(s[0]) + DigitValue(s[1]) == h12;
    assert 10 * DigitValue(s[3]) + DigitValue(s[4]) == minute;
    if hour < 12 {
      assert s[5..] == "AM";
    } else {
      assert s[5..] == "PM";
    }
  }

  /**
   * The clock text of `dt` shifted by the host's UTC offset (`to_localtime`); only the time of day
   * is displayed, so only the offset modulo one day matters.
   */
  function LocalClock(dt: ValidDateTime, offsetSeconds: int): (r: string)
    ensures |r| == 7
  {
    var tod := (dt.hour * 3600 + dt.minute * 60 + offsetSeconds) % 86400;
    Clock12(tod / 3600, tod % 3600 / 60)
  }

  /**
   * The clock text shows the hour and minute of the time of day of `dt` plus the offset: seconds since
   * 0000-12-31 00:00, shifted by the offset, modulo one day.
   */
  lemma LocalClockShows(dt: ValidDateTime, offsetSeconds: int)
    ensures var tod := (Minutes(dt) * 60 + offsetSeconds) % 86400;
            ParseClock12(LocalClock(dt, offsetSeconds)) == Some((tod / 3600, tod % 3600 / 60))
  {
    var x := dt.hour * 3600 + dt.minute * 60 + offsetSeconds;
    assert Minutes(dt) * 60 + offsetSeconds == 86400 * Ordinal(dt) + x;
    WholeDays(Ordinal(dt), x);
    var tod := x % 86400;
    Clock12RoundTrip(tod / 3600, tod % 3600 / 60);
  }

  /** Adding whole days leaves the time of day unchanged. */
  lemma WholeDays(q: int, x: int)
    ensures (86400 * q + x) % 86400 == x % 86400
  {
    assert 86400 * q + x == 86400 * (q + x / 86400) + x % 86400;
  }
}
