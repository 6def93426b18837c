/** The two date-time formats of the logger: log file names are stamped
    `yyyy.MM.dd HH:mm:ss`, log lines `dd.MM.yyyy HH:mm:ss.SSS`.  A clock
    reading is a calendar `DateTime` plus its milliseconds; `EpochSeconds`
    places a `DateTime` on the time line in proleptic Gregorian reckoning in a
    fixed-offset zone. */
module Timestamp {
  import opened Text

  datatype DateTime = DateTime(year: int, month: int, day: int, hour: int, minute: int, second: int)

  /** Milliseconds within a second, as `Calendar.MILLISECOND` holds them. */
  type Millis = x: int | 0 <= x < 1000

  /** Years this model covers: from the first full Gregorian year to the last
      year `yyyy` prints with four digits. */
  const MinYear := 1583
  const MaxYear := 9999

  predicate IsLeapYear(y: int) {
    y % 4 == 0 && (y % 100 != 0 || y % 400 == 0)
  }

  function DaysInMonth(y: int, m: int): (n: int)
    requires 1 <= m <= 12
    ensures 28 <= n <= 31
  {
    if m == 2 then (if IsLeapYear(y) then 29 else 28)
    else if m == 4 || m == 6 || m == 9 || m == 11 then 30
    else 31
  }

  function DaysInYear(y: int): (n: int) {
    if IsLeapYear(y) then 366 else 365
  }

  predicate Valid(dt: DateTime) {
    && MinYear <= dt.year <= MaxYear
    && 1 <= dt.month <= 12
    && 1 <= dt.day <= DaysInMonth(dt.year, dt.month)
    && 0 <= dt.hour < 24
    && 0 <= dt.minute < 60
    && 0 <= dt.second < 60
  }

  /** Chronological order of calendar readings: the first differing field
      decides. */
  predicate Before(a: DateTime, b: DateTime) {
    || a.year < b.year
    || (a.year == b.year && a.month < b.month)
    || (a.year == b.year && a.month == b.month && a.day < b.day)
    || (a.year == b.year && a.month == b.month && a.day == b.day && a.hour < b.hour)
    || (a.year == b.year && a.month == b.month && a.day == b.day && a.hour == b.hour
        && a.minute < b.minute)
    || (a.year == b.year && a.month == b.month && a.day == b.day && a.hour == b.hour
        && a.minute == b.minute && a.second < b.second)
  }

  // ---------------------------------------------------------------------------
  // File-name stamp `yyyy.MM.dd HH:mm:ss`

  const NameLayout := Layout([4, 2, 2, 2, 2, 2], ['.', '.', ' ', ':', ':'])

  function NameFields(dt: DateTime): (fields: seq<int>) {
    [dt.year, dt.month, dt.day, dt.hour, dt.minute, dt.second]
  }

  lemma FieldsOfSix(v: seq<int>)
    requires |v| == 6
    ensures NameFields(DateTime(v[0], v[1], v[2], v[3], v[4], v[5])) == v
  {
  }

  lemma NameFieldsFit(dt: DateTime)
    requires Valid(dt)
    ensures Fits(NameFields(dt), NameLayout)
  {
    assert Pow10(2) == 100 && Pow10(4) == 10000;
  }

  /** `fileNameDateTimeFormat.format(dt)`. */
  function FormatStamp(dt: DateTime): (stamp: string)
    requires Valid(dt)
  {
    NameFieldsFit(dt);
    Render(NameFields(dt), NameLayout)
  }

  /** `fileNameDateTimeFormat.parse(s)`, strict: exactly the nineteen
      characters `FormatStamp` produces, for a valid date. */
  function ParseStamp(s: string): (r: Option<DateTime>)
    ensures r.Some? ==> Valid(r.value)
  {
    match Unrender(s, NameLayout)
    case None => None
    case Some(v) =>
      var dt := DateTime(v[0], v[1], v[2], v[3], v[4], v[5]);
      if Valid(dt) then Some(dt) else None
  }

  /** Every stamp has the same length. */
  lemma StampLength(dt: DateTime)
    requires Valid(dt)
    ensures |FormatStamp(dt)| == 19
  {
    assert Width(NameLayout) == 19 by {
      var l := NameLayout;
      assert Width(Tail(Tail(Tail(Tail(Tail(l)))))) == 2;
    }
  }

  /** Parsing a formatted stamp gives back the reading. */
  lemma ParseFormat(dt: DateTime)
    requires Valid(dt)
    ensures ParseStamp(FormatStamp(dt)) == Some(dt)
  {
    NameFieldsFit(dt);
    UnrenderRender(NameFields(dt), NameLayout);
  }

  /** A stamp that parses is the formatting of what it parses to: the
      parser admits one spelling per reading. */
  lemma {:induction false} FormatParse(s: string)
    requires ParseStamp(s).Some?
    ensures FormatStamp(ParseStamp(s).value) == s
  {
    var v := Unrender(s, NameLayout).value;
    var dt := ParseStamp(s).value;
    assert |v| == 6;
    assert dt == DateTime(v[0], v[1], v[2], v[3], v[4], v[5]);
    FieldsOfSix(v);
    RenderUnrender(s, NameLayout);
  }

  /** Fields order as the lexicographic order of their values. */
  lemma BeforeIsFieldOrder(a: DateTime, b: DateTime)
    ensures Before(a, b) <==> IntsLess(NameFields(a), NameFields(b))
  {
    var fa, fb := NameFields(a), NameFields(b);
    assert IntsLess(fa[5..], fb[5..]) <==> a.second < b.second by {
      assert fa[5..][1..] == [] && fb[5..][1..] == [];
    }
    assert IntsLess(fa[4..], fb[4..]) <==>
      (a.minute < b.minute || (a.minute == b.minute && IntsLess(fa[5..], fb[5..]))) by {
      assert fa[4..][1..] == fa[5..] && fb[4..][1..] == fb[5..];
    }
    assert IntsLess(fa[3..], fb[3..]) <==>
      (a.hour < b.hour || (a.hour == b.hour && IntsLess(fa[4..], fb[4..]))) by {
      assert fa[3..][1..] == fa[4..] && fb[3..][1..] == fb[4..];
    }
    assert IntsLess(fa[2..], fb[2..]) <==>
      (a.day < b.day || (a.day == b.day && IntsLess(fa[3..], fb[3..]))) by {
      assert fa[2..][1..] == fa[3..] && fb[2..][1..] == fb[3..];
    }
    assert IntsLess(fa[1..], fb[1..]) <==>
      (a.month < b.month || (a.month == b.month && IntsLess(fa[2..], fb[2..]))) by {
      assert fa[1..][1..] == fa[2..] && fb[1..][1..] == fb[2..];
    }
  }

  /** String order of stamps is chronological order of readings. */
  lemma FormatOrder(a: DateTime, b: DateTime)
    requires Valid(a) && Valid(b)
    ensures LexLess(FormatStamp(a), FormatStamp(b)) <==> Before(a, b)
  {
    NameFieldsFit(a);
    NameFieldsFit(b);
    RenderOrder(NameFields(a), NameFields(b), NameLayout);
    BeforeIsFieldOrder(a, b);
  }

  // ---------------------------------------------------------------------------
  // The time line

  /** Days from 0000-01-01 to the first of January of `y`: 365 per year plus
      one per leap year in `[0, y)`. */
  function DaysBeforeYear(y: int): (n: int)
    requires y >= 0
  {
    365 * y + (y + 3) / 4 - (y + 99) / 100 + (y + 399) / 400
  }

  /** Days from the first of January to the first of month `m` of year `y`. */
  function DaysBeforeMonth(y: int, m: int): (n: int)
    requires 1 <= m <= 12
  {
    var common :=
      if m == 1 then 0 else if m == 2 then 31 else if m == 3 then 59
      else if m == 4 then 90 else if m == 5 then 120 else if m == 6 then 151
      else if m == 7 then 181 else if m == 8 then 212 else if m == 9 then 243
      else if m == 10 then 273 else if m == 11 then 304 else 334;
    common + if IsLeapYear(y) && m > 2 then 1 else 0
  }

  /** `DaysBeforeYear(1970)`: the day of the Unix epoch. */
  const UnixEpochDay := 719528

  function DayNumber(dt: DateTime): (n: int)
    requires Valid(dt)
  {
    DaysBeforeYear(dt.year) + DaysBeforeMonth(dt.year, dt.month) + dt.day - 1 - UnixEpochDay
  }

  function SecondOfDay(dt: DateTime): (n: int) {
    dt.hour * 3600 + dt.minute * 60 + dt.second
  }

  /** Seconds since 1970-01-01 00:00:00 of the reading. */
  function EpochSeconds(dt: DateTime): (secs: int)
    requires Valid(dt)
  {
    DayNumber(dt) * 86400 + SecondOfDay(dt)
  }

  /** `Date.getTime()` of a clock reading. */
  function EpochMillis(dt: DateTime, ms: Millis): (millis: int)
    requires Valid(dt)
  {
    EpochSeconds(dt) * 1000 + ms
  }

  lemma UnixEpochDayIsYear1970()
    ensures DaysBeforeYear(1970) == UnixEpochDay
  {
  }

  /** Stepping `y` by one adds one leap-rule multiple below it exactly when
      `y` itself is such a multiple. */
  lemma MultiplesOf4Step(y: int)
    requires y >= 0
    ensures (y + 4) / 4 - (y + 3) / 4 == if y % 4 == 0 then 1 else 0
  {
  }

  lemma MultiplesOf100Step(y: int)
    requires y >= 0
    ensures (y + 100) / 100 - (y + 99) / 100 == if y % 100 == 0 then 1 else 0
  {
  }

  lemma MultiplesOf400Step(y: int)
    requires y >= 0
    ensures (y + 400) / 400 - (y + 399) / 400 == if y % 400 == 0 then 1 else 0
  {
  }

  lemma MultiplesNest(y: int)
    requires y >= 0
    ensures y % 400 == 0 ==> y % 100 == 0
    ensures y % 100 == 0 ==> y % 4 == 0
  {
    if y % 400 == 0 {
      FourHundredsAreHundreds(y);
    }
    if y % 100 == 0 {
      HundredsAreFours(y);
    }
  }

  lemma FourHundredsAreHundreds(y: int)
    requires y >= 0 && y % 400 == 0
    ensures y % 100 == 0
  {
    var k := 4 * (y / 400);
    assert y == 100 * k;
    assert y / 100 == k;
  }

  lemma HundredsAreFours(y: int)
    requires y >= 0 && y % 100 == 0
    ensures y % 4 == 0
  {
    var k := 25 * (y / 100);
    assert y == 4 * k;
    assert y / 4 == k;
  }

  lemma DaysBeforeYearStep(y: int)
    requires y >= 0
    ensures DaysBeforeYear(y + 1) == DaysBeforeYear(y) + DaysInYear(y)
  {
    MultiplesNest(y);
    MultiplesOf4Step(y);
    MultiplesOf100Step(y);
    MultiplesOf400Step(y);
  }

  /** All days of the years in `[a, b)` come before the first day of `b`. */
  lemma {:induction false} YearsAscend(a: int, b: int)
    requires 0 <= a < b
    ensures DaysBeforeYear(a) + DaysInYear(a) <= DaysBeforeYear(b)
    decreases b - a
  {
    DaysBeforeYearStep(a);
    if a + 1 < b {
      YearsAscend(a + 1, b);
    }
  }

  lemma MonthsAscend(y: int, m1: int, m2: int)
    requires 1 <= m1 < m2 <= 12
    ensures DaysBeforeMonth(y, m1) + DaysInMonth(y, m1) <= DaysBeforeMonth(y, m2)
  {
  }

  lemma DayOfYearBounds(dt: DateTime)
    requires Valid(dt)
    ensures 0 <= DaysBeforeMonth(dt.year, dt.month) + dt.day - 1 < DaysInYear(dt.year)
  {
  }

  /** Distinct calendar days get increasing day numbers. */
  lemma DayNumberAscends(a: DateTime, b: DateTime)
    requires Valid(a) && Valid(b)
    requires a.year < b.year || (a.year == b.year && a.month < b.month)
             || (a.year == b.year && a.month == b.month && a.day < b.day)
    ensures DayNumber(a) < DayNumber(b)
  {
    DayOfYearBounds(a);
    DayOfYearBounds(b);
    if a.year < b.year {
      YearsAscend(a.year, b.year);
    } else if a.month < b.month {
      MonthsAscend(a.year, a.month, b.month);
    }
  }

  lemma EpochSecondsAscend(a: DateTime, b: DateTime)
    requires Valid(a) && Valid(b) && Before(a, b)
    ensures EpochSeconds(a) < EpochSeconds(b)
  {
    if a.year < b.year || (a.year == b.year && a.month < b.month)
       || (a.year == b.year && a.month == b.month && a.day < b.day) {
      DayNumberAscends(a, b);
    }
  }

  lemma BeforeTotal(a: DateTime, b: DateTime)
    ensures a == b || Before(a, b) || Before(b, a)
  {
  }

  /** Chronological order of readings is numeric order of their epoch
      seconds, in both directions. */
  lemma EpochOrder(a: DateTime, b: DateTime)
    requires Valid(a) && Valid(b)
    ensures Before(a, b) <==> EpochSeconds(a) < EpochSeconds(b)
  {
    BeforeTotal(a, b);
    if Before(a, b) {
      EpochSecondsAscend(a, b);
    } else if Before(b, a) {
      EpochSecondsAscend(b, a);
    }
  }

  /** The stamps of two readings compare as strings exactly as the readings'
      times compare as numbers. */
  lemma StampOrderIsTimeOrder(a: DateTime, b: DateTime)
    requires Valid(a) && Valid(b)
    ensures LexLess(FormatStamp(a), FormatStamp(b)) <==> EpochSeconds(a) < EpochSeconds(b)
  {
    FormatOrder(a, b);
    EpochOrder(a, b);
  }

  // ---------------------------------------------------------------------------
  // Log-line stamp `dd.MM.yyyy HH:mm:ss.SSS`

  const LineLayout := Layout([2, 2, 4, 2, 2, 2, 3], ['.', '.', ' ', ':', ':', '.'])

  function LineFields(dt: DateTime, ms: Millis): (fields: seq<int>) {
    [dt.day, dt.month, dt.year, dt.hour, dt.minute, dt.second, ms]
  }

  lemma LineFieldsFit(dt: DateTime, ms: Millis)
    requires Valid(dt)
    ensures Fits(LineFields(dt, ms), LineLayout)
  {
    assert Pow10(2) == 100 && Pow10(3) == 1000 && Pow10(4) == 10000;
  }

  /** `logDateTimeFormat.format(now)`. */
  function FormatLineStamp(dt: DateTime, ms: Millis): (stamp: string)
    requires Valid(dt)
  {
    LineFieldsFit(dt, ms);
    Render(LineFields(dt, ms), LineLayout)
  }

  function ParseLineStamp(s: string): (r: Option<(DateTime, Millis)>)
    ensures r.Some? ==> Valid(r.value.0)
  {
    match Unrender(s, LineLayout)
    case None => None
    case Some(v) =>
      var dt := DateTime(v[2], v[1], v[0], v[3], v[4], v[5]);
      if Valid(dt) && 0 <= v[6] < 1000 then Some((dt, v[6] as Millis)) else None
  }

  lemma LineStampLength(dt: DateTime, ms: Millis)
    requires Valid(dt)
    ensures |FormatLineStamp(dt, ms)| == 23
  {
    assert Width(LineLayout) == 23 by {
      var l := LineLayout;
      assert Width(Tail(Tail(Tail(Tail(Tail(Tail(l))))))) == 3;
    }
  }

  lemma ParseFormatLineStamp(dt: DateTime, ms: Millis)
    requires Valid(dt)
    ensures ParseLineStamp(FormatLineStamp(dt, ms)) == Some((dt, ms))
  {
    LineFieldsFit(dt, ms);
    UnrenderRender(LineFields(dt, ms), LineLayout);
  }

  lemma FieldsOfSeven(v: seq<int>)
    requires |v| == 7 && 0 <= v[6] < 1000
    ensures LineFields(DateTime(v[2], v[1], v[0], v[3], v[4], v[5]), v[6] as Millis) == v
  {
  }

  /** A line stamp that parses is the formatting of what it parses to. */
  lemma {:induction false} FormatParseLineStamp(s: string)
    requires ParseLineStamp(s).Some?
    ensures FormatLineStamp(ParseLineStamp(s).value.0, ParseLineStamp(s).value.1) == s
  {
    var v := Unrender(s, LineLayout).value;
    var p := ParseLineStamp(s).value;
    assert |v| == 7;
    assert p == (DateTime(v[2], v[1], v[0], v[3], v[4], v[5]), v[6] as Millis);
    FieldsOfSeven(v);
    RenderUnrender(s, LineLayout);
  }
}
