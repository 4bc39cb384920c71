/**
 * Proleptic Gregorian dates as Python's `datetime.date` sees them: day
 * arithmetic (`timedelta(days=n)`), `weekday()`, chronological comparison,
 * and the `strptime`/`strftime` directives the backend uses
 * (%Y %m %d %H %M, %A %B %I %p).
 */
module Calendar {
  import opened Wrappers
  import opened Text

  datatype Date = Date(year: int, month: int, day: int)

  /** A `datetime.time` with hour and minute (seconds are always 0 here). */
  datatype Clock = Clock(hour: int, minute: int)

  predicate IsLeap(y: int) {
    y % 4 == 0 && (y % 100 != 0 || y % 400 == 0)
  }

  function DaysInMonth(y: int, m: int): (n: int)
    requires 1 <= m <= 12
    ensures 28 <= n <= 31
  {
    if m == 2 then (if IsLeap(y) then 29 else 28)
    else if m == 4 || m == 6 || m == 9 || m == 11 then 30
    else 31
  }

  predicate ValidDate(d: Date) {
    1 <= d.month <= 12 && 1 <= d.day <= DaysInMonth(d.year, d.month)
  }

  /** The dates `datetime.date` can hold: years 1 through 9999. */
  predicate InPythonRange(d: Date) {
    ValidDate(d) && 1 <= d.year <= 9999
  }

  predicate ValidClock(t: Clock) {
    0 <= t.hour <= 23 && 0 <= t.minute <= 59
  }

  function YearLength(y: int): int {
    if IsLeap(y) then 366 else 365
  }

  /** Days from 0001-01-01 to January 1 of year `y` (negative before year 1). */
  function DaysBeforeYear(y: int): int
    decreases if y >= 1 then y - 1 else 1 - y
  {
    if y == 1 then 0
    else if y > 1 then DaysBeforeYear(y - 1) + YearLength(y - 1)
    else DaysBeforeYear(y + 1) - YearLength(y)
  }

  /** Days in year `y` before the first of month `m`. */
  function DaysBeforeMonth(y: int, m: int): int
    requires 1 <= m <= 12
  {
    var base :=
      if m == 1 then 0 else if m == 2 then 31 else if m == 3 then 59
      else if m == 4 then 90 else if m == 5 then 120 else if m == 6 then 151
      else if m == 7 then 181 else if m == 8 then 212 else if m == 9 then 243
      else if m == 10 then 273 else if m == 11 then 304 else 334;
    base + (if m > 2 && IsLeap(y) then 1 else 0)
  }

  /** Days since 0001-01-01, so `date.toordinal() == DayNumber(d) + 1`. */
  function DayNumber(d: Date): int
    requires ValidDate(d)
  {
    DaysBeforeYear(d.year) + DaysBeforeMonth(d.year, d.month) + d.day - 1
  }

  /** floor(y / k) steps up at `y` exactly when `k` divides `y`, for the leap-year divisors. */
  lemma DivSteps(y: int)
    ensures y / 4 - (y - 1) / 4 == if y % 4 == 0 then 1 else 0
    ensures y / 100 - (y - 1) / 100 == if y % 100 == 0 then 1 else 0
    ensures y / 400 - (y - 1) / 400 == if y % 400 == 0 then 1 else 0
    ensures y % 100 == 0 ==> y % 4 == 0
    ensures y % 400 == 0 ==> y % 100 == 0
  {
  }

  lemma YearStep(y: int)
    ensures DaysBeforeYear(y + 1) == DaysBeforeYear(y) + YearLength(y)
  {
  }

  /**
   * The count in closed form: 365 days a year plus one for every fourth year,
   * less the centuries, plus every fourth century.
   */
  lemma {:induction false} DaysBeforeYearClosed(y: int)
    requires y >= 1
    ensures var p := y - 1; DaysBeforeYear(y) == 365 * p + p / 4 - p / 100 + p / 400
  {
    if y > 1 {
      DaysBeforeYearClosed(y - 1);
      DivSteps(y - 1);
    }
  }

  lemma MonthStep(y: int, m: int)
    requires 1 <= m <= 12
    ensures m < 12 ==> DaysBeforeMonth(y, m + 1) == DaysBeforeMonth(y, m) + DaysInMonth(y, m)
    ensures m == 12 ==> DaysBeforeMonth(y, m) + DaysInMonth(y, m) == YearLength(y)
  {
  }

  /** The day after `d`, rolling over month and year ends. */
  function Next(d: Date): (r: Date)
    requires ValidDate(d)
    ensures ValidDate(r) && DayNumber(r) == DayNumber(d) + 1
  {
    MonthStep(d.year, d.month);
    YearStep(d.year);
    if d.day < DaysInMonth(d.year, d.month) then Date(d.year, d.month, d.day + 1)
    else if d.month < 12 then Date(d.year, d.month + 1, 1)
    else Date(d.year + 1, 1, 1)
  }

  /** The day before `d`. */
  function Prev(d: Date): (r: Date)
    requires ValidDate(d)
    ensures ValidDate(r) && DayNumber(r) == DayNumber(d) - 1
  {
    YearStep(d.year - 1);
    if d.day > 1 then Date(d.year, d.month, d.day - 1)
    else if d.month > 1 then
      MonthStep(d.year, d.month - 1);
      Date(d.year, d.month - 1, DaysInMonth(d.year, d.month - 1))
    else
      MonthStep(d.year - 1, 12);
      Date(d.year - 1, 12, 31)
  }

  /** `d + timedelta(days=n)`. */
  function AddDays(d: Date, n: int): (r: Date)
    requires ValidDate(d)
    decreases if n >= 0 then n else -n
    ensures ValidDate(r) && DayNumber(r) == DayNumber(d) + n
  {
    if n == 0 then d
    else if n > 0 then AddDays(Next(d), n - 1)
    else AddDays(Prev(d), n + 1)
  }

  /** `d.weekday()`: Monday is 0 and 0001-01-01 was a Monday. */
  function Weekday(d: Date): (w: int)
    requires ValidDate(d)
    ensures 0 <= w < 7
  {
    DayNumber(d) % 7
  }

  /** Moving `n` days moves the weekday `n` places round the week. */
  lemma WeekdayAddDays(d: Date, n: int)
    requires ValidDate(d)
    ensures Weekday(AddDays(d, n)) == (Weekday(d) + n) % 7
  {
    ModShift(DayNumber(d), n);
  }

  /** A week later is the same weekday. */
  lemma WeekdayAfterWeek(d: Date)
    requires ValidDate(d)
    ensures Weekday(AddDays(d, 7)) == Weekday(d)
  {
    WeekdayAddDays(d, 7);
    WeekShift(Weekday(d));
  }

  lemma WeekShift(w: int)
    requires 0 <= w < 7
    ensures (w + 7) % 7 == w
  {
  }

  lemma ModShift(k: int, n: int)
    ensures (k + n) % 7 == (k % 7 + n) % 7
  {
    assert k == 7 * (k / 7) + k % 7;
    assert k + n == 7 * (k / 7) + (k % 7 + n);
  }

  /** Python's `date < date`: comparison of (year, month, day). */
  predicate DateLess(a: Date, b: Date) {
    a.year < b.year
    || (a.year == b.year && (a.month < b.month || (a.month == b.month && a.day < b.day)))
  }

  lemma {:induction false} YearsIncrease(y1: int, y2: int)
    requires y1 < y2
    decreases y2 - y1
    ensures DaysBeforeYear(y1) + YearLength(y1) <= DaysBeforeYear(y2)
  {
    YearStep(y1);
    if y1 + 1 < y2 {
      YearsIncrease(y1 + 1, y2);
    }
  }

  lemma MonthsIncrease(y: int, m1: int, m2: int)
    requires 1 <= m1 < m2 <= 12
    ensures DaysBeforeMonth(y, m1) + DaysInMonth(y, m1) <= DaysBeforeMonth(y, m2)
  {
  }

  lemma {:induction false} LessMeansEarlier(a: Date, b: Date)
    requires ValidDate(a) && ValidDate(b) && DateLess(a, b)
    ensures DayNumber(a) < DayNumber(b)
  {
    if a.year < b.year {
      YearsIncrease(a.year, b.year);
      MonthStep(a.year, 12);
      if a.month < 12 { MonthsIncrease(a.year, a.month, 12); }
    } else if a.month < b.month {
      MonthsIncrease(a.year, a.month, b.month);
    }
  }

  /**
   * Comparing (year, month, day) is comparing day numbers, and day numbers
   * determine the date: the calendar is a bijection onto the integers' order.
   */
  lemma OrderIsDayOrder(a: Date, b: Date)
    requires ValidDate(a) && ValidDate(b)
    ensures DateLess(a, b) <==> DayNumber(a) < DayNumber(b)
    ensures a == b <==> DayNumber(a) == DayNumber(b)
  {
    if DateLess(a, b) { LessMeansEarlier(a, b); }
    if DateLess(b, a) { LessMeansEarlier(b, a); }
  }

  // ---------------------------------------------------------------- strptime / strftime

  /** The numeric `strptime` directives. */
  datatype Directive = Year4 | Month2 | Day2 | Hour2 | Minute2

  /**
   * What one directive makes of one field: %Y takes exactly four digits,
   * the others one or two digits within their range.
   */
  function FieldValue(t: string, f: Directive): (r: Option<int>)
    ensures r.Some? ==> AllDigits(t) && r.value == Value(t)
    ensures r.Some? && f == Month2 ==> 1 <= r.value <= 12
    ensures r.Some? && f == Day2 ==> 1 <= r.value <= 31
    ensures r.Some? && f == Hour2 ==> 0 <= r.value <= 23
    ensures r.Some? && f == Minute2 ==> 0 <= r.value <= 59
    ensures r.Some? && f == Year4 ==> |t| == 4
    ensures r.Some? && f != Year4 ==> 1 <= |t| <= 2
  {
    if !AllDigits(t) then None
    else
      var v := Value(t);
      match f
      case Year4 => if |t| == 4 then Some(v) else None
      case Month2 => if 1 <= |t| <= 2 && 1 <= v <= 12 then Some(v) else None
      case Day2 => if 1 <= |t| <= 2 && 1 <= v <= 31 then Some(v) else None
      case Hour2 => if 1 <= |t| <= 2 && v <= 23 then Some(v) else None
      case Minute2 => if 1 <= |t| <= 2 && v <= 59 then Some(v) else None
  }

  /** The order of the three fields of a date format. */
  datatype FieldOrder = YMD | MDY | DMY

  /** A date format such as '%m/%d/%Y': three fields joined by one separator. */
  datatype DateFormat = DateFormat(order: FieldOrder, sep: char)

  const IsoFormat := DateFormat(YMD, '-')

  /**
   * `datetime.strptime(s, fmt).date()`: the whole string must be consumed,
   * and the fields must make a date Python can hold; otherwise ValueError (None).
   */
  function ParseDateAs(s: string, fmt: DateFormat): (r: Option<Date>)
    ensures r.Some? ==> InPythonRange(r.value)
  {
    var pieces := Split(s, fmt.sep);
    if |pieces| != 3 then None
    else
      var (yi, mi, di) := match fmt.order
        case YMD => (0, 1, 2)
        case MDY => (2, 0, 1)
        case DMY => (2, 1, 0);
      var y := FieldValue(pieces[yi], Year4);
      var m := FieldValue(pieces[mi], Month2);
      var d := FieldValue(pieces[di], Day2);
      if y.None? || m.None? || d.None? then None
      else
        var date := Date(y.value, m.value, d.value);
        if InPythonRange(date) then Some(date) else None
  }

  /** `datetime.strptime(s, '%H:%M').time()`. */
  function ParseClock(s: string): (r: Option<Clock>)
    ensures r.Some? ==> ValidClock(r.value)
  {
    var pieces := Split(s, ':');
    if |pieces| != 2 then None
    else
      var h := FieldValue(pieces[0], Hour2);
      var m := FieldValue(pieces[1], Minute2);
      if h.None? || m.None? then None else Some(Clock(h.value, m.value))
  }

  /** `d.strftime('%Y-%m-%d')`. */
  function FormatIso(d: Date): string
    requires ValidDate(d)
  {
    var y := if d.year >= 0 then d.year else 0;
    ZeroPad(y, 4) + "-" + ZeroPad(d.month, 2) + "-" + ZeroPad(d.day, 2)
  }

  lemma Pow10Values()
    ensures Pow10(2) == 100 && Pow10(4) == 10000
  {
  }

  /** The three fields `FormatIso` writes, each at its full width. */
  lemma IsoFields(d: Date)
    requires InPythonRange(d)
    ensures Split(FormatIso(d), '-') == [FixedDigits(d.year, 4), FixedDigits(d.month, 2), FixedDigits(d.day, 2)]
  {
    Pow10Values();
    var y, m, dd := FixedDigits(d.year, 4), FixedDigits(d.month, 2), FixedDigits(d.day, 2);
    var pieces := [y, m, dd];
    assert [m, dd][1..] == [dd];
    assert Join([m, dd], '-') == m + "-" + dd;
    assert pieces[1..] == [m, dd];
    assert Join(pieces, '-') == FormatIso(d);
    SplitJoin(pieces, '-');
  }

  /** Formatting a date Python can hold and parsing it back gives the date. */
  lemma ParseFormatIso(d: Date)
    requires InPythonRange(d)
    ensures ParseDateAs(FormatIso(d), IsoFormat) == Some(d)
  {
    Pow10Values();
    IsoFields(d);
    ValueOfFixedDigits(d.year, 4);
    ValueOfFixedDigits(d.month, 2);
    ValueOfFixedDigits(d.day, 2);
    assert FieldValue(FixedDigits(d.year, 4), Year4) == Some(d.year);
    assert FieldValue(FixedDigits(d.month, 2), Month2) == Some(d.month);
    assert FieldValue(FixedDigits(d.day, 2), Day2) == Some(d.day);
  }

  /** A canonical "YYYY-MM-DD" string: four, two and two digits. */
  predicate IsCanonicalIso(s: string) {
    |s| == 10 && s[4] == '-' && s[7] == '-'
    && AllDigits(s[..4]) && AllDigits(s[5..7]) && AllDigits(s[8..])
  }

  /** The three fields of a canonical date string. */
  lemma CanonicalIsoSplit(s: string)
    requires IsCanonicalIso(s)
    ensures Split(s, '-') == [s[..4], s[5..7], s[8..]]
  {
    var pieces := [s[..4], s[5..7], s[8..]];
    assert [s[5..7], s[8..]][1..] == [s[8..]];
    assert Join([s[5..7], s[8..]], '-') == s[5..7] + "-" + s[8..];
    assert pieces[1..] == [s[5..7], s[8..]];
    assert Join(pieces, '-') == s;
    SplitJoin(pieces, '-');
  }

  /** The two fields of a five-character "HH:MM". */
  lemma ClockSplit(s: string)
    requires |s| == 5 && s[2] == ':' && AllDigits(s[..2]) && AllDigits(s[3..])
    ensures Split(s, ':') == [s[..2], s[3..]]
  {
    var pieces := [s[..2], s[3..]];
    assert pieces[1..] == [s[3..]];
    assert Join(pieces, ':') == s;
    SplitJoin(pieces, ':');
  }

  /** Christmas 2024 is a Wednesday. */
  lemma ChristmasWeekday(d: Date)
    requires d == Date(2024, 12, 25)
    ensures ValidDate(d) && Weekday(d) == 2
  {
    DaysBeforeYearClosed(d.year);
    assert DayNumber(d) == 739244;
  }

  /** A canonical date string that parses is reproduced exactly by formatting. */
  lemma FormatParseIso(s: string)
    requires IsCanonicalIso(s) && ParseDateAs(s, IsoFormat).Some?
    ensures FormatIso(ParseDateAs(s, IsoFormat).value) == s
  {
    CanonicalIsoSplit(s);
    Pow10Values();
    FixedDigitsOfValue(s[..4]);
    FixedDigitsOfValue(s[5..7]);
    FixedDigitsOfValue(s[8..]);
  }

  // ---------------------------------------------------------------- names

  const WeekdayNames: seq<string> := ["Monday", "Tuesday", "Wednesday", "Thursday", "Friday", "Saturday", "Sunday"]

  const MonthNames: seq<string> := ["January", "February", "March", "April", "May", "June", "July",
                                    "August", "September", "October", "November", "December"]

  /** `d.strftime('%A')` in the C locale. */
  function WeekdayName(d: Date): string
    requires ValidDate(d)
  {
    WeekdayNames[Weekday(d)]
  }

  /** `d.strftime('%B')` in the C locale. */
  function MonthName(d: Date): string
    requires ValidDate(d)
  {
    MonthNames[d.month - 1]
  }
}
