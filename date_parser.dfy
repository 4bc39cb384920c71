/**
 * Normalisation of the dates and times a patient speaks: relative dates
 * ("today", "tomorrow", weekday names), strptime-style date formats, time
 * phrases, "2pm"-style clock times, 12h to 24h conversion and the long
 * display form of an appointment slot. `today` is a parameter.
 */
module DateParser {
  import opened Wrappers
  import opened Text
  import opened Calendar

  // ---------------------------------------------------------------- parse_date

  /** The weekday names `parse_date` looks for, indexed by `date.weekday()`. */
  const WeekdayKeys: seq<string> := ["monday", "tuesday", "wednesday", "thursday", "friday", "saturday", "sunday"]

  /** The explicit formats `parse_date` tries, in order. */
  const DateFormats: seq<DateFormat> := [IsoFormat, DateFormat(MDY, '/'), DateFormat(DMY, '/'), DateFormat(MDY, '-')]

  /** The first weekday name, from index `k` on, that occurs in `s`. */
  function FirstWeekdayFrom(s: string, k: nat): (r: Option<nat>)
    requires k <= 7
    decreases 7 - k
    ensures r.Some? ==> k <= r.value < 7 && Contains(s, WeekdayKeys[r.value])
    ensures r.Some? ==> forall j :: k <= j < r.value ==> !Contains(s, WeekdayKeys[j])
    ensures r.None? ==> forall j :: k <= j < 7 ==> !Contains(s, WeekdayKeys[j])
  {
    if k == 7 then None
    else if Contains(s, WeekdayKeys[k]) then Some(k)
    else FirstWeekdayFrom(s, k + 1)
  }

  /** The date given by the first format, from index `k` on, that parses `s`. */
  function FirstFormatFrom(s: string, k: nat): (r: Option<Date>)
    requires k <= |DateFormats|
    decreases |DateFormats| - k
    ensures r.Some? ==> InPythonRange(r.value)
    ensures r.Some? ==> exists j :: k <= j < |DateFormats| && ParseDateAs(s, DateFormats[j]) == r
    ensures r.None? ==> forall j :: k <= j < |DateFormats| ==> ParseDateAs(s, DateFormats[j]).None?
  {
    if k == |DateFormats| then None
    else
      var d := ParseDateAs(s, DateFormats[k]);
      if d.Some? then d else FirstFormatFrom(s, k + 1)
  }

  /**
   * Days from a day with weekday `current` to the next day with weekday
   * `target`, a whole week when they are equal.
   */
  function DaysAhead(target: int, current: int): (n: int)
    requires 0 <= target < 7 && 0 <= current < 7
    ensures 1 <= n <= 7 && (current + n) % 7 == target
    ensures target == current ==> n == 7
  {
    var n := target - current;
    if n <= 0 then n + 7 else n
  }

  /** `text.lower().strip()`, the form both parsers work on. */
  function Normalise(text: string): string {
    Strip(Lower(text))
  }

  /** The date a weekday name or, failing that, an explicit format gives. */
  function WeekdayOrFormat(s: string, today: Date): (r: Option<Date>)
    requires ValidDate(today)
    ensures r.Some? ==> ValidDate(r.value)
  {
    var w := FirstWeekdayFrom(s, 0);
    if w.Some? then Some(AddDays(today, DaysAhead(w.value, Weekday(today))))
    else FirstFormatFrom(s, 0)
  }

  /** The date `parse_date` denotes for a normalised text, before it is formatted. */
  function ResolveDate(s: string, today: Date): (r: Option<Date>)
    requires ValidDate(today)
    ensures r.Some? ==> ValidDate(r.value)
  {
    if s == "today" || s == "now" then Some(today)
    else if s == "tomorrow" then Some(AddDays(today, 1))
    else if Contains(s, "next week") then Some(AddDays(today, 7))
    else WeekdayOrFormat(s, today)
  }

  /** `parse_date(text)` on the day `today`: a "YYYY-MM-DD" string or None. */
  function ParseDate(text: string, today: Date): Option<string>
    requires ValidDate(today)
  {
    var d := ResolveDate(Normalise(text), today);
    if d.Some? then Some(FormatIso(d.value)) else None
  }

  /** "today" and "now", in any case and with any surrounding blanks, give today. */
  lemma ParseDateToday(text: string, today: Date)
    requires ValidDate(today)
    requires Normalise(text) == "today" || Normalise(text) == "now"
    ensures ParseDate(text, today) == Some(FormatIso(today))
  {
  }

  /** "tomorrow" is none of the other fixed words. */
  lemma ResolveTomorrow(s: string, today: Date)
    requires ValidDate(today) && s == "tomorrow"
    ensures ResolveDate(s, today) == Some(AddDays(today, 1))
  {
  }

  /** "tomorrow" gives the next day, across month and year ends. */
  lemma ParseDateTomorrow(text: string, today: Date)
    requires ValidDate(today)
    requires Normalise(text) == "tomorrow"
    ensures ParseDate(text, today) == Some(FormatIso(AddDays(today, 1)))
    ensures DayNumber(AddDays(today, 1)) == DayNumber(today) + 1
  {
    ResolveTomorrow(Normalise(text), today);
  }

  /** The day after 2024-12-31 is 2025-01-01. */
  lemma NextOfYearEnd(d: Date)
    requires d == Date(2024, 12, 31)
    ensures AddDays(d, 1) == Date(2025, 1, 1)
  {
    assert AddDays(d, 1) == Next(d);
  }

  /** The day after 2024-02-28 is the leap day. */
  lemma NextBeforeLeapDay(d: Date)
    requires d == Date(2024, 2, 28)
    ensures AddDays(d, 1) == Date(2024, 2, 29)
  {
    assert AddDays(d, 1) == Next(d);
  }

  lemma IsoNewYear(d: Date)
    requires d == Date(2025, 1, 1)
    ensures FormatIso(d) == "2025-01-01"
  {
    NewYearNumerals();
    IsoJoin("2025", "01", "01");
  }

  lemma NewYearNumerals()
    ensures ZeroPad(2025, 4) == "2025" && ZeroPad(1, 2) == "01"
  {
    Pow10Values();
  }

  lemma IsoLeapDay(d: Date)
    requires d == Date(2024, 2, 29)
    ensures FormatIso(d) == "2024-02-29"
  {
    LeapDayNumerals();
    IsoJoin("2024", "02", "29");
  }

  lemma LeapDayNumerals()
    ensures ZeroPad(2024, 4) == "2024" && ZeroPad(2, 2) == "02" && ZeroPad(29, 2) == "29"
  {
    Pow10Values();
  }

  /** The "YYYY-MM-DD" of three numerals. */
  lemma IsoJoin(y: string, m: string, d: string)
    requires |y| == 4 && |m| == 2 && |d| == 2
    ensures var s := y + "-" + m + "-" + d;
      |s| == 10 && s[..4] == y && s[4] == '-' && s[5..7] == m && s[7] == '-' && s[8..] == d
  {
  }

  /** The year end: "tomorrow" on 2024-12-31 is 2025-01-01. */
  lemma TomorrowAtYearEnd(text: string, today: Date)
    requires Normalise(text) == "tomorrow" && today == Date(2024, 12, 31)
    ensures ParseDate(text, today) == Some("2025-01-01")
  {
    ParseDateTomorrow(text, today);
    NextOfYearEnd(today);
    IsoNewYear(Date(2025, 1, 1));
  }

  /** The leap day: "tomorrow" on 2024-02-28 is 2024-02-29. */
  lemma TomorrowBeforeLeapDay(text: string, today: Date)
    requires Normalise(text) == "tomorrow" && today == Date(2024, 2, 28)
    ensures ParseDate(text, today) == Some("2024-02-29")
  {
    ParseDateTomorrow(text, today);
    NextBeforeLeapDay(today);
    IsoLeapDay(Date(2024, 2, 29));
  }

  /** A text that mentions "next week" is none of the fixed words. */
  lemma ResolveNextWeek(s: string, today: Date)
    requires ValidDate(today) && Contains(s, "next week")
    ensures ResolveDate(s, today) == Some(AddDays(today, 7))
  {
    ContainsLength(s, "next week");
  }

  /** Any mention of "next week" gives the day a week ahead, before weekday names are looked at. */
  lemma ParseDateNextWeek(text: string, today: Date)
    requires ValidDate(today)
    requires Contains(Normalise(text), "next week")
    ensures var r := ResolveDate(Normalise(text), today);
      r.Some? && DayNumber(r.value) == DayNumber(today) + 7 && Weekday(r.value) == Weekday(today)
  {
    ResolveNextWeek(Normalise(text), today);
    WeekdayAfterWeek(today);
  }

  /** Every weekday name ends in 'y'. */
  lemma WeekdayKeysEndInY(k: nat)
    requires k < 7
    ensures |WeekdayKeys[k]| >= 6 && WeekdayKeys[k][|WeekdayKeys[k]| - 1] == 'y'
  {
  }

  /**
   * A text naming weekday `k` (and no earlier weekday, and not "next week")
   * gives the first later day with that weekday: within the coming week, and a
   * whole week ahead when today already has that weekday.
   */
  lemma ParseDateWeekday(text: string, today: Date, k: nat)
    requires ValidDate(today)
    requires k < 7
    requires !Contains(Normalise(text), "next week")
    requires Contains(Normalise(text), WeekdayKeys[k])
    requires forall j :: 0 <= j < k ==> !Contains(Normalise(text), WeekdayKeys[j])
    ensures var r := ResolveDate(Normalise(text), today);
      r.Some? && DayNumber(today) < DayNumber(r.value) <= DayNumber(today) + 7
      && Weekday(r.value) == k
      && (Weekday(today) == k ==> DayNumber(r.value) == DayNumber(today) + 7)
  {
    var s := Normalise(text);
    ResolveWeekday(s, today, k);
    WeekdayAddDays(today, DaysAhead(k, Weekday(today)));
  }

  /** A text naming weekday `k` first, and not "next week", is resolved by that name. */
  lemma ResolveWeekday(s: string, today: Date, k: nat)
    requires ValidDate(today) && k < 7
    requires !Contains(s, "next week") && Contains(s, WeekdayKeys[k])
    requires forall j :: 0 <= j < k ==> !Contains(s, WeekdayKeys[j])
    ensures ResolveDate(s, today) == Some(AddDays(today, DaysAhead(k, Weekday(today))))
  {
    WeekdayNotWord(s, k);
    FirstWeekdayIs(s, k);
  }

  /** A text naming a weekday is none of the fixed words. */
  lemma WeekdayNotWord(s: string, k: nat)
    requires k < 7 && Contains(s, WeekdayKeys[k])
    ensures s != "today" && s != "now" && s != "tomorrow"
  {
    WeekdayKeysEndInY(k);
    ContainsLength(s, WeekdayKeys[k]);
    ContainsHasChar(s, WeekdayKeys[k], |WeekdayKeys[k]| - 1);
  }

  /** The first weekday name found is the first one that occurs. */
  lemma FirstWeekdayIs(s: string, k: nat)
    requires k < 7 && Contains(s, WeekdayKeys[k])
    requires forall j :: 0 <= j < k ==> !Contains(s, WeekdayKeys[j])
    ensures FirstWeekdayFrom(s, 0) == Some(k)
  {
  }

  /** A string of digits and dashes mentions no phrase and no weekday name. */
  lemma NoWordsInDigits(s: string)
    requires forall i :: 0 <= i < |s| ==> s[i] == '-' || IsDigit(s[i])
    ensures !Contains(s, "next week")
    ensures FirstWeekdayFrom(s, 0).None?
  {
    if Contains(s, "next week") {
      ContainsHasChar(s, "next week", 0);
      assert false;
    }
    forall k | 0 <= k < 7
      ensures !Contains(s, WeekdayKeys[k])
    {
      WeekdayKeysEndInY(k);
      if Contains(s, WeekdayKeys[k]) {
        ContainsHasChar(s, WeekdayKeys[k], |WeekdayKeys[k]| - 1);
        assert false;
      }
    }
  }

  /** A valid "YYYY-MM-DD" comes back unchanged, whatever the day. */
  lemma ParseDateIsoRoundTrip(s: string, today: Date)
    requires ValidDate(today)
    requires IsCanonicalIso(s) && ParseDateAs(s, IsoFormat).Some?
    ensures ParseDate(s, today) == Some(s)
  {
    assert forall i :: 0 <= i < |s| ==> s[i] == '-' || IsDigit(s[i]) by {
      forall i | 0 <= i < |s|
        ensures s[i] == '-' || IsDigit(s[i])
      {
        if i < 4 { assert s[..4][i] == s[i]; }
        else if 4 < i < 7 { assert s[5..7][i - 5] == s[i]; }
        else if 7 < i { assert s[8..][i - 8] == s[i]; }
      }
    }
    assert Lower(s) == s;
    StripOfTrimmed(s);
    NoWordsInDigits(s);
    FormatParseIso(s);
  }

  /** "2024-12-25" is a canonical ISO date of Christmas 2024. */
  lemma ChristmasIso(s: string)
    requires s == "2024-12-25"
    ensures IsCanonicalIso(s) && ParseDateAs(s, IsoFormat) == Some(Date(2024, 12, 25))
  {
    assert s[..4] == "2024" && s[5..7] == "12" && s[8..] == "25";
    CanonicalIsoSplit(s);
    ValueOfFour(s[..4]);
    ValueOfShort(s[5..7]);
    ValueOfShort(s[8..]);
  }

  /** The ISO example from the tests comes back unchanged. */
  lemma ParseDateChristmas(s: string, today: Date)
    requires ValidDate(today) && s == "2024-12-25"
    ensures ParseDate(s, today) == Some("2024-12-25")
  {
    ChristmasIso(s);
    ParseDateIsoRoundTrip(s, today);
  }

  /** None exactly when no phrase, no weekday name and no format applies. */
  lemma ParseDateNone(text: string, today: Date)
    requires ValidDate(today)
    ensures var s := Normalise(text);
      ParseDate(text, today).None? <==>
        s != "today" && s != "now" && s != "tomorrow" && !Contains(s, "next week")
        && (forall k :: 0 <= k < 7 ==> !Contains(s, WeekdayKeys[k]))
        && (forall j :: 0 <= j < |DateFormats| ==> ParseDateAs(s, DateFormats[j]).None?)
  {
    var s := Normalise(text);
    var w := FirstWeekdayFrom(s, 0);
    if w.Some? {
      assert Contains(s, WeekdayKeys[w.value]);
    }
    var f := FirstFormatFrom(s, 0);
    if f.Some? {
      var j :| 0 <= j < |DateFormats| && ParseDateAs(s, DateFormats[j]) == f;
      assert ParseDateAs(s, DateFormats[j]).Some?;
    }
  }

  // ---------------------------------------------------------------- format_12h_to_24h

  /** `f"{n:02d}"`: at least two digits; a minus sign counts towards the width. */
  function Pad2(n: int): string {
    if n >= 0 then ZeroPad(n, 2) else "-" + Decimal(-n)
  }

  /** The hour `format_12h_to_24h` writes: "pm" adds 12 except to 12, "am" turns 12 into 0. */
  function To24(hour: int, amPm: Option<string>): (h: int)
    ensures amPm.None? ==> h == hour
  {
    match amPm
    case None => hour
    case Some(m) =>
      if Lower(m) == "pm" && hour != 12 then hour + 12
      else if Lower(m) == "am" && hour == 12 then 0
      else hour
  }

  /** `format_12h_to_24h(hour, minute, am_pm)`: no range check on either value. */
  function Format12hTo24h(hour: int, minute: int, amPm: Option<string>): string {
    Pad2(To24(hour, amPm)) + ":" + Pad2(minute)
  }

  /** A 12-hour marker chosen from "am"/"pm" in any case. */
  predicate IsMarker(amPm: Option<string>, pm: bool) {
    amPm.Some? && Lower(amPm.value) == (if pm then "pm" else "am")
  }

  /**
   * On a real 12-hour time the conversion is the 12-hour clock read back:
   * the hour is the same modulo 12, and it is in the afternoon exactly for "pm".
   */
  lemma To24Correct(hour: int, amPm: Option<string>, pm: bool)
    requires 1 <= hour <= 12 && IsMarker(amPm, pm)
    ensures 0 <= To24(hour, amPm) <= 23
    ensures To24(hour, amPm) % 12 == hour % 12
    ensures To24(hour, amPm) >= 12 <==> pm
  {
  }

  /** The 12-hour clock hour `%I` shows for a 24-hour hour. */
  function Hour12(h: int): (r: int)
    ensures 1 <= r <= 12
  {
    if h % 12 == 0 then 12 else h % 12
  }

  /** `%p` in the C locale. */
  function Meridiem(h: int): string {
    if h < 12 then "AM" else "PM"
  }

  /** Showing a 24-hour hour on the 12-hour clock and converting back gives the hour. */
  lemma To24OfHour12(h: int)
    requires 0 <= h <= 23
    ensures To24(Hour12(h), Some(Meridiem(h))) == h
  {
    assert Lower("AM") == "am" && Lower("PM") == "pm";
  }

  /** Converting a 12-hour time and showing it on the 12-hour clock gives it back. */
  lemma Hour12OfTo24(hour: int, amPm: Option<string>, pm: bool)
    requires 1 <= hour <= 12 && IsMarker(amPm, pm)
    ensures Hour12(To24(hour, amPm)) == hour
    ensures Meridiem(To24(hour, amPm)) == if pm then "PM" else "AM"
  {
  }

  /** The two digits of a number below 100. */
  lemma Pad2Small(n: int)
    requires 0 <= n < 100
    ensures Pad2(n) == [DigitChar(n / 10), DigitChar(n % 10)]
  {
    Pow10Values();
    assert FixedDigits(n / 10, 1) == [DigitChar(n / 10)] by {
      assert (n / 10) % 10 == n / 10;
      assert FixedDigits(n / 10 / 10, 0) == [];
    }
  }

  /** The two-digit form of a number below 100, for reading back. */
  lemma Pad2Digits(n: int)
    requires 0 <= n < 100
    ensures Pad2(n) == FixedDigits(n, 2)
    ensures |Pad2(n)| == 2 && AllDigits(Pad2(n)) && Value(Pad2(n)) == n
  {
    Pow10Values();
    ValueOfFixedDigits(n, 2);
  }

  /** An in-range result is the "HH:MM" that `%H:%M` reads back to the same clock time. */
  lemma Format12hTo24hReadsBack(hour: int, minute: int, amPm: Option<string>)
    requires 0 <= To24(hour, amPm) <= 23 && 0 <= minute <= 59
    ensures ParseClock(Format12hTo24h(hour, minute, amPm)) == Some(Clock(To24(hour, amPm), minute))
  {
    var h, m := Pad2(To24(hour, amPm)), Pad2(minute);
    Pad2Digits(To24(hour, amPm));
    Pad2Digits(minute);
    SplitPair(h, m, ':');
  }

  // ---------------------------------------------------------------- parse_time

  /** The phrase table of `parse_time`, in its order. */
  const TimePhrases: seq<(string, string)> := [("morning", "09:00"), ("noon", "12:00"), ("afternoon", "14:00"), ("evening", "17:00")]

  /** The index of the first phrase of `table`, from `k` on, that occurs in `s`. */
  function FirstPhraseFrom(s: string, table: seq<(string, string)>, k: nat): (r: Option<nat>)
    requires k <= |table|
    decreases |table| - k
    ensures r.Some? ==> k <= r.value < |table| && Contains(s, table[r.value].0)
    ensures r.Some? ==> forall j :: k <= j < r.value ==> !Contains(s, table[j].0)
    ensures r.None? ==> forall j :: k <= j < |table| ==> !Contains(s, table[j].0)
    ensures (forall j :: k <= j < |table| ==> !Contains(s, table[j].0)) ==> r.None?
  {
    if k == |table| then None
    else if Contains(s, table[k].0) then Some(k)
    else FirstPhraseFrom(s, table, k + 1)
  }

  /** The three regular expressions of `parse_time`, in the order they are tried. */
  datatype TimePattern =
    | ClockMarker   // (\d{1,2}):(\d{2})\s*(am|pm)?
    | HourMarker    // (\d{1,2})\s*(am|pm)
    | PlainClock    // (\d{1,2}):(\d{2})

  /** The groups of a match: hour, minute (0 when the pattern has none) and marker. */
  datatype TimeMatch = TimeMatch(hour: nat, minute: nat, marker: Option<string>)

  /** `(am|pm)` at `k`. */
  function MarkerAt(s: string, k: nat): (r: Option<string>)
    ensures r.Some? ==> r.value == "am" || r.value == "pm"
  {
    if k + 2 <= |s| && (s[k..k + 2] == "am" || s[k..k + 2] == "pm") then Some(s[k..k + 2]) else None
  }

  /** `(\d{1,2}):(\d{2})` at `i` with an hour of exactly `len` digits. */
  function ClockAt(s: string, i: nat, len: nat): (r: Option<(nat, nat)>)
    ensures r.Some? ==> i + len + 3 <= |s|
  {
    var j := i + len;
    if j + 3 <= |s| && AllDigits(s[i..j]) && s[j] == ':' && AllDigits(s[j + 1..j + 3])
    then Some((Value(s[i..j]), Value(s[j + 1..j + 3])))
    else None
  }

  /** `(\d{1,2})\s*(am|pm)` at `i` with an hour of exactly `len` digits. */
  function HourAt(s: string, i: nat, len: nat): (r: Option<TimeMatch>)
  {
    var j := i + len;
    if j <= |s| && AllDigits(s[i..j]) then
      var m := MarkerAt(s, SkipSpaces(s, j));
      if m.Some? then Some(TimeMatch(Value(s[i..j]), 0, m)) else None
    else None
  }

  /**
   * A match of pattern `p` anchored at `i`. `\d{1,2}` is greedy: two hour
   * digits are tried first and one digit only when that fails.
   */
  function MatchAt(p: TimePattern, s: string, i: nat): (r: Option<TimeMatch>)
    ensures p != ClockMarker && r.Some? ==> (r.value.marker.Some? <==> p == HourMarker)
  {
    match p
    case ClockMarker =>
      var two := ClockAt(s, i, 2);
      if two.Some? then Some(TimeMatch(two.value.0, two.value.1, MarkerAt(s, SkipSpaces(s, i + 5))))
      else
        var one := ClockAt(s, i, 1);
        if one.Some? then Some(TimeMatch(one.value.0, one.value.1, MarkerAt(s, SkipSpaces(s, i + 4))))
        else None
    case HourMarker =>
      var two := HourAt(s, i, 2);
      if two.Some? then two else HourAt(s, i, 1)
    case PlainClock =>
      var two := ClockAt(s, i, 2);
      if two.Some? then Some(TimeMatch(two.value.0, two.value.1, None))
      else
        var one := ClockAt(s, i, 1);
        if one.Some? then Some(TimeMatch(one.value.0, one.value.1, None))
        else None
  }

  /** `re.search`: the leftmost position, from `i` on, where `p` matches. */
  function SearchFrom(p: TimePattern, s: string, i: nat): (r: Option<nat>)
    decreases |s| + 1 - i
    ensures r.Some? ==> i <= r.value <= |s| && MatchAt(p, s, r.value).Some?
    ensures r.Some? ==> forall j :: i <= j < r.value ==> MatchAt(p, s, j).None?
    ensures r.None? ==> forall j :: i <= j <= |s| ==> MatchAt(p, s, j).None?
  {
    if i > |s| then None
    else if MatchAt(p, s, i).Some? then Some(i)
    else SearchFrom(p, s, i + 1)
  }

  /** The groups of the leftmost match of `p` in `s`, if any. */
  function Search(p: TimePattern, s: string): (r: Option<TimeMatch>)
    ensures r.Some? <==> exists i :: 0 <= i <= |s| && MatchAt(p, s, i).Some?
  {
    var k := SearchFrom(p, s, 0);
    if k.Some? then MatchAt(p, s, k.value) else None
  }

  /** Wherever the plain clock pattern matches, the first pattern matches too. */
  lemma PlainClockImpliesClockMarker(s: string, i: nat)
    ensures MatchAt(PlainClock, s, i).Some? ==> MatchAt(ClockMarker, s, i).Some?
  {
  }

  /** So the third pattern of `parse_time` is never reached after the first has failed. */
  lemma PlainClockUnreachable(s: string)
    ensures Search(ClockMarker, s).None? ==> Search(PlainClock, s).None?
  {
    if Search(PlainClock, s).Some? {
      var i :| 0 <= i <= |s| && MatchAt(PlainClock, s, i).Some?;
      PlainClockImpliesClockMarker(s, i);
    }
  }

  /** The second and third patterns of `parse_time`, for a normalised text. */
  function HourOrPlainTime(s: string): Option<string> {
    var b := Search(HourMarker, s);
    if b.Some? then Some(Format12hTo24h(b.value.hour, 0, b.value.marker))
    else
      var c := Search(PlainClock, s);
      if c.Some? then Some(Pad2(c.value.hour) + ":" + Pad2(c.value.minute))
      else None
  }

  /** The three patterns of `parse_time` in order; the formatters never raise. */
  function PatternTime(s: string): Option<string> {
    var a := Search(ClockMarker, s);
    if a.Some? then Some(Format12hTo24h(a.value.hour, a.value.minute, a.value.marker))
    else HourOrPlainTime(s)
  }

  /** `parse_time` on a normalised text with a given phrase table. */
  function TimeFromTable(s: string, table: seq<(string, string)>): Option<string> {
    var k := FirstPhraseFrom(s, table, 0);
    if k.Some? then Some(table[k.value].1) else PatternTime(s)
  }

  /** `parse_time(text)`: a 24-hour "HH:MM" or None. */
  function ParseTime(text: string): Option<string> {
    TimeFromTable(Normalise(text), TimePhrases)
  }

  /** None exactly when no phrase occurs and neither of the first two patterns matches. */
  lemma ParseTimeNone(text: string)
    ensures ParseTime(text).None? <==> var s := Normalise(text);
      (forall j :: 0 <= j < |TimePhrases| ==> !Contains(s, TimePhrases[j].0))
      && Search(ClockMarker, s).None? && Search(HourMarker, s).None?
  {
    PlainClockUnreachable(Normalise(text));
  }

  /** A pattern longer than the text, or with a character the text lacks, does not occur in it. */
  lemma Absent(s: string, p: string, j: nat)
    requires |p| > |s| || (j < |p| && p[j] !in s)
    ensures !Contains(s, p)
  {
    if Contains(s, p) {
      ContainsHasChar(s, p, j);
      assert false;
    }
  }

  /** The phrase table mentions none of `s` when none of its four phrases occurs. */
  lemma NoPhraseOf(s: string)
    requires !Contains(s, "morning") && !Contains(s, "noon") && !Contains(s, "afternoon") && !Contains(s, "evening")
    ensures FirstPhraseFrom(s, TimePhrases, 0).None?
  {
    forall j | 0 <= j < |TimePhrases|
      ensures !Contains(s, TimePhrases[j].0)
    {
      if j == 0 { assert TimePhrases[j].0 == "morning"; }
      else if j == 1 { assert TimePhrases[j].0 == "noon"; }
      else if j == 2 { assert TimePhrases[j].0 == "afternoon"; }
      else { assert TimePhrases[j].0 == "evening"; }
    }
  }

  /** A text without an 'n' does not mention "noon". */
  lemma NoNoon(s: string)
    requires 'n' !in s
    ensures !Contains(s, "noon")
  {
    Absent(s, "noon", 0);
  }

  /** A text shorter than seven characters is too short for three of the phrases. */
  lemma TooShortForPhrases(s: string)
    requires |s| < 7
    ensures !Contains(s, "morning") && !Contains(s, "evening") && !Contains(s, "afternoon")
  {
  }

  /** A text shorter than seven characters that does not mention "noon" mentions no phrase. */
  lemma NoPhraseShort(s: string)
    requires |s| < 7 && !Contains(s, "noon")
    ensures FirstPhraseFrom(s, TimePhrases, 0).None?
  {
    TooShortForPhrases(s);
    NoPhraseOf(s);
  }

  /** A text shorter than every phrase but "noon", and without an 'n', goes on to the patterns. */
  lemma NoPhrase(s: string)
    requires |s| < 7 && 'n' !in s
    ensures FirstPhraseFrom(s, TimePhrases, 0).None?
  {
    NoNoon(s);
    NoPhraseShort(s);
  }

  /** Without a colon the clock patterns cannot match. */
  lemma NoColonNoClock(s: string)
    requires ':' !in s
    ensures Search(ClockMarker, s).None? && Search(PlainClock, s).None?
  {
    forall i | 0 <= i <= |s|
      ensures MatchAt(ClockMarker, s, i).None? && MatchAt(PlainClock, s, i).None?
    {
      if i + 2 < |s| { assert s[i + 2] != ':'; }
      if i + 1 < |s| { assert s[i + 1] != ':'; }
    }
  }

  /** Without a digit no pattern matches. */
  lemma NoDigitNoMatch(s: string, p: TimePattern)
    requires forall i :: 0 <= i < |s| ==> !IsDigit(s[i])
    ensures Search(p, s).None?
  {
    forall i | 0 <= i <= |s|
      ensures MatchAt(p, s, i).None?
    {
      if i < |s| { assert !AllDigits(s[i..i + 1]) by { assert s[i..i + 1][0] == s[i]; } }
      if i + 1 < |s| { assert !AllDigits(s[i..i + 2]) by { assert s[i..i + 2][0] == s[i]; } }
    }
  }

  /** A pattern that matches at the start is found there. */
  lemma SearchAtStart(p: TimePattern, s: string)
    requires MatchAt(p, s, 0).Some?
    ensures Search(p, s) == MatchAt(p, s, 0)
  {
  }

  /** A clock-and-marker match at the start decides the result. */
  lemma ClockMarkerTime(s: string, t: TimeMatch)
    requires FirstPhraseFrom(s, TimePhrases, 0).None?
    requires MatchAt(ClockMarker, s, 0) == Some(t)
    ensures TimeFromTable(s, TimePhrases) == Some(Format12hTo24h(t.hour, t.minute, t.marker))
  {
    SearchAtStart(ClockMarker, s);
  }

  /** Without a colon, an hour-and-marker match at the start decides the result. */
  lemma HourMarkerTime(s: string, t: TimeMatch)
    requires FirstPhraseFrom(s, TimePhrases, 0).None? && ':' !in s
    requires MatchAt(HourMarker, s, 0) == Some(t)
    ensures TimeFromTable(s, TimePhrases) == Some(Format12hTo24h(t.hour, 0, t.marker))
  {
    NoColonNoClock(s);
    SearchAtStart(HourMarker, s);
  }

  /** The "HH:MM" a conversion writes when both numbers have two digits. */
  lemma Format12hTo24hDigits(hour: int, minute: int, amPm: Option<string>)
    requires 0 <= To24(hour, amPm) < 100 && 0 <= minute < 100
    ensures var h := To24(hour, amPm);
      Format12hTo24h(hour, minute, amPm)
      == [DigitChar(h / 10), DigitChar(h % 10), ':', DigitChar(minute / 10), DigitChar(minute % 10)]
  {
    Pad2Small(To24(hour, amPm));
    Pad2Small(minute);
  }

  /** "2pm" matches the hour-and-marker pattern at its start. */
  lemma MatchTwoPm(s: string)
    requires s == "2pm"
    ensures MatchAt(HourMarker, s, 0) == Some(TimeMatch(2, 0, Some("pm")))
  {
    assert s[0..2][1] == 'p';
    assert s[0..1] == "2" && s[1..3] == "pm";
    ValueOfShort(s[0..1]);
  }

  lemma TwoPmTime(s: string)
    requires s == "2pm"
    ensures TimeFromTable(s, TimePhrases) == Some("14:00")
  {
    NoPhrase(s);
    MatchTwoPm(s);
    HourMarkerTime(s, TimeMatch(2, 0, Some("pm")));
    assert Lower("pm") == "pm";
    Format12hTo24hDigits(2, 0, Some("pm"));
  }

  /** "2pm", in any case and with any surrounding blanks, is 14:00. */
  lemma ParseTimeTwoPm(text: string)
    requires Normalise(text) == "2pm"
    ensures ParseTime(text) == Some("14:00")
  {
    TwoPmTime(Normalise(text));
  }

  /** "3:30pm" matches the clock-and-marker pattern with a one-digit hour. */
  lemma MatchHalfPastThreePm(s: string)
    requires s == "3:30pm"
    ensures MatchAt(ClockMarker, s, 0) == Some(TimeMatch(3, 30, Some("pm")))
  {
    assert s[0..2][1] == ':';
    assert s[0..1] == "3" && s[2..4] == "30" && s[4..6] == "pm";
    ValueOfShort(s[0..1]);
    ValueOfShort(s[2..4]);
    assert SkipSpaces(s, 4) == 4;
  }

  lemma HalfPastThreePmTime(s: string)
    requires s == "3:30pm"
    ensures TimeFromTable(s, TimePhrases) == Some("15:30")
  {
    NoPhrase(s);
    MatchHalfPastThreePm(s);
    ClockMarkerTime(s, TimeMatch(3, 30, Some("pm")));
    assert Lower("pm") == "pm";
    Format12hTo24hDigits(3, 30, Some("pm"));
  }

  /** "3:30pm" is 15:30. */
  lemma ParseTimeHalfPastThreePm(text: string)
    requires Normalise(text) == "3:30pm"
    ensures ParseTime(text) == Some("15:30")
  {
    HalfPastThreePmTime(Normalise(text));
  }

  /** "10am" matches the hour-and-marker pattern with a two-digit hour. */
  lemma MatchTenAm(s: string)
    requires s == "10am"
    ensures MatchAt(HourMarker, s, 0) == Some(TimeMatch(10, 0, Some("am")))
  {
    assert s[0..2] == "10" && s[2..4] == "am";
    ValueOfShort(s[0..2]);
    assert SkipSpaces(s, 2) == 2;
  }

  lemma TenAmTime(s: string)
    requires s == "10am"
    ensures TimeFromTable(s, TimePhrases) == Some("10:00")
  {
    NoPhrase(s);
    MatchTenAm(s);
    HourMarkerTime(s, TimeMatch(10, 0, Some("am")));
    assert Lower("am") == "am";
    Format12hTo24hDigits(10, 0, Some("am"));
  }

  /** "10am" is 10:00. */
  lemma ParseTimeTenAm(text: string)
    requires Normalise(text) == "10am"
    ensures ParseTime(text) == Some("10:00")
  {
    TenAmTime(Normalise(text));
  }

  /** A five-character "HH:MM" matches the clock pattern with no marker. */
  lemma MatchClock(s: string, hour: nat, minute: nat)
    requires |s| == 5 && s[2] == ':' && AllDigits(s[0..2]) && AllDigits(s[3..5])
    requires Value(s[0..2]) == hour && Value(s[3..5]) == minute
    ensures MatchAt(ClockMarker, s, 0) == Some(TimeMatch(hour, minute, None))
  {
    assert SkipSpaces(s, 5) == 5;
  }

  lemma FourteenTime(s: string)
    requires s == "14:00"
    ensures TimeFromTable(s, TimePhrases) == Some("14:00")
  {
    NoPhrase(s);
    assert s[0..2] == "14" && s[3..5] == "00";
    ValueOfShort(s[0..2]);
    ValueOfShort(s[3..5]);
    MatchClock(s, 14, 0);
    ClockMarkerTime(s, TimeMatch(14, 0, None));
    Format12hTo24hDigits(14, 0, None);
  }

  /** "14:00" stays 14:00. */
  lemma ParseTimeFourteen(text: string)
    requires Normalise(text) == "14:00"
    ensures ParseTime(text) == Some("14:00")
  {
    FourteenTime(Normalise(text));
  }

  lemma NineThirtyTime(s: string)
    requires s == "09:30"
    ensures TimeFromTable(s, TimePhrases) == Some("09:30")
  {
    NoPhrase(s);
    assert s[0..2] == "09" && s[3..5] == "30";
    ValueOfShort(s[0..2]);
    ValueOfShort(s[3..5]);
    MatchClock(s, 9, 30);
    ClockMarkerTime(s, TimeMatch(9, 30, None));
    Format12hTo24hDigits(9, 30, None);
  }

  /** "09:30" stays 09:30. */
  lemma ParseTimeNineThirty(text: string)
    requires Normalise(text) == "09:30"
    ensures ParseTime(text) == Some("09:30")
  {
    NineThirtyTime(Normalise(text));
  }

  /** "13pm" matches the hour-and-marker pattern with hour 13. */
  lemma MatchThirteenPm(s: string)
    requires s == "13pm"
    ensures MatchAt(HourMarker, s, 0) == Some(TimeMatch(13, 0, Some("pm")))
  {
    assert s[0..2] == "13" && s[2..4] == "pm";
    ValueOfShort(s[0..2]);
    assert SkipSpaces(s, 2) == 2;
  }

  lemma ThirteenPmTime(s: string)
    requires s == "13pm"
    ensures TimeFromTable(s, TimePhrases) == Some("25:00")
  {
    NoPhrase(s);
    MatchThirteenPm(s);
    HourMarkerTime(s, TimeMatch(13, 0, Some("pm")));
    assert Lower("pm") == "pm";
    Format12hTo24hDigits(13, 0, Some("pm"));
  }

  /** Nothing range-checks the hour: "13pm" becomes "25:00". */
  lemma ParseTimeNoRangeCheck(text: string)
    requires Normalise(text) == "13pm"
    ensures ParseTime(text) == Some("25:00")
  {
    ThirteenPmTime(Normalise(text));
  }

  /** "morning" is 09:00. */
  lemma ParseTimeMorning(text: string)
    requires Normalise(text) == "morning"
    ensures ParseTime(text) == Some("09:00")
  {
    var s := Normalise(text);
    assert OccursAt(s, "morning", 0);
  }

  lemma InvalidNoPhrase(s: string)
    requires s == "invalid"
    ensures FirstPhraseFrom(s, TimePhrases, 0).None?
  {
    Absent(s, "morning", 0);
    Absent(s, "noon", 1);
    Absent(s, "evening", 0);
    Absent(s, "afternoon", 0);
    NoPhraseOf(s);
  }

  lemma InvalidTime(s: string)
    requires s == "invalid"
    ensures TimeFromTable(s, TimePhrases) == None
  {
    InvalidNoPhrase(s);
    assert forall i :: 0 <= i < |s| ==> !IsDigit(s[i]);
    NoDigitNoMatch(s, ClockMarker);
    NoDigitNoMatch(s, HourMarker);
    NoDigitNoMatch(s, PlainClock);
  }

  /** "invalid" mentions no phrase and holds no digit, so it gives None. */
  lemma ParseTimeInvalid(text: string)
    requires Normalise(text) == "invalid"
    ensures ParseTime(text) == None
  {
    InvalidTime(Normalise(text));
  }

  lemma AfternoonTime(s: string)
    requires s == "afternoon"
    ensures TimeFromTable(s, TimePhrases) == Some("12:00")
  {
    Absent(s, "morning", 0);
    assert OccursAt(s, "noon", 5);
    FirstPhraseIs(s, TimePhrases, 1);
  }

  /** As written: "afternoon" contains "noon", which is checked first, so it gives 12:00. */
  lemma ParseTimeAfternoonAsWritten(text: string)
    requires Normalise(text) == "afternoon"
    ensures ParseTime(text) == Some("12:00")
    ensures ParseTime(text) != Some(TimePhrases[2].1)
  {
    AfternoonTime(Normalise(text));
  }

  /** The phrase table with "afternoon" ahead of "noon", which it contains. */
  const IntendedTimePhrases: seq<(string, string)> := [("morning", "09:00"), ("afternoon", "14:00"), ("noon", "12:00"), ("evening", "17:00")]

  /** `parse_time` as its table and its tests mean it: each phrase gives its own time. */
  function ParseTimeIntended(text: string): (r: Option<string>)
    ensures FirstPhraseFrom(Normalise(text), IntendedTimePhrases, 0).None? ==> r == ParseTime(text)
  {
    NoPhraseEitherOrder(Normalise(text));
    TimeFromTable(Normalise(text), IntendedTimePhrases)
  }

  /** Both tables hold the same phrases, so a text mentions one exactly when it mentions the other. */
  lemma NoPhraseEitherOrder(s: string)
    ensures FirstPhraseFrom(s, IntendedTimePhrases, 0).None? <==> FirstPhraseFrom(s, TimePhrases, 0).None?
  {
    var a, b := IntendedTimePhrases, TimePhrases;
    assert a[0] == b[0] && a[1] == b[2] && a[2] == b[1] && a[3] == b[3];
  }

  /** The reordered table holds the same phrases with the same times. */
  lemma IntendedTableSamePhrases()
    ensures multiset(IntendedTimePhrases) == multiset(TimePhrases)
  {
    assert IntendedTimePhrases == [TimePhrases[0], TimePhrases[2], TimePhrases[1], TimePhrases[3]];
  }

  /** The first phrase found is the first one that occurs. */
  lemma FirstPhraseIs(s: string, table: seq<(string, string)>, k: nat)
    requires k < |table| && Contains(s, table[k].0)
    requires forall j :: 0 <= j < k ==> !Contains(s, table[j].0)
    ensures FirstPhraseFrom(s, table, 0) == Some(k)
  {
  }

  /** With the reordered table each phrase gives its own time. */
  lemma IntendedPhraseTime(s: string, k: nat)
    requires k < |TimePhrases| && s == TimePhrases[k].0
    ensures TimeFromTable(s, IntendedTimePhrases) == Some(TimePhrases[k].1)
  {
    if k == 0 { IntendedMorning(s); }
    else if k == 1 { IntendedNoon(s); }
    else if k == 2 { IntendedAfternoon(s); }
    else { IntendedEvening(s); }
  }

  lemma IntendedMorning(s: string)
    requires s == "morning"
    ensures TimeFromTable(s, IntendedTimePhrases) == Some("09:00")
  {
    assert OccursAt(s, IntendedTimePhrases[0].0, 0);
    FirstPhraseIs(s, IntendedTimePhrases, 0);
  }

  lemma IntendedNoon(s: string)
    requires s == "noon"
    ensures TimeFromTable(s, IntendedTimePhrases) == Some("12:00")
  {
    var t := IntendedTimePhrases;
    assert OccursAt(s, t[2].0, 0);
    Absent(s, t[0].0, 0);
    Absent(s, t[1].0, 0);
    FirstPhraseIs(s, t, 2);
  }

  lemma IntendedAfternoon(s: string)
    requires s == "afternoon"
    ensures TimeFromTable(s, IntendedTimePhrases) == Some("14:00")
  {
    var t := IntendedTimePhrases;
    assert OccursAt(s, t[1].0, 0);
    Absent(s, t[0].0, 0);
    FirstPhraseIs(s, t, 1);
  }

  lemma IntendedEvening(s: string)
    requires s == "evening"
    ensures TimeFromTable(s, IntendedTimePhrases) == Some("17:00")
  {
    var t := IntendedTimePhrases;
    assert OccursAt(s, t[3].0, 0);
    Absent(s, t[0].0, 0);
    Absent(s, t[1].0, 0);
    Absent(s, t[2].0, 1);
    FirstPhraseIs(s, t, 3);
  }

  /** Each phrase on its own, spoken in any case, gives the time the table pairs it with. */
  lemma ParseTimeIntendedPhrases(text: string, k: nat)
    requires k < |TimePhrases| && Normalise(text) == TimePhrases[k].0
    ensures ParseTimeIntended(text) == Some(TimePhrases[k].1)
  {
    IntendedPhraseTime(Normalise(text), k);
  }

  // ---------------------------------------------------------------- format_datetime

  /** `d.strftime('%A, %B %d, %Y')`. */
  function LongDate(d: Date): string
    requires ValidDate(d) && d.year >= 0
  {
    WeekdayName(d) + ", " + MonthName(d) + " " + ZeroPad(d.day, 2) + ", " + ZeroPad(d.year, 4)
  }

  /** A padded one-digit hour loses exactly its one leading zero. */
  lemma StripOneDigitHour(h: int, rest: string)
    requires 1 <= h <= 9 && rest != [] && rest[0] == ':'
    ensures LStripChar(ZeroPad(h, 2) + rest, '0') == Decimal(h) + rest
  {
    Pad2Small(h);
    var s := ZeroPad(h, 2) + rest;
    assert s[0] == '0' && s[1] == DigitChar(h) != '0';
    assert SkipChar(s, '0', 0) == 1;
    assert s[1..] == [DigitChar(h)] + rest;
  }

  /** A two-digit hour has no leading zero to lose. */
  lemma StripTwoDigitHour(h: int, rest: string)
    requires 10 <= h <= 12 && rest != [] && rest[0] == ':'
    ensures LStripChar(ZeroPad(h, 2) + rest, '0') == Decimal(h) + rest
  {
    Pad2Small(h);
    var s := ZeroPad(h, 2) + rest;
    assert s[0] == '1' && SkipChar(s, '0', 0) == 0;
    assert Decimal(h / 10) == [DigitChar(h / 10)];
  }

  /** Stripping the zeros off a padded 12-hour hour leaves its plain decimal form. */
  lemma StripHourZero(h: int, rest: string)
    requires 1 <= h <= 12 && rest != [] && rest[0] == ':'
    ensures LStripChar(ZeroPad(h, 2) + rest, '0') == Decimal(h) + rest
  {
    if h < 10 { StripOneDigitHour(h, rest); } else { StripTwoDigitHour(h, rest); }
  }

  /** `t.strftime('%I:%M %p').lstrip('0')`: the hour loses its leading zero. */
  function ShortTime(t: Clock): (r: string)
    requires ValidClock(t)
    ensures r == Decimal(Hour12(t.hour)) + ":" + ZeroPad(t.minute, 2) + " " + Meridiem(t.hour)
  {
    var rest := ":" + ZeroPad(t.minute, 2) + " " + Meridiem(t.hour);
    StripHourZero(Hour12(t.hour), rest);
    LStripChar(ZeroPad(Hour12(t.hour), 2) + rest, '0')
  }

  /** `format_datetime(date, time)`: the long form, or the two inputs joined when either does not parse. */
  function FormatDatetime(date: string, time: string): string {
    var d := ParseDateAs(date, IsoFormat);
    var t := ParseClock(time);
    if d.Some? && t.Some? then LongDate(d.value) + " at " + ShortTime(t.value)
    else date + " at " + time
  }

  /** "14:00" reads as 14:00. */
  lemma ClockFourteen(s: string)
    requires s == "14:00"
    ensures ParseClock(s) == Some(Clock(14, 0))
  {
    assert s[..2] == "14" && s[3..] == "00";
    ClockSplit(s);
    ValueOfShort(s[..2]);
    ValueOfShort(s[3..]);
  }

  /** The pieces of Christmas 2024 in the long form. */
  lemma LongDateChristmasParts(d: Date)
    requires d == Date(2024, 12, 25)
    ensures LongDate(d) == "Wednesday" + ", " + "December" + " " + "25" + ", " + "2024"
  {
    ChristmasWeekday(d);
    assert ZeroPad(25, 2) == "25" && ZeroPad(2024, 4) == "2024";
  }

  /** Christmas 2024 in the long form. */
  lemma LongDateChristmas(d: Date)
    requires d == Date(2024, 12, 25)
    ensures LongDate(d) == "Wednesday, December 25, 2024"
  {
    LongDateChristmasParts(d);
    LiteralJoin();
  }

  lemma LiteralJoin()
    ensures "Wednesday" + ", " + "December" + " " + "25" + ", " + "2024" == "Wednesday, December 25, 2024"
  {
  }

  /** 14:00 in the short form. */
  lemma ShortTimeTwoPm(t: Clock)
    requires t == Clock(14, 0)
    ensures ShortTime(t) == "2:00 PM"
  {
    ShortTimeTwoPmParts(t);
    TwoPmJoin();
  }

  lemma ShortTimeTwoPmParts(t: Clock)
    requires t == Clock(14, 0)
    ensures ShortTime(t) == "2" + ":" + "00" + " " + "PM"
  {
    TwoPmNumerals();
  }

  lemma TwoPmNumerals()
    ensures Hour12(14) == 2 && Decimal(2) == "2" && ZeroPad(0, 2) == "00" && Meridiem(14) == "PM"
  {
  }

  lemma TwoPmJoin()
    ensures "2" + ":" + "00" + " " + "PM" == "2:00 PM"
  {
  }

  /** Both inputs of the display example parse. */
  lemma FormatDatetimeChristmasParts(date: string, time: string)
    requires date == "2024-12-25" && time == "14:00"
    ensures FormatDatetime(date, time) == LongDate(Date(2024, 12, 25)) + " at " + ShortTime(Clock(14, 0))
  {
    ChristmasIso(date);
    ClockFourteen(time);
  }

  /** The display example from the tests: Christmas 2024 at 14:00. */
  lemma FormatDatetimeChristmas(date: string, time: string)
    requires date == "2024-12-25" && time == "14:00"
    ensures FormatDatetime(date, time) == "Wednesday, December 25, 2024 at 2:00 PM"
  {
    FormatDatetimeChristmasParts(date, time);
    LongDateChristmas(Date(2024, 12, 25));
    ShortTimeTwoPm(Clock(14, 0));
    ChristmasAt(LongDate(Date(2024, 12, 25)), ShortTime(Clock(14, 0)));
  }

  lemma ChristmasAt(x: string, y: string)
    requires x == "Wednesday, December 25, 2024" && y == "2:00 PM"
    ensures x + " at " + y == "Wednesday, December 25, 2024 at 2:00 PM"
  {
  }

  // ---------------------------------------------------------------- get_day_of_week, is_weekend

  /** `get_day_of_week(s)`: the English weekday name of a "Y-m-d" date, or None. */
  function GetDayOfWeek(s: string): (r: Option<string>)
    ensures var d := ParseDateAs(s, IsoFormat);
      if d.Some? then r == Some(WeekdayNames[Weekday(d.value)]) else r.None?
  {
    var d := ParseDateAs(s, IsoFormat);
    if d.Some? then Some(WeekdayName(d.value)) else None
  }

  /** `is_weekend(s)`: despite the name, true only for Sunday. */
  function IsWeekend(s: string): bool {
    var day := GetDayOfWeek(s);
    day.Some? && day.value == "Sunday"
  }

  /** A date is a "weekend" exactly when it parses and falls on a Sunday; unparseable text is not. */
  lemma IsWeekendIsSunday(s: string)
    ensures IsWeekend(s) <==> ParseDateAs(s, IsoFormat).Some? && Weekday(ParseDateAs(s, IsoFormat).value) == 6
  {
    var d := ParseDateAs(s, IsoFormat);
    if d.Some? {
      var w := Weekday(d.value);
      assert WeekdayNames[w] == "Sunday" <==> w == 6;
    }
  }
}
