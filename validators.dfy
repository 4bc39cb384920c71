/**
 * The input checks of `backend/utils/validators.py`: e-mail addresses,
 * booking dates, times within working hours, phone numbers, and the
 * service and dentist names the clinic offers.  Every check is total:
 * where Python catches `ValueError` the model answers false.
 */
module Validators {
  import opened Wrappers
  import opened Text
  import opened Calendar

  // ---------------------------------------------------------------- regular expressions

  /**
   * The text an anchored pattern ending in `$` has to match in full when the
   * pattern cannot itself match a newline: `$` also matches just before one
   * final "\n".
   */
  function RegexEnd(s: string): (t: string)
    ensures t == s || (s == t + "\n")
  {
    if s != [] && s[|s| - 1] == '\n' then s[..|s| - 1] else s
  }

  // ---------------------------------------------------------------- validate_email

  /** `[a-zA-Z0-9._%+-]` */
  predicate LocalChar(c: char) {
    IsLetter(c) || IsDigit(c) || c == '.' || c == '_' || c == '%' || c == '+' || c == '-'
  }

  /** `[a-zA-Z0-9.-]` */
  predicate DomainChar(c: char) {
    IsLetter(c) || IsDigit(c) || c == '.' || c == '-'
  }

  /**
   * `t` matches `[a-zA-Z0-9._%+-]+@[a-zA-Z0-9.-]+\.[a-zA-Z]{2,}` with the `@`
   * at `a` and the last literal dot at `p`.
   */
  predicate EmailAt(t: string, a: int, p: int) {
    1 <= a && a + 2 <= p && p + 3 <= |t| && t[a] == '@' && t[p] == '.'
    && (forall k :: 0 <= k < a ==> LocalChar(t[k]))
    && (forall k :: a < k < p ==> DomainChar(t[k]))
    && (forall k :: p < k < |t| ==> IsLetter(t[k]))
  }

  /** The whole of `t` matches the address pattern, split some way. */
  ghost predicate EmailPattern(t: string) {
    exists a: nat, p: nat :: EmailAt(t, a, p)
  }

  /**
   * `validate_email`: the only split worth trying puts the `@` at its first
   * occurrence and the dot before the top-level domain at the last dot.
   */
  function ValidateEmail(email: string): bool {
    var t := RegexEnd(email);
    match IndexFrom(t, '@', 0)
    case None => false
    case Some(a) =>
      match LastIndexBefore(t, '.', |t|)
      case None => false
      case Some(p) => EmailAt(t, a, p)
  }

  /** In any match the `@` is the first one of the text ... */
  lemma EmailFirstAt(t: string, a: nat, p: nat)
    requires EmailAt(t, a, p)
    ensures IndexFrom(t, '@', 0) == Some(a)
  {
    assert !LocalChar('@');
  }

  /** ... and the dot is the last one. */
  lemma EmailLastDot(t: string, a: nat, p: nat)
    requires EmailAt(t, a, p)
    ensures LastIndexBefore(t, '.', |t|) == Some(p)
  {
    assert !IsLetter('.');
  }

  /** `validate_email` says yes exactly when the regular expression matches. */
  lemma ValidateEmailIsPattern(email: string)
    ensures ValidateEmail(email) <==> EmailPattern(RegexEnd(email))
  {
    var t := RegexEnd(email);
    if EmailPattern(t) {
      var a: nat, p: nat :| EmailAt(t, a, p);
      EmailFirstAt(t, a, p);
      EmailLastDot(t, a, p);
    }
  }

  /** One final newline changes nothing, as `$` allows it. */
  lemma ValidateEmailFinalNewline(email: string)
    requires email == [] || email[|email| - 1] != '\n'
    ensures ValidateEmail(email + "\n") == ValidateEmail(email)
  {
    assert RegexEnd(email + "\n") == email;
  }

  lemma EmailSimple(s: string)
    requires s == "test@example.com"
    ensures ValidateEmail(s)
  {
    assert EmailAt(s, 4, 12);
    ValidateEmailIsPattern(s);
  }

  lemma EmailDottedParts(s: string)
    requires s == "user.name@domain.co.uk"
    ensures ValidateEmail(s)
  {
    assert EmailAt(s, 9, 19);
    ValidateEmailIsPattern(s);
  }

  lemma EmailNoAt(s: string)
    requires s == "invalid.email"
    ensures !ValidateEmail(s)
  {
    assert '@' !in s;
  }

  lemma EmailNoLocalPart(s: string)
    requires s == "@example.com"
    ensures !ValidateEmail(s)
  {
    assert RegexEnd(s) == s;
    assert IndexFrom(s, '@', 0) == Some(0);
  }

  lemma EmailNoDomain(s: string)
    requires s == "test@"
    ensures !ValidateEmail(s)
  {
    assert RegexEnd(s) == s;
  }

  // ---------------------------------------------------------------- validate_date

  /** How far ahead a booking may be, in days. */
  const BookingHorizon := 180

  /**
   * `validate_date`, with today's date as a parameter: an ISO date that is
   * neither before today nor after today plus 180 days.
   */
  function ValidateDate(s: string, today: Date): bool
    requires ValidDate(today)
  {
    match ParseDateAs(s, IsoFormat)
    case None => false
    case Some(d) => !DateLess(d, today) && !DateLess(AddDays(today, BookingHorizon), d)
  }

  /** The accepted dates are exactly the 181 days from today on. */
  lemma ValidateDateWindow(s: string, today: Date)
    requires ValidDate(today)
    ensures ValidateDate(s, today) <==>
      ParseDateAs(s, IsoFormat).Some?
      && DayNumber(today) <= DayNumber(ParseDateAs(s, IsoFormat).value) <= DayNumber(today) + BookingHorizon
  {
    match ParseDateAs(s, IsoFormat)
    case None =>
    case Some(d) =>
      OrderIsDayOrder(d, today);
      OrderIsDayOrder(AddDays(today, BookingHorizon), d);
  }

  /** The date `n` days from today, written as ISO, is accepted exactly for 0 <= n <= 180. */
  lemma ValidateDateOffset(today: Date, n: int)
    requires ValidDate(today) && InPythonRange(AddDays(today, n))
    ensures ValidateDate(FormatIso(AddDays(today, n)), today) <==> 0 <= n <= BookingHorizon
  {
    ParseFormatIso(AddDays(today, n));
    ValidateDateWindow(FormatIso(AddDays(today, n)), today);
  }

  lemma ValidateDateTomorrow(today: Date)
    requires ValidDate(today) && InPythonRange(AddDays(today, 1))
    ensures ValidateDate(FormatIso(AddDays(today, 1)), today)
  {
    ValidateDateOffset(today, 1);
  }

  lemma ValidateDateYesterday(today: Date)
    requires ValidDate(today) && InPythonRange(AddDays(today, -1))
    ensures !ValidateDate(FormatIso(AddDays(today, -1)), today)
  {
    ValidateDateOffset(today, -1);
  }

  lemma ValidateDateSlashes(s: string, today: Date)
    requires s == "2024/12/25" && ValidDate(today)
    ensures !ValidateDate(s, today)
  {
    SplitNone(s, '-');
  }

  lemma ValidateDateWords(s: string, today: Date)
    requires s == "invalid-date" && ValidDate(today)
    ensures !ValidateDate(s, today)
  {
    assert s == "invalid" + ['-'] + "date" && '-' !in "invalid" && '-' !in "date";
    SplitPair("invalid", "date", '-');
  }

  // ---------------------------------------------------------------- validate_time

  /** The default `working_hours`. */
  const WorkingHours: (string, string) := ("09:00", "18:00")

  /** Python's order on `datetime.time` values. */
  predicate ClockLeq(a: Clock, b: Clock) {
    a.hour < b.hour || (a.hour == b.hour && a.minute <= b.minute)
  }

  /** Minutes since midnight. */
  function Minutes(t: Clock): int {
    60 * t.hour + t.minute
  }

  lemma ClockLeqIsMinutes(a: Clock, b: Clock)
    requires ValidClock(a) && ValidClock(b)
    ensures ClockLeq(a, b) <==> Minutes(a) <= Minutes(b)
  {
  }

  /**
   * `validate_time`: the time and both ends of the working hours read as
   * '%H:%M', and the time lies between the ends, both included.
   */
  function ValidateTime(s: string, hours: (string, string)): bool {
    match (ParseClock(s), ParseClock(hours.0), ParseClock(hours.1))
    case (Some(t), Some(lo), Some(hi)) => ClockLeq(lo, t) && ClockLeq(t, hi)
    case _ => false
  }

  /** Accepted exactly when all three read and the time falls in the closed interval. */
  lemma ValidateTimeWindow(s: string, hours: (string, string))
    ensures ValidateTime(s, hours) <==>
      ParseClock(s).Some? && ParseClock(hours.0).Some? && ParseClock(hours.1).Some?
      && Minutes(ParseClock(hours.0).value) <= Minutes(ParseClock(s).value) <= Minutes(ParseClock(hours.1).value)
  {
    if ParseClock(s).Some? && ParseClock(hours.0).Some? && ParseClock(hours.1).Some? {
      ClockLeqIsMinutes(ParseClock(hours.0).value, ParseClock(s).value);
      ClockLeqIsMinutes(ParseClock(s).value, ParseClock(hours.1).value);
    }
  }

  /** What '%H:%M' makes of five characters "HH:MM". */
  lemma ReadClock(s: string)
    requires |s| == 5 && s[2] == ':' && AllDigits(s[..2]) && AllDigits(s[3..])
    ensures ParseClock(s) ==
      if Value(s[..2]) <= 23 && Value(s[3..]) <= 59 then Some(Clock(Value(s[..2]), Value(s[3..]))) else None
  {
    ClockSplit(s);
  }

  /** A five-character "HH:MM" with its two numbers. */
  lemma ClockText(s: string, h: int, m: int)
    requires |s| == 5 && s[2] == ':' && AllDigits(s[..2]) && AllDigits(s[3..])
    requires h == (s[0] as int - '0' as int) * 10 + (s[1] as int - '0' as int)
    requires m == (s[3] as int - '0' as int) * 10 + (s[4] as int - '0' as int)
    ensures ParseClock(s) == if h <= 23 && m <= 59 then Some(Clock(h, m)) else None
  {
    ReadClock(s);
    assert s[..2][0] == s[0] && s[..2][1] == s[1];
    assert s[3..][0] == s[3] && s[3..][1] == s[4];
    ValueOfShort(s[..2]);
    ValueOfShort(s[3..]);
  }

  lemma ClockNine(s: string)
    requires s == "09:00"
    ensures ParseClock(s) == Some(Clock(9, 0))
  {
    ClockText(s, 9, 0);
  }

  lemma ClockEighteen(s: string)
    requires s == "18:00"
    ensures ParseClock(s) == Some(Clock(18, 0))
  {
    ClockText(s, 18, 0);
  }

  /** A time within the default working hours exactly when 09:00 <= it <= 18:00. */
  lemma DefaultWorkingHours(s: string)
    ensures ValidateTime(s, WorkingHours) <==>
      ParseClock(s).Some? && 9 * 60 <= Minutes(ParseClock(s).value) <= 18 * 60
  {
    ClockNine(WorkingHours.0);
    ClockEighteen(WorkingHours.1);
    ValidateTimeWindow(s, WorkingHours);
  }

  lemma TimeTen(s: string)
    requires s == "10:00"
    ensures ValidateTime(s, WorkingHours)
  {
    ClockText(s, 10, 0);
    DefaultWorkingHours(s);
  }

  lemma TimeHalfPastTwo(s: string)
    requires s == "14:30"
    ensures ValidateTime(s, WorkingHours)
  {
    ClockText(s, 14, 30);
    DefaultWorkingHours(s);
  }

  lemma TimeBeforeClosing(s: string)
    requires s == "17:59"
    ensures ValidateTime(s, WorkingHours)
  {
    ClockText(s, 17, 59);
    DefaultWorkingHours(s);
  }

  lemma TimeBeforeOpening(s: string)
    requires s == "08:00"
    ensures !ValidateTime(s, WorkingHours)
  {
    ClockText(s, 8, 0);
    DefaultWorkingHours(s);
  }

  lemma TimeAfterClosing(s: string)
    requires s == "19:00"
    ensures !ValidateTime(s, WorkingHours)
  {
    ClockText(s, 19, 0);
    DefaultWorkingHours(s);
  }

  lemma TimeNoSuchHour(s: string)
    requires s == "25:00"
    ensures !ValidateTime(s, WorkingHours)
  {
    ClockText(s, 25, 0);
    DefaultWorkingHours(s);
  }

  lemma TimeNotAClock(s: string)
    requires s == "invalid"
    ensures !ValidateTime(s, WorkingHours)
  {
    SplitNone(s, ':');
  }

  // ---------------------------------------------------------------- validate_phone

  /** `[\s\-()]`: the separators removed before the number is checked. */
  predicate Separator(c: char) {
    IsSpace(c) || c == '-' || c == '(' || c == ')'
  }

  /** `re.sub(r'[\s\-()]', '', s)`: the characters of `s` that are not separators, in order. */
  function Clean(s: string): (r: string)
    ensures |r| <= |s|
    ensures forall k :: 0 <= k < |r| ==> !Separator(r[k])
  {
    if s == [] then [] else (if Separator(s[0]) then [] else [s[0]]) + Clean(s[1..])
  }

  lemma CleanCons(c: char, s: string)
    ensures Clean([c] + s) == (if Separator(c) then [] else [c]) + Clean(s)
  {
    assert ([c] + s)[1..] == s;
  }

  lemma {:induction false} CleanAppend(a: string, b: string)
    decreases |a|
    ensures Clean(a + b) == Clean(a) + Clean(b)
  {
    if a == [] {
      assert a + b == b;
    } else {
      assert a == [a[0]] + a[1..];
      assert a + b == [a[0]] + (a[1..] + b);
      CleanCons(a[0], a[1..] + b);
      CleanCons(a[0], a[1..]);
      CleanAppend(a[1..], b);
    }
  }

  /** Text without separators is left as it is. */
  lemma {:induction false} CleanKeeps(s: string)
    requires forall k :: 0 <= k < |s| ==> !Separator(s[k])
    decreases |s|
    ensures Clean(s) == s
  {
    if s != [] {
      CleanKeeps(s[1..]);
    }
  }

  lemma CleanIdempotent(s: string)
    ensures Clean(Clean(s)) == Clean(s)
  {
    CleanKeeps(Clean(s));
  }

  /** Removing every separator removes one inserted anywhere. */
  lemma CleanDropsSeparator(a: string, c: char, b: string)
    requires Separator(c)
    ensures Clean(a + [c] + b) == Clean(a + b)
  {
    CleanAppend(a + [c], b);
    CleanAppend(a, [c]);
    CleanAppend(a, b);
  }

  /** `^\+?[1-9]\d{9,14}$` on text that holds no newline: an optional plus, then 10 to 15 digits, the first not 0. */
  predicate PhonePattern(t: string) {
    var d := if t != [] && t[0] == '+' then t[1..] else t;
    10 <= |d| <= 15 && AllDigits(d) && d[0] != '0'
  }

  /** `validate_phone`. */
  function ValidatePhone(phone: string): bool {
    PhonePattern(RegexEnd(Clean(phone)))
  }

  /** The final newline `$` would allow has already gone with the whitespace. */
  lemma CleanedHasNoFinalNewline(phone: string)
    ensures RegexEnd(Clean(phone)) == Clean(phone)
  {
    var r := Clean(phone);
    if r != [] {
      assert !Separator(r[|r| - 1]);
    }
  }

  /** Separators may be written anywhere without changing the verdict. */
  lemma ValidatePhoneIgnoresSeparator(a: string, c: char, b: string)
    requires Separator(c)
    ensures ValidatePhone(a + [c] + b) == ValidatePhone(a + b)
  {
    CleanDropsSeparator(a, c, b);
  }

  /** A national number: 10 to 15 digits, the first not 0. */
  predicate NationalDigits(d: string) {
    10 <= |d| <= 15 && AllDigits(d) && d[0] != '0'
  }

  lemma PhonePatternHasDigits(t: string)
    requires PhonePattern(t)
    ensures t == "+" + t[1..] || NationalDigits(t)
  {
    if t[0] == '+' {
      assert t == "+" + t[1..];
    }
  }

  lemma DigitsHavePhonePattern(t: string, d: string)
    requires (t == d || t == "+" + d) && NationalDigits(d)
    ensures PhonePattern(t)
  {
    if t != d {
      assert t[1..] == d;
    } else {
      assert IsDigit(d[0]);
    }
  }

  /** The accepted numbers: once the separators are gone, 10 to 15 digits, the first not 0, after at most one plus. */
  lemma ValidatePhoneDigits(phone: string)
    ensures ValidatePhone(phone) <==>
      exists d :: (Clean(phone) == d || Clean(phone) == "+" + d) && NationalDigits(d)
  {
    CleanedHasNoFinalNewline(phone);
    var t := Clean(phone);
    if ValidatePhone(phone) {
      PhonePatternHasDigits(t);
      if t[0] == '+' {
        assert NationalDigits(t[1..]);
      }
    }
    if exists d :: (t == d || t == "+" + d) && NationalDigits(d) {
      var d :| (t == d || t == "+" + d) && NationalDigits(d);
      DigitsHavePhonePattern(t, d);
    }
  }

  lemma PhoneInternational(s: string)
    requires s == "+1234567890"
    ensures ValidatePhone(s)
  {
    CleanKeeps(s);
    CleanedHasNoFinalNewline(s);
    PlusDigits(s);
    DigitsHavePhonePattern(s, s[1..]);
  }

  lemma PlusDigits(s: string)
    requires s == "+1234567890"
    ensures s == "+" + s[1..] && NationalDigits(s[1..])
  {
    assert s[1..] == "1234567890";
  }

  lemma PhoneWithSeparators(s: string)
    requires s == "(555) 123-4567"
    ensures ValidatePhone(s)
  {
    PhoneUsCleaned(s);
    CleanedHasNoFinalNewline(s);
  }

  lemma PhoneUsCleaned(s: string)
    requires s == "(555) 123-4567"
    ensures Clean(s) == "5551234567"
  {
    PhoneUsParts(s);
    CleanSix("(", "555", ") ", "123", "-", "4567");
    CleanDrops("(");
    CleanKeeps("555");
    CleanDrops(") ");
    CleanKeeps("123");
    CleanDrops("-");
    CleanKeeps("4567");
    PhoneUsDigits();
  }

  /** The example split at its separators; a lemma of its own keeps the literal out of the cleaning proof. */
  lemma PhoneUsParts(s: string)
    requires s == "(555) 123-4567"
    ensures s == "(" + "555" + ") " + "123" + "-" + "4567"
  {
  }

  /** The kept digit runs, rejoined. */
  lemma PhoneUsDigits()
    ensures [] + "555" + [] + "123" + [] + "4567" == "5551234567"
  {
  }

  lemma CleanSix(a: string, b: string, c: string, d: string, e: string, f: string)
    ensures Clean(a + b + c + d + e + f) == Clean(a) + Clean(b) + Clean(c) + Clean(d) + Clean(e) + Clean(f)
  {
    CleanAppend(a + b + c + d + e, f);
    CleanAppend(a + b + c + d, e);
    CleanAppend(a + b + c, d);
    CleanAppend(a + b, c);
    CleanAppend(a, b);
  }

  /** Text made only of separators disappears. */
  lemma {:induction false} CleanDrops(s: string)
    requires forall k :: 0 <= k < |s| ==> Separator(s[k])
    decreases |s|
    ensures Clean(s) == []
  {
    if s != [] {
      CleanDrops(s[1..]);
    }
  }

  lemma PhoneTooShort(s: string)
    requires s == "123"
    ensures !ValidatePhone(s)
  {
    CleanKeeps(s);
    CleanedHasNoFinalNewline(s);
  }

  lemma PhoneNotDigits(s: string)
    requires s == "invalid"
    ensures !ValidatePhone(s)
  {
    CleanKeeps(s);
    CleanedHasNoFinalNewline(s);
  }

  // ---------------------------------------------------------------- validate_service, validate_dentist

  /** The services offered when no list is given. */
  const DefaultServices: seq<string> :=
    ["General Checkup", "Teeth Cleaning", "Root Canal", "Teeth Whitening", "Braces Consultation", "Dental Implants"]

  /** The dentists on staff when no list is given. */
  const DefaultDentists: seq<string> :=
    ["Dr. Emily Chen", "Dr. James Wilson", "Dr. Priya Sharma", "Dr. Mark Johnson"]

  /** The lower-cased names. */
  function LowerAll(names: seq<string>): (r: seq<string>)
    ensures |r| == |names| && forall i :: 0 <= i < |names| ==> r[i] == Lower(names[i])
  {
    seq(|names|, i requires 0 <= i < |names| => Lower(names[i]))
  }

  /**
   * `validate_service`: the name, lower-cased, among the offered names,
   * lower-cased; only a missing list (not an empty one) means the defaults.
   */
  function ValidateService(service: string, available: Option<seq<string>>): bool {
    Lower(service) in LowerAll(available.GetOr(DefaultServices))
  }

  /** A service is accepted exactly when it equals an offered one up to case. */
  lemma ValidateServiceUpToCase(service: string, available: Option<seq<string>>)
    ensures var names := available.GetOr(DefaultServices);
      ValidateService(service, available) <==> exists i :: 0 <= i < |names| && Lower(names[i]) == Lower(service)
  {
    var names := available.GetOr(DefaultServices);
    if ValidateService(service, available) {
      var i :| 0 <= i < |names| && LowerAll(names)[i] == Lower(service);
    }
  }

  /** Two spellings that differ only in case get the same answer. */
  lemma ValidateServiceIgnoresCase(a: string, b: string, available: Option<seq<string>>)
    requires Lower(a) == Lower(b)
    ensures ValidateService(a, available) == ValidateService(b, available)
  {
  }

  /** An empty list offers nothing. */
  lemma ValidateServiceEmptyList(service: string)
    ensures !ValidateService(service, Some([]))
  {
  }

  lemma ServiceListed(s: string)
    requires s == "Teeth Cleaning"
    ensures ValidateService(s, None)
  {
    assert DefaultServices[1] == s;
    ValidateServiceUpToCase(s, None);
  }

  lemma ServiceLowerCase(s: string)
    requires s == "teeth cleaning"
    ensures ValidateService(s, None)
  {
    ServiceListed("Teeth Cleaning");
    assert "Teeth Cleaning" == ['T'] + "eeth " + ['C'] + "leaning" && s == ['t'] + "eeth " + ['c'] + "leaning";
    LowerTwoCapitals('T', "eeth ", 'C', "leaning", 't', 'c');
    ValidateServiceIgnoresCase("Teeth Cleaning", s, None);
  }

  lemma LowerAppend(a: string, b: string)
    ensures Lower(a + b) == Lower(a) + Lower(b)
  {
  }

  /** Two texts that differ in the case of two letters lower-case alike. */
  lemma LowerTwoCapitals(c: char, x: string, d: char, y: string, c': char, d': char)
    requires LowerChar(c) == LowerChar(c') && LowerChar(d) == LowerChar(d')
    ensures Lower([c] + x + [d] + y) == Lower([c'] + x + [d'] + y)
  {
    LowerAppend([c] + x + [d], y);
    LowerAppend([c] + x, [d]);
    LowerAppend([c], x);
    LowerAppend([c'] + x + [d'], y);
    LowerAppend([c'] + x, [d']);
    LowerAppend([c'], x);
  }

  /** Names whose first letters differ even in lower case are different names. */
  lemma FirstLetterDiffers(a: string, b: string)
    requires a != [] && b != [] && LowerChar(a[0]) != LowerChar(b[0])
    ensures Lower(a) != Lower(b)
  {
    assert Lower(a)[0] != Lower(b)[0];
  }

  lemma ServiceUnknown(s: string)
    requires s == "Invalid Service"
    ensures !ValidateService(s, None)
  {
    forall i | 0 <= i < |DefaultServices| ensures Lower(DefaultServices[i]) != Lower(s) {
      FirstLetterDiffers(DefaultServices[i], s);
    }
    ValidateServiceUpToCase(s, None);
  }

  /** `validate_dentist`: the name exactly as listed, case included. */
  function ValidateDentist(dentist: string, available: Option<seq<string>>): bool {
    dentist in available.GetOr(DefaultDentists)
  }

  lemma DentistListed(s: string)
    requires s == "Dr. Emily Chen"
    ensures ValidateDentist(s, None)
  {
    assert DefaultDentists[0] == s;
  }

  lemma DentistUnknown(s: string)
    requires s == "Dr. Unknown"
    ensures !ValidateDentist(s, None)
  {
    assert forall i :: 0 <= i < |DefaultDentists| ==> |DefaultDentists[i]| != |s|;
  }

  /** Unlike services, dentists' names are case-sensitive. */
  lemma DentistCaseMatters(s: string)
    requires s == "dr. emily chen"
    ensures !ValidateDentist(s, None) && ValidateDentist("Dr. Emily Chen", None)
  {
    DentistListed("Dr. Emily Chen");
    assert forall i :: 0 <= i < |DefaultDentists| ==> DefaultDentists[i][0] != s[0];
  }
}
