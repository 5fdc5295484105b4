/** The client's date helpers. A calendar day is a day number counted from
    1970-01-01 (the same count as `LocalDate.toEpochDay` on the server);
    the browser's time zone is taken to be UTC, so a local midnight and the
    UTC midnight of the same date are the same day. */
module ClientDates {
  import opened Wrappers
  import opened Text
  import opened ClientTypes
  import opened Seqs

  // ---------------------------------------------------------------------
  // String.prototype.split with a one-character separator
  // ---------------------------------------------------------------------

  /** The position of the first `c` in `s`, or `|s|` when there is none. */
  function IndexOf(s: string, c: char): (i: nat)
    ensures i <= |s|
    ensures c !in s[..i]
    ensures i < |s| ==> s[i] == c
    decreases |s|
  {
    if |s| == 0 || s[0] == c then 0
    else
      var j := IndexOf(s[1..], c);
      assert s[..1 + j] == [s[0]] + s[1..][..j];
      1 + j
  }

  /** `s.split(c)`: the pieces between the separators, at least one. */
  function Split(s: string, c: char): (parts: seq<string>)
    ensures |parts| > 0
    ensures forall i :: 0 <= i < |parts| ==> c !in parts[i]
    decreases |s|
  {
    var i := IndexOf(s, c);
    if i == |s| then [s] else [s[..i]] + Split(s[i + 1..], c)
  }

  /** `parts.join(c)`. */
  function Join(parts: seq<string>, c: char): string
    requires |parts| > 0
    decreases |parts|
  {
    if |parts| == 1 then parts[0] else parts[0] + [c] + Join(parts[1..], c)
  }

  /** Joining the pieces with the separator gives the string back. */
  lemma {:induction false} JoinSplit(s: string, c: char)
    ensures Join(Split(s, c), c) == s
    decreases |s|
  {
    var i := IndexOf(s, c);
    if i < |s| {
      var rest := s[i + 1..];
      var parts := Split(s, c);
      var tail := Split(rest, c);
      assert parts == [s[..i]] + tail;
      assert |parts| > 1 && parts[0] == s[..i] && parts[1..] == tail;
      assert Join(parts, c) == s[..i] + [c] + Join(tail, c);
      JoinSplit(rest, c);
      assert s == s[..i] + [c] + rest;
    }
  }

  /** Splitting a join of separator-free pieces gives the pieces back. */
  lemma {:induction false} SplitJoin(parts: seq<string>, c: char)
    requires |parts| > 0
    requires forall i :: 0 <= i < |parts| ==> c !in parts[i]
    ensures Split(Join(parts, c), c) == parts
    decreases |parts|
  {
    var s := Join(parts, c);
    var p := parts[0];
    if |parts| == 1 {
      assert IndexOf(s, c) == |s| by {
        IndexOfAbsent(s, c);
      }
    } else {
      var rest := Join(parts[1..], c);
      assert s == p + [c] + rest;
      IndexOfAfter(p, c, rest);
      assert s[IndexOf(s, c) + 1..] == rest;
      assert s[..IndexOf(s, c)] == p;
      SplitJoin(parts[1..], c);
      assert parts == [p] + parts[1..];
    }
  }

  lemma {:induction false} IndexOfAbsent(s: string, c: char)
    requires c !in s
    ensures IndexOf(s, c) == |s|
    decreases |s|
  {
    if |s| > 0 {
      assert s[1..] <= s[1..];
      assert forall k :: 0 <= k < |s[1..]| ==> s[1..][k] == s[k + 1];
      IndexOfAbsent(s[1..], c);
    }
  }

  lemma {:induction false} IndexOfAfter(p: string, c: char, rest: string)
    requires c !in p
    ensures IndexOf(p + [c] + rest, c) == |p|
    decreases |p|
  {
    var s := p + [c] + rest;
    if |p| > 0 {
      assert s[1..] == p[1..] + [c] + rest;
      assert forall k :: 0 <= k < |p[1..]| ==> p[1..][k] == p[k + 1];
      IndexOfAfter(p[1..], c, rest);
    }
  }

  // ---------------------------------------------------------------------
  // Number(s) for integer text
  // ---------------------------------------------------------------------

  /** Optionally signed decimal digits, and the integer they denote. */
  function SignedDecimal(t: string): Option<int> {
    if |t| > 1 && (t[0] == '+' || t[0] == '-') && AllDigits(t[1..]) then
      var v: int := DigitsValue(t[1..]);
      Some(if t[0] == '-' then -v else v)
    else if |t| > 0 && AllDigits(t) then Some(DigitsValue(t))
    else None
  }

  /** `Number(s)` for text that trims to nothing (0) or to an integer;
      `None` stands for `NaN`. */
  function JsNumber(s: string): (r: Option<int>)
    ensures AllJsWhitespace(s) ==> r == Some(0)
    ensures r.Some? && !AllJsWhitespace(s) ==> SignedDecimal(JsTrim(s)) == r
  {
    JsTrimEmptyIffWhitespace(s);
    var t := JsTrim(s);
    if t == "" then Some(0) else SignedDecimal(t)
  }

  /** A string with no surrounding whitespace trims to itself. */
  lemma TrimUntouched(s: string)
    requires |s| > 0 && !JsWhitespace(s[0]) && !JsWhitespace(s[|s| - 1])
    ensures JsTrim(s) == s
  {
    assert TrimStart(s) == s;
  }

  /** `Number` reads back the decimal text of every integer. */
  lemma JsNumberOfIntToString(n: int)
    ensures JsNumber(IntToString(n)) == Some(n)
  {
    var s := IntToString(n);
    var digits := NatToString(if n < 0 then -n else n);
    assert !JsWhitespace(digits[0]) && !JsWhitespace(digits[|digits| - 1]);
    TrimUntouched(s);
    if n < 0 {
      assert s[1..] == digits;
    }
  }

  // ---------------------------------------------------------------------
  // new Date(year, month, day)
  // ---------------------------------------------------------------------

  /** Days from 1970-01-01 to a date of the proleptic Gregorian calendar
      (month 1..12; a day past the month's end runs on into the next). */
  function DaysFromCivil(y: int, m: int, d: int): int
    requires 1 <= m <= 12
  {
    var y' := if m <= 2 then y - 1 else y;
    var era := y' / 400;
    var yoe := y' - era * 400;
    var mp := if m > 2 then m - 3 else m + 9;
    var doy := (153 * mp + 2) / 5 + d - 1;
    var doe := yoe * 365 + yoe / 4 - yoe / 100 + doy;
    era * 146097 + doe - 719468
  }

  /** ECMAScript's MakeDay for a zero-based month: whole years of months
      carry into the year, and the day of the month is added on. */
  function MakeDay(year: int, month: int, date: int): int {
    DaysFromCivil(year + month / 12, month % 12 + 1, 1) + date - 1
  }

  /** `new Date(y, m0, d)` at local midnight, as a day number: a year from
      0 to 99 means 1900 to 1999. */
  function LocalDay(y: int, m0: int, d: int): int {
    MakeDay(if 0 <= y <= 99 then 1900 + y else y, m0, d)
  }

  lemma EpochIsDayZero()
    ensures DaysFromCivil(1970, 1, 1) == 0
    ensures LocalDay(1970, 0, 1) == 0
  {
  }

  /** For a month 1..12 and a year from 100 on, `new Date(y, m - 1, d)` is
      the calendar date itself. */
  lemma LocalDayIsCalendarDay(y: int, m: int, d: int)
    requires 1 <= m <= 12 && (y < 0 || y >= 100)
    ensures LocalDay(y, m - 1, d) == DaysFromCivil(y, m, d)
  {
    assert (m - 1) / 12 == 0 && (m - 1) % 12 == m - 1;
  }

  // ---------------------------------------------------------------------
  // parseLocalDate
  // ---------------------------------------------------------------------

  datatype CivilDate = CivilDate(year: int, month: int, day: int)

  /** `Number(parts[i]) || fallback`: a missing part, 0 and `NaN` all fall back. */
  function PartOr(parts: seq<string>, i: nat, fallback: int): (v: int)
    ensures v != 0 || fallback == 0
  {
    if i < |parts| then
      match JsNumber(parts[i])
      case Some(n) => if n != 0 then n else fallback
      case None => fallback
    else fallback
  }

  /** The year, month (1-based) and day `parseLocalDate` reads from the
      first ten characters of `d`. */
  function LocalDateParts(d: string): (c: CivilDate)
    ensures c.year != 0 && c.month != 0 && c.day != 0
  {
    var parts := Split(Prefix(d, 10), '-');
    CivilDate(PartOr(parts, 0, 1970), PartOr(parts, 1, 1), PartOr(parts, 2, 1))
  }

  /** `parseLocalDate(d)` as a day number. */
  function ParseLocalDate(d: string): int {
    var c := LocalDateParts(d);
    LocalDay(c.year, c.month - 1, c.day)
  }

  /** The empty string (and a missing date) parses as 1970-01-01. */
  lemma ParseLocalDateEmpty()
    ensures LocalDateParts("") == CivilDate(1970, 1, 1)
    ensures ParseLocalDate("") == 0
  {
    EmptyDateParts();
    EpochIsDayZero();
  }

  lemma EmptyDateParts()
    ensures LocalDateParts("") == CivilDate(1970, 1, 1)
  {
    assert Prefix("", 10) == "";
    var parts := Split("", '-');
    assert parts == [""];
    assert JsNumber("") == Some(0);
    assert PartOr(parts, 0, 1970) == 1970;
    assert PartOr(parts, 1, 1) == 1 && PartOr(parts, 2, 1) == 1;
  }

  /** Anything after the tenth character is ignored. */
  lemma ParseFirstTenOnly(s: string, rest: string)
    requires |s| >= 10
    ensures LocalDateParts(s + rest) == LocalDateParts(s)
    ensures ParseLocalDate(s + rest) == ParseLocalDate(s)
    ensures ParseLocalDate(Prefix(s, 10)) == ParseLocalDate(s)
  {
    assert Prefix(s + rest, 10) == Prefix(s, 10);
    assert Prefix(Prefix(s, 10), 10) == Prefix(s, 10);
  }

  /** "YYYY-MM-DD": four, two and two decimal digits separated by '-'. */
  predicate IsoShape(s: string) {
    && |s| == 10
    && AllDigits(s[..4]) && s[4] == '-'
    && AllDigits(s[5..7]) && s[7] == '-'
    && AllDigits(s[8..])
  }

  /** The three numbers written in an ISO date, as they stand. */
  function IsoParts(s: string): CivilDate
    requires IsoShape(s)
  {
    CivilDate(DigitsValue(s[..4]), DigitsValue(s[5..7]), DigitsValue(s[8..]))
  }

  lemma DigitsNotSeparator(s: string)
    requires AllDigits(s)
    ensures '-' !in s
    ensures |s| > 0 ==> !JsWhitespace(s[0]) && !JsWhitespace(s[|s| - 1])
  {
  }

  /** `Number` of plain decimal digits is their value. */
  lemma JsNumberOfDigits(t: string)
    requires |t| > 0 && AllDigits(t)
    ensures JsNumber(t) == Some(DigitsValue(t))
  {
    DigitsNotSeparator(t);
    TrimUntouched(t);
  }

  /** An ISO date splits into its year, month and day text. */
  lemma SplitIso(s: string)
    requires IsoShape(s)
    ensures Split(s, '-') == [s[..4], s[5..7], s[8..]]
  {
    var y, m, d := s[..4], s[5..7], s[8..];
    DigitsNotSeparator(y);
    DigitsNotSeparator(m);
    DigitsNotSeparator(d);
    SplitJoin([y, m, d], '-');
    assert [y, m, d][1..] == [m, d] && [m, d][1..] == [d];
    assert Join([m, d], '-') == m + ['-'] + d;
    assert Join([y, m, d], '-') == y + ['-'] + (m + ['-'] + d);
    assert s == y + ['-'] + (m + ['-'] + d);
  }

  /** A well-formed "YYYY-MM-DD" parses to its own numbers; a zero part
      falls back to 1970, January or the first. */
  lemma ParseIsoParts(s: string, rest: string)
    requires IsoShape(s)
    ensures var c := IsoParts(s);
      LocalDateParts(s + rest) == CivilDate(
        if c.year == 0 then 1970 else c.year,
        if c.month == 0 then 1 else c.month,
        if c.day == 0 then 1 else c.day)
  {
    ParseFirstTenOnly(s, rest);
    assert Prefix(s, 10) == s;
    SplitIso(s);
    JsNumberOfDigits(s[..4]);
    JsNumberOfDigits(s[5..7]);
    JsNumberOfDigits(s[8..]);
  }

  // ---------------------------------------------------------------------
  // new Date(isoString) and isBeforeToday
  // ---------------------------------------------------------------------

  predicate LeapYear(y: int) {
    y % 4 == 0 && (y % 100 != 0 || y % 400 == 0)
  }

  function DaysInMonth(y: int, m: int): int
    requires 1 <= m <= 12
  {
    if m == 2 then (if LeapYear(y) then 29 else 28)
    else if m == 4 || m == 6 || m == 9 || m == 11 then 30
    else 31
  }

  /** The first of the next month is a whole month after the first of
      this one, across a year's end too. */
  lemma MonthLength(y: int, m: int)
    requires 1 <= m <= 12
    ensures m < 12 ==> DaysFromCivil(y, m + 1, 1) == DaysFromCivil(y, m, 1) + DaysInMonth(y, m)
    ensures m == 12 ==> DaysFromCivil(y + 1, 1, 1) == DaysFromCivil(y, m, 1) + DaysInMonth(y, m)
  {
    if m == 2 {
      FebruaryLength(y);
    } else if m == 12 {
      DecemberLength(y);
    } else {
      OtherMonthLength(y, m);
    }
  }

  /** March 1 follows February 1 by 28 days, or 29 in a leap year. */
  lemma FebruaryLength(y: int)
    ensures DaysFromCivil(y, 3, 1) == DaysFromCivil(y, 2, 1) + DaysInMonth(y, 2)
  {
    assert DaysFromCivil(y, 3, 1) == MarchYearStart(y) - 719468;
    assert DaysFromCivil(y, 2, 1) == MarchYearStart(y - 1) + 337 - 719468;
    MarchYearLength(y);
  }

  /** Days from 0000-03-01 to March 1 of year `yp`. */
  function MarchYearStart(yp: int): int {
    var era := yp / 400;
    var yoe := yp - era * 400;
    era * 146097 + yoe * 365 + yoe / 4 - yoe / 100
  }

  /** The year from March 1 of `y - 1` to March 1 of `y` holds February of
      `y`, so it is a leap year's length exactly when `y` is a leap year. */
  lemma MarchYearLength(y: int)
    ensures MarchYearStart(y) - MarchYearStart(y - 1) == if LeapYear(y) then 366 else 365
  {
    var era := y / 400;
    var yoe := y - era * 400;
    if yoe == 0 {
      assert (y - 1) / 400 == era - 1;
      assert MarchYearStart(y - 1) == era * 146097 - 366;
    } else {
      assert (y - 1) / 400 == era;
      YearOfEraStep(y, era, yoe);
    }
  }

  /** Within one 400-year era, one more year adds a leap day exactly in a
      leap year. */
  lemma YearOfEraStep(y: int, era: int, yoe: int)
    requires y == era * 400 + yoe && 0 < yoe < 400
    ensures (yoe / 4 - yoe / 100) - ((yoe - 1) / 4 - (yoe - 1) / 100) == if LeapYear(y) then 1 else 0
  {
    assert y % 400 == yoe;
    assert y % 4 == yoe % 4;
    assert y % 100 == yoe % 100;
    QuotientStep4(yoe);
    QuotientStep100(yoe);
  }

  lemma QuotientStep4(a: int)
    requires 0 < a
    ensures a / 4 - (a - 1) / 4 == if a % 4 == 0 then 1 else 0
  {
  }

  lemma QuotientStep100(a: int)
    requires 0 < a
    ensures a / 100 - (a - 1) / 100 == if a % 100 == 0 then 1 else 0
  {
  }

  lemma DecemberLength(y: int)
    ensures DaysFromCivil(y + 1, 1, 1) == DaysFromCivil(y, 12, 1) + 31
  {
    assert (153 * 9 + 2) / 5 == 275 && (153 * 10 + 2) / 5 == 306;
  }

  lemma OtherMonthLength(y: int, m: int)
    requires 1 <= m < 12 && m != 2
    ensures DaysFromCivil(y, m + 1, 1) == DaysFromCivil(y, m, 1) + DaysInMonth(y, m)
  {
    var mp := if m > 2 then m - 3 else m + 9;
    assert (153 * (mp + 1) + 2) / 5 - (153 * mp + 2) / 5 == DaysInMonth(y, m) by {
      if m == 1 {
        assert (153 * 11 + 2) / 5 == 337 && (153 * 10 + 2) / 5 == 306;
      } else if m == 3 {
        assert (153 * 1 + 2) / 5 == 31 && (153 * 0 + 2) / 5 == 0;
      } else if m == 4 {
        assert (153 * 2 + 2) / 5 == 61;
      } else if m == 5 {
        assert (153 * 3 + 2) / 5 == 92;
      } else if m == 6 {
        assert (153 * 4 + 2) / 5 == 122;
      } else if m == 7 {
        assert (153 * 5 + 2) / 5 == 153;
      } else if m == 8 {
        assert (153 * 6 + 2) / 5 == 184;
      } else if m == 9 {
        assert (153 * 7 + 2) / 5 == 214;
      } else if m == 10 {
        assert (153 * 8 + 2) / 5 == 245;
      } else {
        assert (153 * 9 + 2) / 5 == 275;
      }
    }
  }

  /** Months in calendar order start on increasing days, each at least a
      whole month after the one before. */
  lemma {:induction false} MonthStartsIncrease(y1: int, m1: int, y2: int, m2: int)
    requires 1 <= m1 <= 12 && 1 <= m2 <= 12
    requires y1 < y2 || (y1 == y2 && m1 < m2)
    ensures DaysFromCivil(y1, m1, 1) + DaysInMonth(y1, m1) <= DaysFromCivil(y2, m2, 1)
    decreases (y2 - y1) * 12 + m2 - m1
  {
    var yp, mp := if m2 == 1 then y2 - 1 else y2, if m2 == 1 then 12 else m2 - 1;
    MonthLength(yp, mp);
    if (yp, mp) != (y1, m1) {
      MonthStartsIncrease(y1, m1, yp, mp);
    }
  }

  /** Day numbers follow the calendar: an earlier real date has a smaller
      day number. */
  lemma CalendarOrder(y1: int, m1: int, d1: int, y2: int, m2: int, d2: int)
    requires 1 <= m1 <= 12 && 1 <= d1 <= DaysInMonth(y1, m1)
    requires 1 <= m2 <= 12 && 1 <= d2 <= DaysInMonth(y2, m2)
    ensures DaysFromCivil(y1, m1, d1) < DaysFromCivil(y2, m2, d2) <==>
      (y1 < y2 || (y1 == y2 && (m1 < m2 || (m1 == m2 && d1 < d2))))
  {
    DayOffset(y1, m1, d1);
    DayOffset(y2, m2, d2);
    if y1 < y2 || (y1 == y2 && m1 < m2) {
      MonthStartsIncrease(y1, m1, y2, m2);
    } else if y2 < y1 || (y1 == y2 && m2 < m1) {
      MonthStartsIncrease(y2, m2, y1, m1);
    }
  }

  /** A day of a month lies that many days after the month's first. */
  lemma DayOffset(y: int, m: int, d: int)
    requires 1 <= m <= 12
    ensures DaysFromCivil(y, m, d) == DaysFromCivil(y, m, 1) + d - 1
  {
  }

  /** A "YYYY-MM-DD" string naming a real calendar date. */
  predicate IsoDate(s: string) {
    IsoShape(s) && 1 <= IsoParts(s).month <= 12 && 1 <= IsoParts(s).day <= DaysInMonth(IsoParts(s).year, IsoParts(s).month)
  }

  /** `new Date(s)` for the date-only text the server writes: the day it
      names, or `None` for an Invalid Date. */
  function DateOnly(s: string): (r: Option<int>)
    ensures r.Some? <==> IsoDate(s)
  {
    if IsoDate(s) then
      var c := IsoParts(s);
      Some(DaysFromCivil(c.year, c.month, c.day))
    else None
  }

  /** `isBeforeToday(s)`: the date's local midnight, rebuilt from its year,
      month and day, is before today's. An Invalid Date compares false. */
  function IsBeforeToday(s: string, today: int): bool {
    if IsoDate(s) then
      var c := IsoParts(s);
      LocalDay(c.year, c.month - 1, c.day) < today
    else false
  }

  /** For a date from the year 100 on, `isBeforeToday` is "strictly before
      today", and `parseLocalDate` reads the same day. */
  lemma IsBeforeTodayIsCalendarOrder(s: string, today: int)
    requires IsoDate(s) && IsoParts(s).year >= 100
    ensures IsBeforeToday(s, today) <==> DateOnly(s).value < today
    ensures ParseLocalDate(s) == DateOnly(s).value
  {
    var c := IsoParts(s);
    var day := LocalDay(c.year, c.month - 1, c.day);
    LocalDayIsCalendarDay(c.year, c.month, c.day);
    assert DateOnly(s).value == day;
    assert IsBeforeToday(s, today) == (day < today);
    ParseIsoParts(s, "");
    assert s + "" == s;
    assert LocalDateParts(s) == c;
  }

  // ---------------------------------------------------------------------
  // getNextUpcomingDeadline
  // ---------------------------------------------------------------------

  /** A round that survives both filters: it has a deadline and that
      deadline's local midnight is today or later. */
  predicate Upcoming(r: CRound, today: int) {
    r.deadline != "" && ParseLocalDate(r.deadline) >= today
  }

  /** The day `parseLocalDate` reads from a round's deadline. */
  function DeadlineDay(r: CRound): int {
    ParseLocalDate(r.deadline)
  }

  /** `getNextUpcomingDeadline(rs)`: the first ten characters of the
      earliest deadline that is today or later, or `None`. The sort is
      stable, so among rounds due the same day the first in list order
      gives the text. */
  function GetNextUpcomingDeadline(rs: seq<CRound>, today: int): (r: Option<string>)
    ensures r.None? <==> forall j :: 0 <= j < |rs| ==> !Upcoming(rs[j], today)
    ensures r.Some? ==> exists k ::
      && 0 <= k < |rs| && Upcoming(rs[k], today) && r.value == Prefix(rs[k].deadline, 10)
      && forall j :: 0 <= j < k && Upcoming(rs[j], today) ==> DeadlineDay(rs[j]) > DeadlineDay(rs[k])
    ensures r.Some? ==> ParseLocalDate(r.value) >= today
    ensures r.Some? ==> forall j :: 0 <= j < |rs| && Upcoming(rs[j], today) ==> ParseLocalDate(r.value) <= ParseLocalDate(rs[j].deadline)
  {
    match FirstMinimum(rs, r => Upcoming(r, today), DeadlineDay, |rs|)
    case None => None
    case Some(k) =>
      var d := rs[k].deadline;
      assert ParseLocalDate(Prefix(d, 10)) == ParseLocalDate(d) by {
        if |d| >= 10 {
          ParseFirstTenOnly(d, "");
          assert d + "" == d;
        }
      }
      Some(Prefix(d, 10))
  }

  /** A deadline on today itself counts as upcoming. */
  lemma DeadlineTodayIsUpcoming(rs: seq<CRound>, today: int, j: nat)
    requires j < |rs| && rs[j].deadline != "" && ParseLocalDate(rs[j].deadline) == today
    ensures GetNextUpcomingDeadline(rs, today).Some?
    ensures ParseLocalDate(GetNextUpcomingDeadline(rs, today).value) == today
  {
    assert Upcoming(rs[j], today);
  }
}
