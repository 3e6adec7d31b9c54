/** Calendar dates as both tiers see them. The back end holds `LocalDate`s and
    compares them field by field (`isBefore`, `isAfter`); the front end holds
    `yyyy-mm-dd` strings and compares `new Date(s)` values, that is epoch
    days. This module defines both views and proves they agree. */
module Dates {
  import opened Wrappers
  import opened Text

  /** A proleptic Gregorian date: the fields of `java.time.LocalDate`. */
  datatype Date = Date(year: int, month: int, day: int)

  predicate IsLeapYear(y: int) {
    y % 4 == 0 && (y % 100 != 0 || y % 400 == 0)
  }

  function DaysInMonth(y: int, m: int): (n: int)
    requires 1 <= m <= 12
    ensures 28 <= n <= 31
  {
    if m == 2 then (if IsLeapYear(y) then 29 else 28)
    else if m == 4 || m == 6 || m == 9 || m == 11 then 30
    else 31
  }

  function DaysInYear(y: int): int {
    if IsLeapYear(y) then 366 else 365
  }

  /** A real calendar day with a non-negative year. */
  predicate ValidDate(d: Date) {
    0 <= d.year && 1 <= d.month <= 12 && 1 <= d.day <= DaysInMonth(d.year, d.month)
  }

  type LocalDate = d: Date | ValidDate(d) witness Date(1970, 1, 1)

  // ---------------------------------------------------------------------------
  // LocalDate ordering
  // ---------------------------------------------------------------------------

  /** `a.isBefore(b)`: compares the year, then the month, then the day. */
  predicate IsBefore(a: Date, b: Date) {
    || a.year < b.year
    || (a.year == b.year && a.month < b.month)
    || (a.year == b.year && a.month == b.month && a.day < b.day)
  }

  /** `a.isAfter(b)`. */
  predicate IsAfter(a: Date, b: Date) {
    IsBefore(b, a)
  }

  // ---------------------------------------------------------------------------
  // Epoch days: what `new Date("yyyy-mm-dd")` measures
  // ---------------------------------------------------------------------------

  /** Days from 0000-01-01 to the first day of year `y`: 365 per year plus
      one per leap year in `[0, y)`. */
  function DaysBeforeYear(y: nat): nat {
    365 * y + (y + 3) / 4 - (y + 99) / 100 + (y + 399) / 400
  }

  /** Days from the first of January of `y` to the first day of month `m`. */
  function DaysBeforeMonth(y: int, m: int): nat
    requires 1 <= m <= 13
  {
    if m == 1 then 0 else DaysBeforeMonth(y, m - 1) + DaysInMonth(y, m - 1)
  }

  /** Days from 0000-01-01 to 1970-01-01. */
  const EpochOffset: int := 719528

  /** Days since 1970-01-01 (negative before it). */
  function EpochDay(d: LocalDate): int {
    DaysBeforeYear(d.year) + DaysBeforeMonth(d.year, d.month) + d.day - 1 - EpochOffset
  }

  lemma EpochDayOfEpoch()
    ensures EpochDay(Date(1970, 1, 1)) == 0
  {
  }

  /** Moving one year on adds one to the count of multiples of 4 below it
      exactly when the year passed was one; likewise for 100 and 400. */
  lemma StepFour(y: nat)
    ensures (y + 4) / 4 == (y + 3) / 4 + (if y % 4 == 0 then 1 else 0)
  {
  }

  lemma StepHundred(y: nat)
    ensures (y + 100) / 100 == (y + 99) / 100 + (if y % 100 == 0 then 1 else 0)
  {
  }

  lemma StepFourHundred(y: nat)
    ensures (y + 400) / 400 == (y + 399) / 400 + (if y % 400 == 0 then 1 else 0)
  {
  }

  lemma DaysBeforeNextYear(y: nat)
    ensures DaysBeforeYear(y + 1) == DaysBeforeYear(y) + DaysInYear(y)
  {
    var f, h, t := (y + 3) / 4, (y + 99) / 100, (y + 399) / 400;
    assert DaysBeforeYear(y) == 365 * y + f - h + t;
    StepFour(y);
    StepHundred(y);
    StepFourHundred(y);
    var f', h', t' := f + (if y % 4 == 0 then 1 else 0), h + (if y % 100 == 0 then 1 else 0), t + (if y % 400 == 0 then 1 else 0);
    assert DaysBeforeYear(y + 1) == 365 * y + 365 + f' - h' + t';
    if y % 100 == 0 {
      HundredsAreFours(y);
    }
    if y % 400 == 0 {
      FourHundredsAreHundreds(y);
    }
  }

  lemma HundredsAreFours(y: nat)
    requires y % 100 == 0
    ensures y % 4 == 0
  {
    var q := y / 100;
    assert y == 100 * q;
    assert y / 4 == 25 * q;
  }

  lemma FourHundredsAreHundreds(y: nat)
    requires y % 400 == 0
    ensures y % 100 == 0
  {
    var q := y / 400;
    assert y == 400 * q;
    assert y / 100 == 4 * q;
  }

  lemma {:induction false} YearsApart(y1: nat, y2: nat)
    requires y1 < y2
    ensures DaysBeforeYear(y1) + DaysInYear(y1) <= DaysBeforeYear(y2)
    decreases y2 - y1
  {
    DaysBeforeNextYear(y1);
    if y1 + 1 < y2 {
      YearsApart(y1 + 1, y2);
    }
  }

  lemma FullYear(y: int)
    ensures DaysBeforeMonth(y, 13) == DaysInYear(y)
  {
    var feb := DaysInMonth(y, 2);
    assert DaysBeforeMonth(y, 2) == 31;
    assert DaysBeforeMonth(y, 3) == 31 + feb;
    assert DaysBeforeMonth(y, 4) == 62 + feb;
    assert DaysBeforeMonth(y, 5) == 92 + feb;
    assert DaysBeforeMonth(y, 6) == 123 + feb;
    assert DaysBeforeMonth(y, 7) == 153 + feb;
    assert DaysBeforeMonth(y, 8) == 184 + feb;
    assert DaysBeforeMonth(y, 9) == 215 + feb;
    assert DaysBeforeMonth(y, 10) == 245 + feb;
    assert DaysBeforeMonth(y, 11) == 276 + feb;
    assert DaysBeforeMonth(y, 12) == 306 + feb;
  }

  lemma {:induction false} MonthsApart(y: int, m1: int, m2: int)
    requires 1 <= m1 < m2 <= 13
    ensures DaysBeforeMonth(y, m1) + DaysInMonth(y, m1) <= DaysBeforeMonth(y, m2)
    decreases m2 - m1
  {
    if m1 + 1 < m2 {
      MonthsApart(y, m1 + 1, m2);
    }
  }

  /** The day of the year, counted from 0, stays inside the year. */
  lemma DayOfYearBound(d: LocalDate)
    ensures DaysBeforeMonth(d.year, d.month) + d.day - 1 < DaysInYear(d.year)
  {
    FullYear(d.year);
    if d.month < 12 {
      MonthsApart(d.year, d.month, 13);
    }
  }

  lemma EpochDayBeforeMonotone(a: LocalDate, b: LocalDate)
    requires IsBefore(a, b)
    ensures EpochDay(a) < EpochDay(b)
  {
    if a.year < b.year {
      DayOfYearBound(a);
      YearsApart(a.year, b.year);
    } else if a.month < b.month {
      MonthsApart(a.year, a.month, b.month);
    }
  }

  /** Comparing epoch days is comparing `LocalDate`s: the front end's
      `new Date(a) < new Date(b)` and the back end's `a.isBefore(b)` agree. */
  lemma EpochDayOrder(a: LocalDate, b: LocalDate)
    ensures EpochDay(a) < EpochDay(b) <==> IsBefore(a, b)
    ensures EpochDay(a) == EpochDay(b) <==> a == b
  {
    if IsBefore(a, b) {
      EpochDayBeforeMonotone(a, b);
    } else if IsBefore(b, a) {
      EpochDayBeforeMonotone(b, a);
    }
  }

  // ---------------------------------------------------------------------------
  // Calendar arithmetic: `date.setDate(date.getDate() + n)`
  // ---------------------------------------------------------------------------

  /** The following calendar day, rolling over the month and the year. */
  function NextDay(d: LocalDate): (r: LocalDate)
    ensures EpochDay(r) == EpochDay(d) + 1
  {
    if d.day < DaysInMonth(d.year, d.month) then
      Date(d.year, d.month, d.day + 1)
    else if d.month < 12 then
      Date(d.year, d.month + 1, 1)
    else
      FullYear(d.year);
      DaysBeforeNextYear(d.year);
      Date(d.year + 1, 1, 1)
  }

  /** The date `n` days after `d`. */
  function PlusDays(d: LocalDate, n: nat): (r: LocalDate)
    ensures EpochDay(r) == EpochDay(d) + n
    decreases n
  {
    if n == 0 then d else PlusDays(NextDay(d), n - 1)
  }

  // ---------------------------------------------------------------------------
  // ISO-8601 text: `yyyy-mm-dd`
  // ---------------------------------------------------------------------------

  /** The value of two digit characters. */
  lemma TwoDigits(s: string)
    requires |s| == 2 && AllDigits(s)
    ensures DigitsValue(s) == (s[0] as int - '0' as int) * 10 + (s[1] as int - '0' as int)
  {
    var head := s[..1];
    assert head[..0] == [] && head[0] == s[0];
    assert DigitsValue(head) == s[0] as int - '0' as int;
  }

  /** The value of four digit characters is the value of its two halves. */
  lemma FourDigits(s: string)
    requires |s| == 4 && AllDigits(s)
    ensures DigitsValue(s) == DigitsValue(s[..2]) * 100 + DigitsValue(s[2..])
  {
    assert s[..3][..2] == s[..2];
    TwoDigits(s[..2]);
    TwoDigits(s[2..]);
  }

  function Pad2(n: int): (s: string)
    requires 0 <= n < 100
    ensures |s| == 2 && AllDigits(s) && DigitsValue(s) == n
  {
    var s := [DigitChar(n / 10), DigitChar(n % 10)];
    TwoDigits(s);
    s
  }

  function Pad4(n: int): (s: string)
    requires 0 <= n < 10000
    ensures |s| == 4 && AllDigits(s) && DigitsValue(s) == n
  {
    var s := Pad2(n / 100) + Pad2(n % 100);
    FourDigits(s);
    assert s[..2] == Pad2(n / 100) && s[2..] == Pad2(n % 100);
    s
  }

  lemma Pad2OfValue(s: string)
    requires |s| == 2 && AllDigits(s)
    ensures DigitsValue(s) < 100 && Pad2(DigitsValue(s)) == s
  {
    TwoDigits(s);
  }

  lemma Pad4OfValue(s: string)
    requires |s| == 4 && AllDigits(s)
    ensures DigitsValue(s) < 10000 && Pad4(DigitsValue(s)) == s
  {
    var hi, lo := DigitsValue(s[..2]), DigitsValue(s[2..]);
    FourDigits(s);
    Pad2OfValue(s[..2]);
    Pad2OfValue(s[2..]);
    HundredsSplit(hi, lo);
    calc {
      Pad4(DigitsValue(s));
      Pad4(hi * 100 + lo);
      Pad2(hi) + Pad2(lo);
      s[..2] + s[2..];
      s;
    }
  }

  /** Dividing `hi * 100 + lo` by 100 gives back `hi` and `lo`. */
  lemma HundredsSplit(hi: int, lo: int)
    requires 0 <= hi < 100 && 0 <= lo < 100
    ensures (hi * 100 + lo) / 100 == hi && (hi * 100 + lo) % 100 == lo
  {
  }

  /** A date with a four-digit year as `yyyy-mm-dd`: Jackson's rendering of a
      `LocalDate` and the value of an `<input type="date">`. */
  function FormatIso(d: LocalDate): (s: string)
    requires d.year < 10000
    ensures |s| == 10 && s[4] == '-' && s[7] == '-'
  {
    Pad4(d.year) + "-" + Pad2(d.month) + "-" + Pad2(d.day)
  }

  /** Reads `yyyy-mm-dd` into a date, rejecting any other shape and any day
      that is not on the calendar. */
  function ParseIso(s: string): (r: Option<LocalDate>)
    ensures r.Some? ==> r.value.year < 10000 && FormatIso(r.value) == s
  {
    if |s| == 10 && s[4] == '-' && s[7] == '-'
       && AllDigits(s[..4]) && AllDigits(s[5..7]) && AllDigits(s[8..]) then
      var d := Date(DigitsValue(s[..4]), DigitsValue(s[5..7]), DigitsValue(s[8..]));
      if ValidDate(d) then
        Pad4OfValue(s[..4]);
        Pad2OfValue(s[5..7]);
        Pad2OfValue(s[8..]);
        assert s == s[..4] + "-" + s[5..7] + "-" + s[8..];
        Some(d)
      else None
    else None
  }

  /** Formatting then parsing gives the date back. */
  lemma ParseFormatRoundTrip(d: LocalDate)
    requires d.year < 10000
    ensures ParseIso(FormatIso(d)) == Some(d)
  {
    var s := FormatIso(d);
    assert s[..4] == Pad4(d.year);
    assert s[5..7] == Pad2(d.month);
    assert s[8..] == Pad2(d.day);
  }

  /** `new Date(s)` for a date-only string, in days: the epoch day of the
      date it names, or `None` for an unparseable string (`NaN`). */
  function JsDateValue(s: string): (v: Option<int>)
    ensures v.Some? <==> ParseIso(s).Some?
    ensures v.Some? ==> v.value == EpochDay(ParseIso(s).value)
  {
    match ParseIso(s)
    case Some(d) => Some(EpochDay(d))
    case None => None
  }
}
