/** Civil dates, their day numbers, Go's normalising AddDate, and the
    full-date text form (section 5.6 of RFC 3339). */
module Calendar {
  import opened Domain

  datatype Date = Date(year: int, month: int, day: int)

  predicate Leap(year: int) {
    year % 4 == 0 && (year % 100 != 0 || year % 400 == 0)
  }

  function DaysIn(year: int, month: int): int
    requires 1 <= month <= 12
  {
    if month == 2 then (if Leap(year) then 29 else 28)
    else if month == 4 || month == 6 || month == 9 || month == 11 then 30
    else 31
  }

  predicate ValidDate(d: Date) {
    0 <= d.year && 1 <= d.month <= 12 && 1 <= d.day <= DaysIn(d.year, d.month)
  }

  type CalendarDate = d: Date | ValidDate(d) witness Date(1970, 1, 1)

  function DaysBeforeYear(year: int): int {
    365 * year + (year + 3) / 4 - (year + 99) / 100 + (year + 399) / 400
  }

  function YearLength(year: int): int {
    if Leap(year) then 366 else 365
  }

  function DaysBeforeMonth(year: int, month: int): int
    requires 1 <= month <= 12
    decreases month
  {
    if month == 1 then 0 else DaysBeforeMonth(year, month - 1) + DaysIn(year, month - 1)
  }

  /** Days from 0000-01-01 to 1970-01-01. */
  const EPOCH := 719528

  /** Days since 1970-01-01. */
  function DayNumber(d: CalendarDate): int {
    DaysBeforeYear(d.year) + DaysBeforeMonth(d.year, d.month) + d.day - 1 - EPOCH
  }

  lemma EpochIsDayZero()
    ensures DayNumber(Date(1970, 1, 1)) == 0
    ensures DayNumber(Date(0, 1, 1)) == -EPOCH
  {
    assert DaysBeforeYear(1970) == EPOCH;
  }

  lemma MultiplesOf4(n: int)
    ensures (n + 4) / 4 == (n + 3) / 4 + (if n % 4 == 0 then 1 else 0)
  {
  }

  lemma MultiplesOf100(n: int)
    ensures (n + 100) / 100 == (n + 99) / 100 + (if n % 100 == 0 then 1 else 0)
    ensures n % 100 == 0 ==> n % 4 == 0
  {
    var q, r := n / 100, n % 100;
    assert n == 100 * q + r;
    assert (n + 100) / 100 == q + 1;
    assert r == 0 ==> n == 4 * (25 * q);
  }

  lemma MultiplesOf400(n: int)
    ensures (n + 400) / 400 == (n + 399) / 400 + (if n % 400 == 0 then 1 else 0)
    ensures n % 400 == 0 ==> n % 100 == 0
  {
    var q, r := n / 400, n % 400;
    assert n == 400 * q + r;
    assert (n + 400) / 400 == q + 1;
    assert r == 0 ==> n == 100 * (4 * q);
  }

  lemma YearsAbut(year: int)
    requires 0 <= year
    ensures DaysBeforeYear(year + 1) == DaysBeforeYear(year) + YearLength(year)
  {
    MultiplesOf4(year);
    MultiplesOf100(year);
    MultiplesOf400(year);
  }

  lemma MonthTable(year: int)
    ensures var leapDay := if Leap(year) then 1 else 0;
            && DaysBeforeMonth(year, 1) == 0
            && DaysBeforeMonth(year, 2) == 31
            && DaysBeforeMonth(year, 3) == 59 + leapDay
            && DaysBeforeMonth(year, 4) == 90 + leapDay
            && DaysBeforeMonth(year, 5) == 120 + leapDay
            && DaysBeforeMonth(year, 6) == 151 + leapDay
            && DaysBeforeMonth(year, 7) == 181 + leapDay
            && DaysBeforeMonth(year, 8) == 212 + leapDay
            && DaysBeforeMonth(year, 9) == 243 + leapDay
            && DaysBeforeMonth(year, 10) == 273 + leapDay
            && DaysBeforeMonth(year, 11) == 304 + leapDay
            && DaysBeforeMonth(year, 12) == 334 + leapDay
  {
    assert DaysBeforeMonth(year, 3) == DaysBeforeMonth(year, 2) + DaysIn(year, 2);
    assert DaysBeforeMonth(year, 6) == DaysBeforeMonth(year, 5) + DaysIn(year, 5);
    assert DaysBeforeMonth(year, 9) == DaysBeforeMonth(year, 8) + DaysIn(year, 8);
  }

  /** The next day of the calendar. */
  function NextDay(d: CalendarDate): CalendarDate {
    if d.day < DaysIn(d.year, d.month) then Date(d.year, d.month, d.day + 1)
    else if d.month < 12 then Date(d.year, d.month + 1, 1)
    else Date(d.year + 1, 1, 1)
  }

  lemma NextDayNumber(d: CalendarDate)
    ensures DayNumber(NextDay(d)) == DayNumber(d) + 1
  {
    YearsAbut(d.year);
    MonthTable(d.year);
  }

  /** The civil date of a day number, counted up from 0000-01-01. */
  function CivilOf(n: int): (d: CalendarDate)
    requires -EPOCH <= n
    ensures DayNumber(d) == n
    decreases n + EPOCH
  {
    if n == -EPOCH then
      EpochIsDayZero();
      Date(0, 1, 1)
    else
      NextDayNumber(CivilOf(n - 1));
      NextDay(CivilOf(n - 1))
  }

  /** The order of dates as written: year, then month, then day. */
  predicate Earlier(a: Date, b: Date) {
    a.year < b.year || (a.year == b.year && (a.month < b.month || (a.month == b.month && a.day < b.day)))
  }

  lemma {:induction false} YearsGrow(a: int, b: int)
    requires 0 <= a < b
    ensures DaysBeforeYear(a) + YearLength(a) <= DaysBeforeYear(b)
    decreases b - a
  {
    YearsAbut(a);
    if a + 1 == b {
    } else {
      YearsGrow(a + 1, b);
    }
  }

  lemma {:induction false} MonthsGrow(year: int, a: int, b: int)
    requires 1 <= a < b <= 12
    ensures DaysBeforeMonth(year, a) + DaysIn(year, a) <= DaysBeforeMonth(year, b)
    decreases b
  {
    if a + 1 == b {
    } else {
      MonthsGrow(year, a, b - 1);
    }
  }

  lemma DayWithinYear(d: CalendarDate)
    ensures 0 <= DaysBeforeMonth(d.year, d.month) + d.day - 1 < YearLength(d.year)
  {
    MonthTable(d.year);
  }

  /** Day numbers order dates as the calendar does. */
  lemma EarlierMeansSmaller(a: CalendarDate, b: CalendarDate)
    ensures Earlier(a, b) <==> DayNumber(a) < DayNumber(b)
  {
    if Earlier(a, b) {
      EarlierIsSmaller(a, b);
    } else if a != b {
      EarlierIsSmaller(b, a);
    }
  }

  lemma EarlierIsSmaller(a: CalendarDate, b: CalendarDate)
    requires Earlier(a, b)
    ensures DayNumber(a) < DayNumber(b)
  {
    DayWithinYear(a);
    DayWithinYear(b);
    if a.year < b.year {
      YearsGrow(a.year, b.year);
    } else if a.month < b.month {
      MonthsGrow(a.year, a.month, b.month);
    }
  }

  /** Dates and day numbers are in bijection, across leap years and centuries. */
  lemma DayNumberBijection(d: CalendarDate)
    ensures DayNumber(d) >= -EPOCH && CivilOf(DayNumber(d)) == d
    ensures forall e: CalendarDate :: DayNumber(e) == DayNumber(d) ==> e == d
  {
    EpochIsDayZero();
    EarlierMeansSmaller(d, Date(0, 1, 1));
    forall e: CalendarDate | DayNumber(e) == DayNumber(d) ensures e == d {
      EarlierMeansSmaller(d, e);
      EarlierMeansSmaller(e, d);
    }
  }

  // ----- AddDate

  /** The first of the month `months` months after `d`'s month, `years` years on. */
  function ShiftedMonth(d: CalendarDate, years: int, months: int): Date {
    var m := d.month - 1 + months;
    Date(d.year + years + m / 12, m % 12 + 1, 1)
  }

  predicate CanAddDate(d: CalendarDate, years: int, months: int, days: int) {
    && 0 <= ShiftedMonth(d, years, months).year
    && -EPOCH <= DayNumber(ShiftedMonth(d, years, months)) + d.day - 1 + days
  }

  /** Add years, months and days, then normalise: months carry into years, and
      days past the end of the month run on into the following months. */
  function AddDate(d: CalendarDate, years: int, months: int, days: int): CalendarDate
    requires CanAddDate(d, years, months, days)
  {
    CivilOf(DayNumber(ShiftedMonth(d, years, months)) + d.day - 1 + days)
  }

  lemma MonthStartsLate(d: CalendarDate)
    ensures DayNumber(d) == DayNumber(Date(d.year, d.month, 1)) + d.day - 1
    ensures -EPOCH <= DayNumber(d)
  {
    DayNumberBijection(d);
  }

  lemma AddOneDay(d: CalendarDate)
    ensures CanAddDate(d, 0, 0, 1)
    ensures DayNumber(AddDate(d, 0, 0, 1)) == DayNumber(d) + 1
    ensures AddDate(d, 0, 0, 1) == NextDay(d)
  {
    MonthStartsLate(d);
    assert ShiftedMonth(d, 0, 0) == Date(d.year, d.month, 1);
    NextDayNumber(d);
    DayNumberBijection(NextDay(d));
  }

  /** Twelve months on: the same day of the next year, except that 29 February
      runs on into 1 March. */
  function NextYear(d: CalendarDate): CalendarDate {
    if d.month == 2 && d.day == 29 then Date(d.year + 1, 3, 1) else Date(d.year + 1, d.month, d.day)
  }

  /** Whether a 29 February lies after `d` and no later than `NextYear(d)`. */
  predicate LeapDayAhead(d: CalendarDate) {
    if d.month <= 2 then Leap(d.year) else Leap(d.year + 1)
  }

  /** From March on a month starts a day later in a leap year. */
  lemma MonthShift(year: int, month: int)
    requires 1 <= month <= 12
    ensures DaysBeforeMonth(year + 1, month) - DaysBeforeMonth(year, month) ==
              if month <= 2 then 0 else YearLength(year + 1) - YearLength(year)
  {
    MonthTable(year);
    MonthTable(year + 1);
  }

  lemma LeapDayNumber(d: CalendarDate)
    requires d.month == 2 && d.day == 29
    ensures DayNumber(Date(d.year + 1, 3, 1)) == DayNumber(d) + 366
  {
    YearsAbut(d.year);
    MonthTable(d.year);
    MonthTable(d.year + 1);
  }

  lemma NextYearNumber(d: CalendarDate)
    ensures DayNumber(NextYear(d)) == DayNumber(d) + (if LeapDayAhead(d) then 366 else 365)
  {
    if d.month == 2 && d.day == 29 {
      LeapDayNumber(d);
    } else {
      YearsAbut(d.year);
      MonthShift(d.year, d.month);
    }
  }

  /** `d.AddDate(0, 12, 0)` is the next year's day, 365 or 366 days later, and
      366 exactly when a leap day lies ahead. */
  lemma AddTwelveMonths(d: CalendarDate)
    ensures CanAddDate(d, 0, 12, 0)
    ensures AddDate(d, 0, 12, 0) == NextYear(d)
    ensures DayNumber(AddDate(d, 0, 12, 0)) - DayNumber(d) == if LeapDayAhead(d) then 366 else 365
  {
    var first: CalendarDate := Date(d.year, d.month, 1);
    assert ShiftedMonth(d, 0, 12) == Date(d.year + 1, d.month, 1) == NextYear(first);
    MonthStartsLate(d);
    NextYearNumber(d);
    NextYearNumber(first);
    assert LeapDayAhead(first) == LeapDayAhead(d);
    DayNumberBijection(NextYear(d));
  }

  /** Adding twelve months never reverses two dates. */
  lemma AddTwelveMonthsMonotone(a: CalendarDate, b: CalendarDate)
    requires DayNumber(a) <= DayNumber(b)
    ensures CanAddDate(a, 0, 12, 0) && CanAddDate(b, 0, 12, 0)
    ensures DayNumber(AddDate(a, 0, 12, 0)) <= DayNumber(AddDate(b, 0, 12, 0))
  {
    AddTwelveMonths(a);
    AddTwelveMonths(b);
    EarlierMeansSmaller(b, a);
    EarlierMeansSmaller(NextYear(b), NextYear(a));
  }

  // ----- text

  predicate IsDigit(c: char) { '0' <= c <= '9' }

  function DigitOf(n: int): (c: char)
    requires 0 <= n < 10
    ensures IsDigit(c) && DigitValue(c) == n
  {
    ('0' as int + n) as char
  }

  function DigitValue(c: char): int { c as int - '0' as int }

  predicate AllDigits(s: string) { forall i | 0 <= i < |s| :: IsDigit(s[i]) }

  function NumberOf(s: string): (n: int)
    requires AllDigits(s)
    ensures 0 <= n
  {
    if s == "" then 0 else 10 * NumberOf(s[..|s| - 1]) + DigitValue(s[|s| - 1])
  }

  /** The last `width` decimal digits of `n`. */
  function FixedDigits(n: nat, width: nat): (s: string)
    ensures |s| == width && AllDigits(s)
  {
    if width == 0 then "" else FixedDigits(n / 10, width - 1) + [DigitOf(n % 10)]
  }

  function DigitCount(n: nat): nat { if n < 10 then 1 else 1 + DigitCount(n / 10) }

  function PowerOfTen(k: nat): (p: nat)
    ensures p >= 1
  { if k == 0 then 1 else 10 * PowerOfTen(k - 1) }

  lemma {:induction false} FixedDigitsValue(n: nat, width: nat)
    requires n < PowerOfTen(width)
    ensures NumberOf(FixedDigits(n, width)) == n
    decreases width
  {
    if width == 0 {
    } else {
      FixedDigitsValue(n / 10, width - 1);
      var s := FixedDigits(n, width);
      assert s[..|s| - 1] == FixedDigits(n / 10, width - 1);
    }
  }

  lemma {:induction false} DigitsOfNumber(s: string)
    requires AllDigits(s)
    ensures FixedDigits(NumberOf(s), |s|) == s
    decreases |s|
  {
    if s == "" {
    } else {
      DigitsOfNumber(s[..|s| - 1]);
    }
  }

  lemma {:induction false} DigitCountSuffices(n: nat)
    ensures n < PowerOfTen(DigitCount(n))
    decreases n
  {
    if n < 10 {
    } else {
      DigitCountSuffices(n / 10);
    }
  }

  /** At least four digits, as Go's `2006` writes a year. */
  function YearText(year: nat): string {
    FixedDigits(year, if DigitCount(year) < 4 then 4 else DigitCount(year))
  }

  function FormatDate(d: CalendarDate): string {
    YearText(d.year) + "-" + FixedDigits(d.month, 2) + "-" + FixedDigits(d.day, 2)
  }

  /** A date whose year may have any number of digits from four upwards. */
  function ReadDate(s: string): Option<CalendarDate> {
    var n := |s|;
    if n < 10 || s[n - 6] != '-' || s[n - 3] != '-' then None
    else if !AllDigits(s[..n - 6]) || !AllDigits(s[n - 5..n - 3]) || !AllDigits(s[n - 2..]) then None
    else
      var d := Date(NumberOf(s[..n - 6]), NumberOf(s[n - 5..n - 3]), NumberOf(s[n - 2..]));
      if ValidDate(d) then Some(d) else None
  }

  /** The cast of a date text by PostgreSQL, whose calendar has no year 0. */
  function SqlDate(s: string): Option<CalendarDate> {
    if ReadDate(s).Some? && ReadDate(s).value.year >= 1 then ReadDate(s) else None
  }

  /** Go's `time.Parse("2006-01-02", s)`: the year has exactly four digits. */
  function ParseDate(s: string): Option<CalendarDate> {
    if |s| == 10 then ReadDate(s) else None
  }

  lemma YearTextValue(year: nat)
    ensures |YearText(year)| >= 4 && AllDigits(YearText(year)) && NumberOf(YearText(year)) == year
    ensures |YearText(year)| == 4 <==> year < 10000
  {
    DigitCountSuffices(year);
    assert PowerOfTen(4) == 10000 by { assert PowerOfTen(2) == 100; }
    DigitCountIsFour(year);
    FixedDigitsValue(year, |YearText(year)|);
  }

  lemma DigitCountIsFour(n: nat)
    ensures DigitCount(n) <= 4 <==> n < 10000
  {
    if n >= 1000 {
      assert DigitCount(n) == 1 + DigitCount(n / 10);
      assert DigitCount(n / 10) == 1 + DigitCount(n / 10 / 10);
      assert DigitCount(n / 10 / 10) == 1 + DigitCount(n / 10 / 10 / 10);
    } else if n >= 10 {
      assert DigitCount(n) == 1 + DigitCount(n / 10);
    }
  }

  /** Reading back a formatted date gives the date. */
  lemma ReadOfFormat(d: CalendarDate)
    ensures ReadDate(FormatDate(d)) == Some(d)
    ensures |FormatDate(d)| == 10 <==> d.year < 10000
  {
    var s := FormatDate(d);
    var n := |s|;
    YearTextValue(d.year);
    assert PowerOfTen(2) == 100;
    FixedDigitsValue(d.month, 2);
    FixedDigitsValue(d.day, 2);
    assert s[..n - 6] == YearText(d.year);
    assert s[n - 5..n - 3] == FixedDigits(d.month, 2);
    assert s[n - 2..] == FixedDigits(d.day, 2);
  }

  /** What the query makes of a formatted date: the date, except in year 0. */
  lemma SqlDateOfFormat(d: CalendarDate)
    ensures SqlDate(FormatDate(d)) == if d.year >= 1 then Some(d) else None
  {
    ReadOfFormat(d);
  }

  /** An accepted date text is what formatting its date writes. */
  lemma FormatOfParse(s: string)
    requires ParseDate(s).Some?
    ensures FormatDate(ParseDate(s).value) == s
    ensures ParseDate(s).value.year < 10000
  {
    var d := ParseDate(s).value;
    DigitsOfNumber(s[..4]);
    DigitsOfNumber(s[5..7]);
    DigitsOfNumber(s[8..]);
    FourDigits(s[..4]);
    DigitCountIsFour(d.year);
    assert s == s[..4] + "-" + s[5..7] + "-" + s[8..];
  }

  lemma FourDigits(s: string)
    requires |s| == 4 && AllDigits(s)
    ensures NumberOf(s) < 10000
  {
    assert s[..3][..2] == s[..2] && s[..2][..1] == s[..1] && s[..1][..0] == "";
    assert NumberOf(s[..1]) == DigitValue(s[0]);
    assert NumberOf(s[..2]) == 10 * NumberOf(s[..1]) + DigitValue(s[1]);
    assert NumberOf(s[..3]) == 10 * NumberOf(s[..2]) + DigitValue(s[2]);
  }
}
