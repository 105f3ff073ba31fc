/**
 * The proleptic Gregorian calendar of Python's datetime.date, reduced to what the contact
 * book uses: validity of a (year, month, day) triple, the day ordinal (date.toordinal),
 * the weekday, adding days (date + timedelta), date.replace(year=...), comparison, and the
 * "%d.%m.%Y" text form.
 */
module Calendar {
  import opened Outcomes
  import opened Text

  const MinYear: int := 1
  const MaxYear: int := 9999
  /** The ordinal of 31.12.9999, the last date Python can represent. */
  const MaxOrdinal: int := 3652059

  datatype Date = Date(year: int, month: int, day: int)

  predicate IsLeapYear(y: int) {
    y % 4 == 0 && (y % 100 != 0 || y % 400 == 0)
  }

  function DaysInMonth(y: int, m: int): (n: int)
    requires 1 <= m <= 12
    ensures 28 <= n <= 31
    ensures n == 29 <==> m == 2 && IsLeapYear(y)
  {
    if m == 2 then (if IsLeapYear(y) then 29 else 28)
    else if m == 4 || m == 6 || m == 9 || m == 11 then 30
    else 31
  }

  function DaysInYear(y: int): int {
    if IsLeapYear(y) then 366 else 365
  }

  /** A triple that datetime.date accepts. */
  predicate IsCalendarDate(d: Date) {
    && MinYear <= d.year <= MaxYear
    && 1 <= d.month <= 12
    && 1 <= d.day <= DaysInMonth(d.year, d.month)
  }

  type CalendarDate = d: Date | IsCalendarDate(d) witness Date(1, 1, 1)

  /** Days in the years 1 .. y-1. */
  function DaysBeforeYear(y: int): int
    requires y >= 1
  {
    var p := y - 1;
    p * 365 + p / 4 - p / 100 + p / 400
  }

  /** Days in the months 1 .. m-1 of year y. */
  function DaysBeforeMonth(y: int, m: int): int
    requires 1 <= m <= 12
  {
    var common :=
      if m == 1 then 0 else if m == 2 then 31 else if m == 3 then 59
      else if m == 4 then 90 else if m == 5 then 120 else if m == 6 then 151
      else if m == 7 then 181 else if m == 8 then 212 else if m == 9 then 243
      else if m == 10 then 273 else if m == 11 then 304 else 334;
    common + (if m > 2 && IsLeapYear(y) then 1 else 0)
  }

  /** date.toordinal(): 1.1.1 is day 1. */
  function DayNumber(d: CalendarDate): int {
    DaysBeforeYear(d.year) + DaysBeforeMonth(d.year, d.month) + d.day
  }

  /** date.weekday(): Monday is 0, Sunday is 6. */
  function Weekday(d: CalendarDate): (w: int)
    ensures 0 <= w < 7
  {
    (DayNumber(d) + 6) % 7
  }

  /** The date comparison `a < b`: lexicographic on (year, month, day). */
  predicate Before(a: Date, b: Date) {
    || a.year < b.year
    || (a.year == b.year && a.month < b.month)
    || (a.year == b.year && a.month == b.month && a.day < b.day)
  }

  lemma YearStep(y: int)
    requires y >= 1
    ensures DaysBeforeYear(y + 1) == DaysBeforeYear(y) + DaysInYear(y)
  {
    QuotientStep4(y - 1);
    QuotientStep100(y - 1);
    QuotientStep400(y - 1);
  }

  lemma QuotientStep4(p: int)
    ensures (p + 1) / 4 == p / 4 + (if (p + 1) % 4 == 0 then 1 else 0)
  {
  }

  lemma QuotientStep100(p: int)
    ensures (p + 1) / 100 == p / 100 + (if (p + 1) % 100 == 0 then 1 else 0)
  {
  }

  lemma QuotientStep400(p: int)
    ensures (p + 1) / 400 == p / 400 + (if (p + 1) % 400 == 0 then 1 else 0)
  {
  }

  lemma {:induction false} YearMonotone(y1: int, y2: int)
    requires 1 <= y1 <= y2
    ensures DaysBeforeYear(y1) + 365 * (y2 - y1) <= DaysBeforeYear(y2)
    decreases y2 - y1
  {
    if y1 < y2 {
      YearStep(y1);
      YearMonotone(y1 + 1, y2);
    }
  }

  lemma MonthStep(y: int, m: int)
    requires 1 <= m <= 12
    ensures DaysBeforeMonth(y, m) + DaysInMonth(y, m) == (if m == 12 then DaysInYear(y) else DaysBeforeMonth(y, m + 1))
  {
  }

  lemma {:induction false} MonthMonotone(y: int, m1: int, m2: int)
    requires 1 <= m1 < m2 <= 12
    ensures DaysBeforeMonth(y, m1) + DaysInMonth(y, m1) <= DaysBeforeMonth(y, m2)
    decreases m2 - m1
  {
    MonthStep(y, m1);
    if m1 + 1 < m2 {
      MonthMonotone(y, m1 + 1, m2);
    }
  }

  /** A date's ordinal lies inside its year's range of ordinals. */
  lemma DayNumberInYear(d: CalendarDate)
    ensures DaysBeforeYear(d.year) < DayNumber(d) <= DaysBeforeYear(d.year + 1)
  {
    YearStep(d.year);
    MonthStep(d.year, d.month);
    if d.month < 12 {
      MonthStep(d.year, 12);
      MonthMonotone(d.year, d.month, 12);
    }
  }

  /** Every date has an ordinal between 1 and MaxOrdinal. */
  lemma DayNumberRange(d: CalendarDate)
    ensures 1 <= DayNumber(d) <= MaxOrdinal
  {
    DayNumberInYear(d);
    YearMonotone(d.year + 1, MaxYear + 1);
  }

  /** Python's lexicographic date comparison is the order of the ordinals. */
  lemma BeforeIsOrdinalOrder(a: CalendarDate, b: CalendarDate)
    ensures Before(a, b) <==> DayNumber(a) < DayNumber(b)
  {
    if Before(a, b) {
      BeforeOrdinal(a, b);
    } else if a != b {
      BeforeOrdinal(b, a);
    }
  }

  lemma BeforeOrdinal(a: CalendarDate, b: CalendarDate)
    requires Before(a, b)
    ensures DayNumber(a) < DayNumber(b)
  {
    DayNumberInYear(a);
    DayNumberInYear(b);
    if a.year < b.year {
      YearMonotone(a.year + 1, b.year);
    } else if a.month < b.month {
      MonthMonotone(a.year, a.month, b.month);
    }
  }

  /** A later date is in the same or a later year. */
  lemma YearOrder(a: CalendarDate, b: CalendarDate)
    requires DayNumber(a) <= DayNumber(b)
    ensures a.year <= b.year
  {
    BeforeIsOrdinalOrder(b, a);
  }

  /** A date at most two days after another is in the same or the next year. */
  lemma YearWithinTwoDays(a: CalendarDate, b: CalendarDate)
    requires DayNumber(a) <= DayNumber(b) <= DayNumber(a) + 2
    ensures a.year <= b.year <= a.year + 1
  {
    YearOrder(a, b);
    DayNumberInYear(a);
    DayNumberInYear(b);
    YearStep(a.year + 1);
    if b.year > a.year + 1 {
      YearMonotone(a.year + 2, b.year);
    }
  }

  /** Distinct dates have distinct ordinals. */
  lemma DayNumberInjective(a: CalendarDate, b: CalendarDate)
    requires DayNumber(a) == DayNumber(b)
    ensures a == b
  {
    BeforeIsOrdinalOrder(a, b);
    BeforeIsOrdinalOrder(b, a);
  }

  /** The year among lo .. hi whose ordinals contain n, found by bisection. */
  function YearOfOrdinal(n: int, lo: int, hi: int): (r: int)
    requires MinYear <= lo <= hi && DaysBeforeYear(lo) < n <= DaysBeforeYear(hi + 1)
    ensures lo <= r <= hi && DaysBeforeYear(r) < n <= DaysBeforeYear(r + 1)
    decreases hi - lo
  {
    if lo == hi then lo
    else
      var mid := (lo + hi) / 2;
      if n <= DaysBeforeYear(mid + 1) then YearOfOrdinal(n, lo, mid) else YearOfOrdinal(n, mid + 1, hi)
  }

  /** The month of year y that holds its k-th day, searched upwards from m. */
  function MonthOfYearDay(y: int, k: int, m: int): (r: int)
    requires 1 <= m <= 12 && DaysBeforeMonth(y, m) < k <= DaysInYear(y)
    ensures m <= r <= 12 && DaysBeforeMonth(y, r) < k <= DaysBeforeMonth(y, r) + DaysInMonth(y, r)
    decreases 12 - m
  {
    MonthStep(y, m);
    if k <= DaysBeforeMonth(y, m) + DaysInMonth(y, m) then m else MonthOfYearDay(y, k, m + 1)
  }

  /** date.fromordinal(n): the inverse of DayNumber. */
  function FromDayNumber(n: int): (d: CalendarDate)
    requires 1 <= n <= MaxOrdinal
    ensures DayNumber(d) == n
  {
    var y := YearOfOrdinal(n, MinYear, MaxYear);
    YearStep(y);
    var k := n - DaysBeforeYear(y);
    var m := MonthOfYearDay(y, k, 1);
    Date(y, m, k - DaysBeforeMonth(y, m))
  }

  lemma FromDayNumberOfDayNumber(d: CalendarDate)
    ensures 1 <= DayNumber(d) <= MaxOrdinal && FromDayNumber(DayNumber(d)) == d
  {
    DayNumberRange(d);
    DayNumberInjective(FromDayNumber(DayNumber(d)), d);
  }

  /** date + timedelta(days=k), which raises OverflowError outside 1.1.1 .. 31.12.9999. */
  function AddDays(d: CalendarDate, k: int): (r: Result<CalendarDate>)
    ensures r.Ok? <==> 1 <= DayNumber(d) + k <= MaxOrdinal
    ensures r.Ok? ==> DayNumber(r.value) == DayNumber(d) + k
    ensures r.Err? ==> r.error == DateOverflow
  {
    var n := DayNumber(d) + k;
    if 1 <= n <= MaxOrdinal then Ok(FromDayNumber(n)) else Err(DateOverflow)
  }

  lemma OrdinalWeekday(n: int, k: int)
    ensures (n + k + 6) % 7 == ((n + 6) % 7 + k) % 7
  {
  }

  /** A date k days after another falls k steps further round the week. */
  lemma WeekdayAfter(a: CalendarDate, b: CalendarDate, k: int)
    requires DayNumber(b) == DayNumber(a) + k
    ensures Weekday(b) == (Weekday(a) + k) % 7
  {
    OrdinalWeekday(DayNumber(a), k);
  }

  /** The following day, date + timedelta(days=1), defined below the last representable date. */
  function NextDay(d: CalendarDate): (r: CalendarDate)
    requires DayNumber(d) < MaxOrdinal
    ensures DayNumber(r) == DayNumber(d) + 1
  {
    if d.day < DaysInMonth(d.year, d.month) then
      Date(d.year, d.month, d.day + 1)
    else if d.month < 12 then
      MonthStep(d.year, d.month);
      Date(d.year, d.month + 1, 1)
    else
      MonthStep(d.year, 12);
      YearStep(d.year);
      Date(d.year + 1, 1, 1)
  }

  /** date.replace(year=y): ValueError when the year is out of range or the day does not exist. */
  function Replace(d: CalendarDate, y: int): (r: Result<CalendarDate>)
    ensures r.Ok? <==> MinYear <= y <= MaxYear && d.day <= DaysInMonth(y, d.month)
    ensures r.Ok? ==> r.value == Date(y, d.month, d.day)
    ensures r.Err? ==> r.error == InvalidDate
  {
    var c := Date(y, d.month, d.day);
    if IsCalendarDate(c) then Ok(c) else Err(InvalidDate)
  }

  /** Inside the year range, replace fails only by moving 29 February into a common year. */
  lemma ReplaceFailsOnlyOnLeapDay(d: CalendarDate, y: int)
    requires MinYear <= y <= MaxYear
    ensures Replace(d, y).Err? <==> d.month == 2 && d.day == 29 && !IsLeapYear(y)
  {
  }

  function TwoDigits(n: int): (s: string)
    requires 0 <= n <= 99
    ensures |s| == 2
  {
    [DigitChar(n / 10), DigitChar(n % 10)]
  }

  function FourDigits(n: int): (s: string)
    requires 0 <= n <= 9999
    ensures |s| == 4
  {
    [DigitChar(n / 1000), DigitChar(n / 100 % 10), DigitChar(n / 10 % 10), DigitChar(n % 10)]
  }

  /** date.strftime("%d.%m.%Y"): day and month with two digits, year with four. */
  function DateToString(d: CalendarDate): (s: string)
    ensures |s| == 10 && s[2] == '.' && s[5] == '.'
  {
    TwoDigits(d.day) + "." + TwoDigits(d.month) + "." + FourDigits(d.year)
  }

  /** The number a string of digits writes in decimal. */
  function Number(s: string): (n: int)
    requires AllDigits(s)
    ensures n >= 0
  {
    if s == [] then 0 else Number(s[..|s| - 1]) * 10 + DigitValue(s[|s| - 1])
  }

  lemma NumberOfTwoDigits(n: int)
    requires 0 <= n <= 99
    ensures AllDigits(TwoDigits(n)) && Number(TwoDigits(n)) == n
  {
    var s := TwoDigits(n);
    NumberOfPair(s);
  }

  lemma NumberOfPair(s: string)
    requires |s| == 2 && AllDigits(s)
    ensures Number(s) == DigitValue(s[0]) * 10 + DigitValue(s[1])
  {
    assert s[..1][..0] == [];
    assert Number(s[..1]) == DigitValue(s[0]);
  }

  lemma NumberOfQuad(s: string)
    requires |s| == 4 && AllDigits(s)
    ensures Number(s) == DigitValue(s[0]) * 1000 + DigitValue(s[1]) * 100 + DigitValue(s[2]) * 10 + DigitValue(s[3])
  {
    NumberOfPair(s[..2]);
    assert s[..3][..2] == s[..2];
    assert Number(s[..3]) == Number(s[..2]) * 10 + DigitValue(s[2]);
  }

  lemma NumberOfFourDigits(n: int)
    requires 0 <= n <= 9999
    ensures AllDigits(FourDigits(n)) && Number(FourDigits(n)) == n
  {
    var s := FourDigits(n);
    NumberOfQuad(s);
    DecimalQuad(n);
  }

  lemma DecimalQuad(n: int)
    requires 0 <= n <= 9999
    ensures n == n / 1000 * 1000 + n / 100 % 10 * 100 + n / 10 % 10 * 10 + n % 10
  {
    var q := n / 10;
    assert n == q * 10 + n % 10;
    assert n / 100 == q / 10;
    assert n / 1000 == q / 100;
    assert q == q / 100 * 100 + q / 10 % 10 * 10 + q % 10;
  }

  lemma TwoDigitsOfNumber(s: string)
    requires |s| == 2 && AllDigits(s)
    ensures Number(s) <= 99 && TwoDigits(Number(s)) == s
  {
    NumberOfPair(s);
    DigitCharOfValue(s[0]);
    DigitCharOfValue(s[1]);
  }

  lemma FourDigitsOfNumber(s: string)
    requires |s| == 4 && AllDigits(s)
    ensures Number(s) <= 9999 && FourDigits(Number(s)) == s
  {
    NumberOfQuad(s);
    var a, b, c, e := DigitValue(s[0]), DigitValue(s[1]), DigitValue(s[2]), DigitValue(s[3]);
    QuadDigitsOfDecimal(a, b, c, e);
    DigitCharOfValue(s[0]);
    DigitCharOfValue(s[1]);
    DigitCharOfValue(s[2]);
    DigitCharOfValue(s[3]);
  }

  lemma QuadDigitsOfDecimal(a: int, b: int, c: int, e: int)
    requires 0 <= a <= 9 && 0 <= b <= 9 && 0 <= c <= 9 && 0 <= e <= 9
    ensures var n := a * 1000 + b * 100 + c * 10 + e;
            n / 1000 == a && n / 100 % 10 == b && n / 10 % 10 == c && n % 10 == e
  {
    var n := a * 1000 + b * 100 + c * 10 + e;
    var q := a * 100 + b * 10 + c;
    assert n == q * 10 + e;
    assert n / 10 == q && n % 10 == e;
    assert q == (a * 10 + b) * 10 + c;
    assert q / 10 == a * 10 + b && q % 10 == c;
    assert n / 100 == q / 10;
    assert n / 1000 == q / 100;
  }

  /** datetime.strptime(s, "%d.%m.%Y").date() for text in the canonical DD.MM.YYYY form. */
  function ParseDate(s: string): (r: Option<CalendarDate>)
    ensures r.Some? ==> |s| == 10 && s[2] == '.' && s[5] == '.'
  {
    if |s| == 10 && s[2] == '.' && s[5] == '.'
       && AllDigits(s[0..2]) && AllDigits(s[3..5]) && AllDigits(s[6..10])
    then
      var d := Date(Number(s[6..10]), Number(s[3..5]), Number(s[0..2]));
      if IsCalendarDate(d) then Some(d) else None
    else None
  }

  /** Formatting a date and parsing the text gives the date back. */
  lemma ParseDateToString(d: CalendarDate)
    ensures ParseDate(DateToString(d)) == Some(d)
  {
    var s := DateToString(d);
    assert s[0..2] == TwoDigits(d.day);
    assert s[3..5] == TwoDigits(d.month);
    assert s[6..10] == FourDigits(d.year);
    NumberOfTwoDigits(d.day);
    NumberOfTwoDigits(d.month);
    NumberOfFourDigits(d.year);
  }

  /** Text that parses is exactly the formatting of the date it parses to. */
  lemma DateToStringOfParse(s: string)
    requires ParseDate(s).Some?
    ensures DateToString(ParseDate(s).value) == s
  {
    TwoDigitsOfNumber(s[0..2]);
    TwoDigitsOfNumber(s[3..5]);
    FourDigitsOfNumber(s[6..10]);
    assert s == s[0..2] + "." + s[3..5] + "." + s[6..10];
  }
}
