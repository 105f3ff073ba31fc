/**
 * The upcoming-birthday rules of AddressBook: the weekend shift, the next-weekday helper,
 * and the per-contact congratulation date as the Python code computes it, with the
 * intended computation beside it.
 */
module Birthdays {
  import opened Outcomes
  import opened Calendar

  predicate IsWeekend(d: CalendarDate) {
    Weekday(d) >= 5
  }

  /** A Saturday or Sunday is never one of the last two representable days. */
  lemma WeekendHasRoom(d: CalendarDate)
    requires IsWeekend(d)
    ensures DayNumber(d) + 2 <= MaxOrdinal
  {
    DayNumberRange(d);
  }

  /** adjust_for_weekday: Saturday moves on two days, Sunday one, every other day stays. */
  function AdjustForWeekday(d: CalendarDate): (r: CalendarDate)
    ensures !IsWeekend(d) ==> r == d
    ensures Weekday(d) == 5 ==> DayNumber(r) == DayNumber(d) + 2
    ensures Weekday(d) == 6 ==> DayNumber(r) == DayNumber(d) + 1
    ensures !IsWeekend(r)
  {
    if Weekday(d) == 5 then
      WeekendHasRoom(d);
      var r := NextDay(NextDay(d));
      WeekdayAfter(d, r, 2);
      r
    else if Weekday(d) == 6 then
      WeekendHasRoom(d);
      var r := NextDay(d);
      WeekdayAfter(d, r, 1);
      r
    else d
  }

  /** The shifted date is the first weekday on or after the date: every day skipped is a weekend day. */
  lemma AdjustIsFirstWeekday(d: CalendarDate)
    ensures forall c: CalendarDate :: DayNumber(d) <= DayNumber(c) < DayNumber(AdjustForWeekday(d)) ==> IsWeekend(c)
  {
    forall c: CalendarDate | DayNumber(d) <= DayNumber(c) < DayNumber(AdjustForWeekday(d))
      ensures IsWeekend(c)
    {
      SkippedDayIsWeekend(d, c);
    }
  }

  lemma SkippedDayIsWeekend(d: CalendarDate, c: CalendarDate)
    requires DayNumber(d) <= DayNumber(c) < DayNumber(AdjustForWeekday(d))
    ensures IsWeekend(c)
  {
    assert IsWeekend(d);
    var k := DayNumber(c) - DayNumber(d);
    assert 0 <= k <= 6 - Weekday(d);
    WeekdayAfter(d, c, k);
    WeekendStaysWeekend(Weekday(d), k);
  }

  lemma WeekendStaysWeekend(w: int, k: int)
    requires 5 <= w <= 6 && 0 <= k <= 6 - w
    ensures (w + k) % 7 >= 5
  {
  }

  /** Shifting a second time changes nothing. */
  lemma AdjustIdempotent(d: CalendarDate)
    ensures AdjustForWeekday(AdjustForWeekday(d)) == AdjustForWeekday(d)
  {
  }

  /** Names the shifted date: used to evaluate the shift on particular dates. */
  lemma AdjustedIs(d: CalendarDate, e: CalendarDate)
    requires || (!IsWeekend(d) && e == d)
             || (Weekday(d) == 5 && DayNumber(e) == DayNumber(d) + 2)
             || (Weekday(d) == 6 && DayNumber(e) == DayNumber(d) + 1)
    ensures AdjustForWeekday(d) == e
  {
    DayNumberInjective(AdjustForWeekday(d), e);
  }

  /** How far find_next_weekday moves from a date on weekday w: 1 to 7 days when both are weekdays. */
  function DaysAhead(w: int, weekday: int): (ahead: int)
    ensures 0 <= w < 7 && 0 <= weekday < 7 ==> 1 <= ahead <= 7 && (w + ahead) % 7 == weekday
  {
    var ahead := weekday - w;
    if ahead <= 0 then ahead + 7 else ahead
  }

  /**
   * find_next_weekday: the first date strictly after start that falls on the given weekday
   * (0 = Monday); the birthday argument is unused, as in the source.
   */
  function FindNextWeekday(birthday: CalendarDate, start: CalendarDate, weekday: int): (r: Result<CalendarDate>)
    ensures r.Err? ==> r.error == DateOverflow
    ensures 0 <= weekday < 7 && r.Ok? ==>
              Weekday(r.value) == weekday && DayNumber(start) < DayNumber(r.value) <= DayNumber(start) + 7
    ensures 0 <= weekday < 7 && r.Err? ==> DayNumber(start) + 7 > MaxOrdinal
  {
    var ahead := DaysAhead(Weekday(start), weekday);
    var r := AddDays(start, ahead);
    if 0 <= weekday < 7 && r.Ok? then
      LandsOnWeekday(start, r.value, weekday, ahead); r
    else if 0 <= weekday < 7 then
      DayNumberRange(start); r
    else r
  }

  lemma LandsOnWeekday(start: CalendarDate, e: CalendarDate, weekday: int, ahead: int)
    requires 0 <= weekday < 7 && ahead == DaysAhead(Weekday(start), weekday)
    requires DayNumber(e) == DayNumber(start) + ahead
    ensures Weekday(e) == weekday && DayNumber(start) < DayNumber(e) <= DayNumber(start) + 7
  {
    WeekdayAfter(start, e, ahead);
  }

  /** No date between start and the one found falls on the requested weekday. */
  lemma FindNextWeekdayIsFirst(birthday: CalendarDate, start: CalendarDate, weekday: int, c: CalendarDate)
    requires 0 <= weekday < 7 && FindNextWeekday(birthday, start, weekday).Ok?
    requires DayNumber(start) < DayNumber(c) < DayNumber(FindNextWeekday(birthday, start, weekday).value)
    ensures Weekday(c) != weekday
  {
    NoEarlierWeekday(start, FindNextWeekday(birthday, start, weekday).value, c);
  }

  /** Within a week after start, a weekday occurs once only. */
  lemma NoEarlierWeekday(start: CalendarDate, r: CalendarDate, c: CalendarDate)
    requires DayNumber(start) < DayNumber(c) < DayNumber(r) <= DayNumber(start) + 7
    ensures Weekday(c) != Weekday(r)
  {
    var j, k := DayNumber(c) - DayNumber(start), DayNumber(r) - DayNumber(start);
    WeekdayAfter(start, c, j);
    WeekdayAfter(start, r, k);
    DistinctWithinWeek(Weekday(start), j, k, Weekday(c), Weekday(r));
  }

  lemma DistinctWithinWeek(w: int, j: int, k: int, a: int, b: int)
    requires 0 <= w < 7 && 0 < j < k <= 7
    requires a == (w + j) % 7 && b == (w + k) % 7
    ensures a != b
  {
  }

  /**
   * The date whose distance from today decides inclusion (HW8_1.py:62-66): the birthday
   * in today's year, shifted off a weekend, and if that is already past, the SHIFTED date
   * moved to the following year, without a new shift.
   */
  function RolledDate(b: CalendarDate, today: CalendarDate): (r: Result<CalendarDate>)
    ensures r.Err? ==> r.error == InvalidDate
  {
    match Replace(b, today.year)
    case Err(e) => Err(e)
    case Ok(thisYear) =>
      var shifted := AdjustForWeekday(thisYear);
      if Before(shifted, today) then Replace(shifted, shifted.year + 1) else Ok(shifted)
  }

  /** The rolled date is never before today, so the source's `0 <= delta` test always holds. */
  lemma RolledDateNotPast(b: CalendarDate, today: CalendarDate)
    requires RolledDate(b, today).Ok?
    ensures DayNumber(today) <= DayNumber(RolledDate(b, today).value)
    ensures today.year <= RolledDate(b, today).value.year <= today.year + 1
  {
    var thisYear := Replace(b, today.year).value;
    var shifted := AdjustForWeekday(thisYear);
    YearWithinTwoDays(thisYear, shifted);
    BeforeIsOrdinalOrder(shifted, today);
    if Before(shifted, today) {
      YearOrder(shifted, today);
      var r := Replace(shifted, shifted.year + 1).value;
      assert r.year == today.year + 1;
      BeforeIsOrdinalOrder(r, today);
    }
  }

  /** Only a birthday on 27, 28 or 29 February, or a date in the last year, makes the source fail. */
  lemma RolledDateFailure(b: CalendarDate, today: CalendarDate)
    requires RolledDate(b, today).Err?
    ensures (b.month == 2 && 27 <= b.day) || today.year == MaxYear
  {
    if Replace(b, today.year).Ok? && today.year < MaxYear {
      var thisYear := Replace(b, today.year).value;
      var shifted := AdjustForWeekday(thisYear);
      BeforeIsOrdinalOrder(thisYear, shifted);
      BeforeIsOrdinalOrder(shifted, today);
      assert shifted.year == today.year;
      assert shifted.month == 2 && shifted.day == 29;
    }
  }

  /**
   * One contact's entry in get_upcoming_birthdays (HW8_1.py:61-70): the congratulation
   * date when the rolled date is at most `days` ahead, the weekend shift applied a second
   * time after the distance was taken.
   */
  function CongratulationDate(b: CalendarDate, today: CalendarDate, days: int): (r: Result<Option<CalendarDate>>)
    ensures r.Err? <==> RolledDate(b, today).Err?
  {
    match RolledDate(b, today)
    case Err(e) => Err(e)
    case Ok(rolled) =>
      var delta := DayNumber(rolled) - DayNumber(today);
      var congratulation := AdjustForWeekday(rolled);
      if 0 <= delta <= days then Ok(Some(congratulation)) else Ok(None)
  }

  /**
   * A contact is listed exactly when its rolled date lies within `days`; the date listed is a
   * weekday, not before today, and up to two days beyond the horizon.
   */
  lemma CongratulationWindow(b: CalendarDate, today: CalendarDate, days: int)
    requires RolledDate(b, today).Ok?
    ensures var rolled := RolledDate(b, today).value;
            CongratulationDate(b, today, days).value.Some? <==> DayNumber(rolled) - DayNumber(today) <= days
    ensures var r := CongratulationDate(b, today, days).value;
            r.Some? ==> !IsWeekend(r.value) && DayNumber(today) <= DayNumber(r.value) <= DayNumber(today) + days + 2
  {
    RolledDateNotPast(b, today);
  }

  /** With the horizon of 7 days, a contact born on 1 January is listed on 25.12.2016 for 02.01.2017, eight days on. */
  lemma CongratulationPassesHorizon(b: CalendarDate, today: CalendarDate)
    requires b == Date(1990, 1, 1) && today == Date(2016, 12, 25)
    ensures CongratulationDate(b, today, 7) == Ok(Some(Date(2017, 1, 2)))
    ensures DayNumber(Date(2017, 1, 2)) - DayNumber(today) == 8
  {
    AdjustedIs(Date(2016, 1, 1), Date(2016, 1, 1));
    assert RolledDate(b, today) == Ok(Date(2017, 1, 1));
    AdjustedIs(Date(2017, 1, 1), Date(2017, 1, 2));
  }

  /** c is the birthday b in year y, shifted off a weekend. */
  predicate IsShiftedBirthday(b: CalendarDate, c: CalendarDate, y: int) {
    Replace(b, y).Ok? && c == AdjustForWeekday(Replace(b, y).value)
  }

  /**
   * The evidently intended date: the birthday itself in today's year, shifted off a weekend,
   * or, when that is already past, the birthday in the next year, shifted.
   */
  function IntendedDate(b: CalendarDate, today: CalendarDate): (r: Result<CalendarDate>)
    ensures r.Err? ==> r.error == InvalidDate
  {
    match Replace(b, today.year)
    case Err(e) => Err(e)
    case Ok(thisYear) =>
      var shifted := AdjustForWeekday(thisYear);
      if !Before(shifted, today) then Ok(shifted)
      else
        match Replace(b, today.year + 1)
        case Err(e) => Err(e)
        case Ok(nextYear) => Ok(AdjustForWeekday(nextYear))
  }

  /** The intended computation fails only for a 29 February birthday or in the last representable year. */
  lemma IntendedDateFailure(b: CalendarDate, today: CalendarDate)
    ensures IntendedDate(b, today).Err? ==> (b.month == 2 && b.day == 29) || today.year == MaxYear
  {
    ReplaceFailsOnlyOnLeapDay(b, today.year);
    if today.year < MaxYear {
      ReplaceFailsOnlyOnLeapDay(b, today.year + 1);
    }
  }

  /** The intended date is this year's or next year's shifted birthday, and not before today. */
  lemma IntendedDateIsNextShiftedBirthday(b: CalendarDate, today: CalendarDate)
    requires IntendedDate(b, today).Ok?
    ensures DayNumber(today) <= DayNumber(IntendedDate(b, today).value)
    ensures IsShiftedBirthday(b, IntendedDate(b, today).value, today.year)
            || IsShiftedBirthday(b, IntendedDate(b, today).value, today.year + 1)
  {
    var shifted := AdjustForWeekday(Replace(b, today.year).value);
    if Before(shifted, today) {
      var nextYear := Replace(b, today.year + 1).value;
      assert IntendedDate(b, today) == Ok(AdjustForWeekday(nextYear));
      LaterYearNotBefore(nextYear, today);
    } else {
      assert IntendedDate(b, today) == Ok(shifted);
      BeforeIsOrdinalOrder(shifted, today);
    }
  }

  /** This year's shifted birthday is the intended date whenever it is not past. */
  lemma IntendedDatePrefersThisYear(b: CalendarDate, today: CalendarDate)
    requires Replace(b, today.year).Ok?
    requires DayNumber(today) <= DayNumber(AdjustForWeekday(Replace(b, today.year).value))
    ensures IntendedDate(b, today) == Ok(AdjustForWeekday(Replace(b, today.year).value))
  {
    BeforeIsOrdinalOrder(AdjustForWeekday(Replace(b, today.year).value), today);
  }

  /** A date in a later year than today is after today. */
  lemma LaterYearNotBefore(d: CalendarDate, today: CalendarDate)
    requires d.year > today.year
    ensures DayNumber(today) <= DayNumber(AdjustForWeekday(d))
  {
    BeforeIsOrdinalOrder(d, today);
  }

  /** get_upcoming_birthdays for one contact as evidently intended: the intended date, if at most `days` ahead. */
  function IntendedCongratulationDate(b: CalendarDate, today: CalendarDate, days: int): (r: Result<Option<CalendarDate>>)
    ensures r.Err? <==> IntendedDate(b, today).Err?
  {
    match IntendedDate(b, today)
    case Err(e) => Err(e)
    case Ok(c) =>
      var delta := DayNumber(c) - DayNumber(today);
      if 0 <= delta <= days then Ok(Some(c)) else Ok(None)
  }

  /** The intended entry is listed exactly when the intended date is at most `days` ahead, and is that date. */
  lemma IntendedCongratulationWindow(b: CalendarDate, today: CalendarDate, days: int)
    requires IntendedDate(b, today).Ok?
    ensures var c := IntendedDate(b, today).value;
            IntendedCongratulationDate(b, today, days) == Ok(if DayNumber(c) - DayNumber(today) <= days then Some(c) else None)
  {
    IntendedDateIsNextShiftedBirthday(b, today);
  }

  /**
   * Finding: on 28.12.2022 a contact born on 1 January is listed for Tuesday 03.01.2023, a
   * date that is neither the birthday nor the Monday after it, in either year; the intended
   * date is 02.01.2023.
   */
  lemma RolledShiftedDateIsWrong(b: CalendarDate, today: CalendarDate)
    requires b == Date(1990, 1, 1) && today == Date(2022, 12, 28)
    ensures CongratulationDate(b, today, 7) == Ok(Some(Date(2023, 1, 3)))
    ensures !IsShiftedBirthday(b, Date(2023, 1, 3), 2022) && !IsShiftedBirthday(b, Date(2023, 1, 3), 2023)
    ensures IntendedCongratulationDate(b, today, 7) == Ok(Some(Date(2023, 1, 2)))
  {
    NewYearAsWritten(b, today);
    NewYearIntended(b, today);
  }

  lemma NewYearAsWritten(b: CalendarDate, today: CalendarDate)
    requires b == Date(1990, 1, 1) && today == Date(2022, 12, 28)
    ensures CongratulationDate(b, today, 7) == Ok(Some(Date(2023, 1, 3)))
  {
    AdjustedIs(Date(2022, 1, 1), Date(2022, 1, 3));
    assert RolledDate(b, today) == Ok(Date(2023, 1, 3));
    AdjustedIs(Date(2023, 1, 3), Date(2023, 1, 3));
  }

  lemma NewYearIntended(b: CalendarDate, today: CalendarDate)
    requires b == Date(1990, 1, 1) && today == Date(2022, 12, 28)
    ensures !IsShiftedBirthday(b, Date(2023, 1, 3), 2022) && !IsShiftedBirthday(b, Date(2023, 1, 3), 2023)
    ensures IntendedCongratulationDate(b, today, 7) == Ok(Some(Date(2023, 1, 2)))
  {
    AdjustedIs(Date(2022, 1, 1), Date(2022, 1, 3));
    AdjustedIs(Date(2023, 1, 1), Date(2023, 1, 2));
  }

  /**
   * Finding: on 10.03.2016 a contact born on 27 February makes the source raise ValueError:
   * 27.02.2016 is a Saturday, shifts to 29.02.2016, and 29.02.2017 does not exist. The
   * intended computation lists nothing.
   */
  lemma ShiftedLeapDayFails(b: CalendarDate, today: CalendarDate)
    requires b == Date(1990, 2, 27) && today == Date(2016, 3, 10)
    ensures CongratulationDate(b, today, 7) == Err(InvalidDate)
    ensures IntendedCongratulationDate(b, today, 7) == Ok(None)
  {
    AdjustedIs(Date(2016, 2, 27), Date(2016, 2, 29));
    AdjustedIs(Date(2017, 2, 27), Date(2017, 2, 27));
  }
}
