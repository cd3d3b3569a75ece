/** The dated cases of the library's unit tests (`ZPersianDateTimeTest`), stated for
    every leap rule; a case whose answer depends on the leap rule or on the weekday
    the calendar gives 23 Dey 1397 takes that as a requirement. */
module Scenarios {
  import opened Wrappers
  import opened Enums
  import opened Calendar
  import opened PersianDates
  import Constants
  import Holidays

  /** A valid date on the instant of (y, m, dd) has those fields. */
  lemma OnDate(cal: PersianCalendar, x: Date, y: int, m: int, dd: int)
    requires IsValidDate(cal, y, m, dd) && Valid(cal, x)
    requires x.instant == DateToInstant(cal, y, m, dd)
    ensures x.year == y && x.month == m && x.day == dd
  {
    assert x == Init(cal, x.instant);
    InitAt(cal, y, m, dd);
  }

  /** 23 Dey 1397, the date most of the cases start from. */
  function Dey23(cal: PersianCalendar): (d: Date)
    ensures Valid(cal, d) && d.year == 1397 && d.month == 10 && d.day == 23
  {
    New(cal, 1397, 10, 23).value
  }

  /** 1 Farvardin 1397, the start of the stepping cases. */
  function Farvardin1(cal: PersianCalendar): (d: Date)
    ensures Valid(cal, d) && d.year == 1397 && d.month == 1 && d.day == 1
  {
    New(cal, 1397, 1, 1).value
  }

  /** `BeginOfMonthTest`: the month of 23 Dey 1397 begins on 1 Dey 1397. */
  lemma BeginOfMonthCase(cal: PersianCalendar)
    ensures var b := BeginOfMonth(cal, Dey23(cal));
      b.year == 1397 && b.month == 10 && b.day == 1
  {
  }

  /** `EndOfMonthTest`: Dey has 30 days. */
  lemma EndOfMonthCase(cal: PersianCalendar)
    ensures var e := EndOfMonth(cal, Dey23(cal));
      e.Success? && e.value.year == 1397 && e.value.month == 10 && e.value.day == 30
  {
  }

  /** `BeginOfWeekTest`: on a Yekshanbe, the week began the day before, 22 Dey. */
  lemma BeginOfWeekCase(cal: PersianCalendar)
    requires Dey23(cal).dayOfWeek == YekShanbe
    ensures var b := BeginOfWeek(cal, Dey23(cal));
      b.Success? && b.value.year == 1397 && b.value.month == 10 && b.value.day == 22
  {
    var d := Dey23(cal);
    assert d.instant == DateToInstant(cal, 1397, 10, 22) + 1 by {
      assert d == Init(cal, d.instant);
      InitAt(cal, 1397, 10, 23);
      InstantToDate(cal, 1397, 10, 23);
    }
    var b := BeginOfWeek(cal, d);
    OnDate(cal, b.value, 1397, 10, 22);
  }

  /** `EndOfWeekTest`: on a Yekshanbe, the week ends five days on, 28 Dey. */
  lemma EndOfWeekCase(cal: PersianCalendar)
    requires Dey23(cal).dayOfWeek == YekShanbe
    ensures var e := EndOfWeek(cal, Dey23(cal));
      e.Success? && e.value.year == 1397 && e.value.month == 10 && e.value.day == 28
  {
    var d := Dey23(cal);
    assert d.instant == DateToInstant(cal, 1397, 10, 28) - 5 by {
      assert d == Init(cal, d.instant);
      InitAt(cal, 1397, 10, 23);
      InstantToDate(cal, 1397, 10, 23);
    }
    var e := EndOfWeek(cal, d);
    OnDate(cal, e.value, 1397, 10, 28);
  }

  /** `BeginOfYearTest`: 1 Farvardin 1397 is its own year's beginning. */
  lemma BeginOfYearCase(cal: PersianCalendar)
    ensures BeginOfYear(cal, Farvardin1(cal)) == Farvardin1(cal)
  {
    SameTripleSameDate(cal, BeginOfYear(cal, Farvardin1(cal)), Farvardin1(cal));
  }

  /** `EndOfYearTest`: in a common year Esfand ends on the 29th. */
  lemma EndOfYearCase(cal: PersianCalendar)
    requires !cal.isLeapYear(1397)
    ensures var e := EndOfYear(cal, Dey23(cal));
      e.Success? && e.value.year == 1397 && e.value.month == 12 && e.value.day == 29
  {
    var d := Dey23(cal);
    assert !d.isLeapYear by {
      assert d == Init(cal, d.instant);
      InitFields(cal, d.instant);
    }
  }

  /** `EqualAndGotoWeekTest`: two weeks on from 1 Farvardin is 15 Farvardin. */
  lemma GotoWeeksCase(cal: PersianCalendar)
    ensures var w := GotoWeeks(cal, Farvardin1(cal), 2);
      && New(cal, 1397, 1, 15).Success?
      && w.Success? && Equals(w.value, New(cal, 1397, 1, 15).value)
  {
    var d := Farvardin1(cal);
    assert Numerals.Wrap32(2 * 7) == 14;
    FromFirst(cal, d, 1, 14);
    OnDate(cal, GotoWeeks(cal, d, 2).value, 1397, 1, 15);
  }

  /** `EqualAndGotoDayTest`: ten days on from 1 Farvardin is 11 Farvardin. */
  lemma GotoDaysCase(cal: PersianCalendar)
    ensures var g := GotoDays(cal, Farvardin1(cal), 10);
      && New(cal, 1397, 1, 11).Success?
      && g.Success? && Equals(g.value, New(cal, 1397, 1, 11).value)
  {
    var d := Farvardin1(cal);
    FromFirst(cal, d, 1, 10);
    OnDate(cal, GotoDays(cal, d, 10).value, 1397, 1, 11);
  }

  /** The first of a month lies `n` days before the (n + 1)-th. */
  lemma FromFirst(cal: PersianCalendar, d: Date, m: int, n: int)
    requires Valid(cal, d) && d.year == 1397 && d.month == m && d.day == 1
    requires 1 <= m <= 12 && 0 <= n < 29
    ensures d.instant + n == DateToInstant(cal, 1397, m, n + 1)
  {
    assert d == Init(cal, d.instant);
    InstantToDate(cal, 1397, m, 1);
  }

  /** `EqualAndGotoMonthTest`: a month on from 1 Farvardin is 1 Ordibehesht. */
  lemma GotoMonthsCase(cal: PersianCalendar)
    ensures var g := GotoMonths(cal, Farvardin1(cal), 1);
      && New(cal, 1397, 2, 1).Success?
      && g.Success? && Equals(g.value, New(cal, 1397, 2, 1).value)
  {
    var g := GotoMonths(cal, Farvardin1(cal), 1).value;
    ValidWellFormed(cal, g);
    SameMonthIndex(g.year, g.month, 1397, 2);
  }

  /** A month index determines the year and the month. */
  lemma SameMonthIndex(y: int, m: int, y2: int, m2: int)
    requires 1 <= m <= 12 && 1 <= m2 <= 12 && 12 * y + m == 12 * y2 + m2
    ensures y == y2 && m == m2
  {
  }

  /** `EqualAndGotoYearTest`: a year on from 1 Farvardin 1397 is 1 Farvardin 1398. */
  lemma GotoYearsCase(cal: PersianCalendar)
    ensures var g := GotoYears(cal, Farvardin1(cal), 1);
      && New(cal, 1398, 1, 1).Success?
      && g.Success? && Equals(g.value, New(cal, 1398, 1, 1).value)
  {
  }

  /** `IsHolidayTest`: 22 Bahman, whatever its weekday, is in the holiday table. */
  lemma IsHolidayCase(cal: PersianCalendar)
    ensures New(cal, 1397, 11, 22).Success?
    ensures IsHoliday(New(cal, 1397, 11, 22).value)
  {
    var d := New(cal, 1397, 11, 22).value;
    assert Constants.Holiday[8].month == 11 && Constants.Holiday[8].day == 22;
    assert Holidays.Matches(Constants.Holiday[8], d.month, d.day, d.dayOfWeek);
  }
}
