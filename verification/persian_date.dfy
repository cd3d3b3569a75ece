/** The `PersianDate` value: construction, derived fields, stepping, period
    boundaries and equality. Every operation works on a copy and returns a new,
    fully re-derived value; the receiver never changes. */
module PersianDates {
  import opened Wrappers
  import opened Enums
  import opened Calendar
  import opened Numerals
  import Constants
  import Holidays

  /** The fields of a `PersianDate`. `instant` is the hidden `_date`, as a day number. */
  datatype Date = Date(
    instant: int,
    year: int,
    month: int,
    day: int,
    dayOfWeek: PersianDayOfWeek,
    dayOfYear: int,
    isLeapYear: bool)

  /** The gross ranges every constructed date lies in. */
  predicate WellFormed(d: Date) {
    MinYear <= d.year <= MaxYear && 1 <= d.month <= 12 && 1 <= d.day <= 31
  }

  /** `_mapPersianDayOfWeek`: Saturday becomes Shanbe (0), ..., Friday becomes Jome (6). */
  function MapPersianDayOfWeek(day: DayOfWeek): (w: PersianDayOfWeek)
    ensures w.Index() == (day.Index() + 1) % 7
  {
    match day
    case Saturday => Shanbe
    case Sunday => YekShanbe
    case Monday => DoShanbe
    case Tuesday => SeShanbe
    case Wednesday => ChaharShanbe
    case Thursday => PanjShanbe
    case Friday => Jome
  }

  /** The .NET weekday a Persian weekday stands for. */
  function UnmapPersianDayOfWeek(w: PersianDayOfWeek): (day: DayOfWeek)
    ensures MapPersianDayOfWeek(day) == w
  {
    match w
    case Shanbe => Saturday
    case YekShanbe => Sunday
    case DoShanbe => Monday
    case SeShanbe => Tuesday
    case ChaharShanbe => Wednesday
    case PanjShanbe => Thursday
    case Jome => Friday
  }

  /** The weekday mapping is one-to-one, so `UnmapPersianDayOfWeek` is its inverse
      on both sides. */
  lemma MapPersianDayOfWeekBijective(day: DayOfWeek, w: PersianDayOfWeek)
    ensures UnmapPersianDayOfWeek(MapPersianDayOfWeek(day)) == day
    ensures MapPersianDayOfWeek(day) == w <==> day == UnmapPersianDayOfWeek(w)
  {
  }

  /** Persian weekday number of instant `t`: day 0 was a Friday (Jome, 6). */
  function WeekdayIndex(t: int): int {
    (t + EpochDayOfWeek + 1) % 7
  }

  /** Shifting the .NET weekday by one is shifting the instant by one. */
  lemma WeekdayShift(t: int)
    ensures ((t + EpochDayOfWeek) % 7 + 1) % 7 == WeekdayIndex(t)
  {
    var q := (t + EpochDayOfWeek) / 7;
    var k := (t + EpochDayOfWeek) % 7;
    assert t + EpochDayOfWeek + 1 == 7 * q + k + 1;
    if k < 6 {
      assert (t + EpochDayOfWeek + 1) % 7 == k + 1;
    } else {
      assert t + EpochDayOfWeek + 1 == 7 * (q + 1);
    }
  }

  /** `_init`: every field re-derived from the instant. */
  function Init(cal: PersianCalendar, t: int): (d: Date)
    requires InRange(cal, t)
    ensures d.instant == t && WellFormed(d)
    ensures IsValidDate(cal, d.year, d.month, d.day)
    ensures DateToInstant(cal, d.year, d.month, d.day) == t
    ensures d.dayOfWeek.Index() == WeekdayIndex(t)
    ensures d.dayOfYear == DaysBeforeMonth(d.month) + d.day
    ensures d.isLeapYear == cal.isLeapYear(d.year)
  {
    var year := GetYear(cal, t);
    var month := GetMonth(cal, t);
    var day := GetDayOfMonth(cal, t);
    var dayOfWeek := MapPersianDayOfWeek(GetDayOfWeek(t));
    WeekdayShift(t);
    Date(t, year, month, day, dayOfWeek, GetDayOfYear(cal, t), cal.isLeapYear(year))
  }

  /** The fields `Init` stores are the calendar's read-backs. */
  lemma InitFields(cal: PersianCalendar, t: int)
    requires InRange(cal, t)
    ensures Init(cal, t).year == GetYear(cal, t)
    ensures Init(cal, t).month == GetMonth(cal, t)
    ensures Init(cal, t).day == GetDayOfMonth(cal, t)
  {
  }

  /** A date as the type's constructors leave it: every field derived from the instant. */
  predicate Valid(cal: PersianCalendar, d: Date) {
    InRange(cal, d.instant) && d == Init(cal, d.instant)
  }

  /** The `IsHoliday` flag `_init` stores: some entry of the holiday table falls on
      the date's month and day, or on its weekday. */
  function IsHoliday(d: Date): (b: bool)
    ensures b <==> Holidays.Listed(Constants.Holiday, d.month, d.day, d.dayOfWeek)
  {
    Holidays.HolidayOf(Constants.Holiday, d.month, d.day, d.dayOfWeek).0
  }

  /** The `HolidayDescription` `_init` stores: the matching entries' descriptions,
      one per line, or "" on an ordinary day. */
  function HolidayDescription(d: Date): (s: string)
    ensures !IsHoliday(d) ==> s == ""
  {
    Holidays.HolidayOf(Constants.Holiday, d.month, d.day, d.dayOfWeek).1
  }

  /** A valid date's fields are in their ranges. */
  lemma ValidWellFormed(cal: PersianCalendar, d: Date)
    requires Valid(cal, d)
    ensures WellFormed(d)
  {
    assert d == Init(cal, d.instant);
  }

  /** A valid date's fields are the read-backs of its instant. */
  lemma ValidFields(cal: PersianCalendar, d: Date)
    requires Valid(cal, d)
    ensures d.year == GetYear(cal, d.instant)
    ensures d.month == GetMonth(cal, d.instant)
    ensures d.day == GetDayOfMonth(cal, d.instant)
  {
    InitFields(cal, d.instant);
  }

  /** With the shipped table, a date is a holiday exactly when its month and day are
      listed, and its description is then that one entry's. */
  lemma ShippedHoliday(d: Date)
    ensures IsHoliday(d) <==> exists i | 0 <= i < |Constants.Holiday| ::
      Constants.Holiday[i].month == d.month && Constants.Holiday[i].day == d.day
    ensures forall i | 0 <= i < |Constants.Holiday| ::
      Constants.Holiday[i].month == d.month && Constants.Holiday[i].day == d.day ==>
        HolidayDescription(d) == Constants.Holiday[i].description
  {
    Holidays.ShippedTableFixedDistinct();
    Holidays.HolidayOfFixedDistinct(Constants.Holiday, d.month, d.day, d.dayOfWeek);
  }

  /** Only a date in a leap year can be 30 Esfand, so the (12, 30) entry matches
      nothing in a common year. */
  lemma Esfand30IsLeap(cal: PersianCalendar, d: Date)
    requires Valid(cal, d) && d.month == 12 && d.day == 30
    ensures d.isLeapYear && cal.isLeapYear(d.year)
  {
    assert d == Init(cal, d.instant);
  }

  /** The implicit conversion from `DateTime`; the calendar rejects instants outside
      its range. */
  function FromDateTime(cal: PersianCalendar, t: int): (r: Result<Date, Exception>)
    ensures r.Success? <==> InRange(cal, t)
    ensures r.Success? ==> Valid(cal, r.value) && r.value.instant == t
    ensures r.Failure? ==> r.error == ArgumentOutOfRange
  {
    if InRange(cal, t) then Success(Init(cal, t)) else Failure(ArgumentOutOfRange)
  }

  /** The implicit conversion to `DateTime`: the day number of the date's year,
      month and day, which the calendar reads back as those fields. */
  function AsDateTime(cal: PersianCalendar, d: Date): (t: int)
    requires Valid(cal, d)
    ensures InRange(cal, t)
    ensures IsValidDate(cal, d.year, d.month, d.day) && t == DateToInstant(cal, d.year, d.month, d.day)
    ensures GetYear(cal, t) == d.year && GetMonth(cal, t) == d.month && GetDayOfMonth(cal, t) == d.day
  {
    ValidFields(cal, d);
    d.instant
  }

  /** Converting to `DateTime` and back gives the same date. */
  lemma DateTimeRoundTrip(cal: PersianCalendar, d: Date)
    requires Valid(cal, d)
    ensures FromDateTime(cal, AsDateTime(cal, d)) == Success(d)
  {
  }

  /** Two valid dates with the same year, month and day are the same value, derived
      fields included. */
  lemma SameTripleSameDate(cal: PersianCalendar, a: Date, b: Date)
    requires Valid(cal, a) && Valid(cal, b)
    requires a.year == b.year && a.month == b.month && a.day == b.day
    ensures a == b
  {
  }

  /** The constructor's guard as intended: 1..9378, 1..12, 1..31. */
  predicate InGrossRange(year: int, month: int, day: int) {
    1 <= year <= 9378 && 1 <= month <= 12 && 1 <= day <= 31
  }

  /** The constructor's guard as written: the month's upper bound is checked on
      `monthProperty`, the `Month` property of the object under construction. */
  predicate GuardAsWritten(year: int, month: int, day: int, monthProperty: int) {
    1 <= year <= 9378 && month >= 1 && monthProperty <= 12 && 1 <= day <= 31
  }

  /** The constructor body past its guard: convert, then derive every field. */
  function Convert(cal: PersianCalendar, year: int, month: int, day: int): (r: Result<Date, Exception>)
    ensures r.Success? <==> IsValidDate(cal, year, month, day)
    ensures r.Success? ==> Valid(cal, r.value)
    ensures r.Success? ==> r.value.year == year && r.value.month == month && r.value.day == day
    ensures r.Failure? ==> r.error == ArgumentOutOfRange
  {
    match ToDateTime(cal, year, month, day)
    case Failure(e) => Failure(e)
    case Success(t) =>
      InstantToDate(cal, year, month, day);
      Success(Init(cal, t))
  }

  /** `new PersianDate(year, month, day)` as written: `Month` is still 0 while the
      guard runs, so a month above 12 passes it and is rejected by the calendar. */
  function NewAsWritten(cal: PersianCalendar, year: int, month: int, day: int): (r: Result<Date, Exception>)
    ensures r.Success? <==> IsValidDate(cal, year, month, day)
    ensures r.Success? ==> Valid(cal, r.value)
    ensures r.Success? ==> r.value.year == year && r.value.month == month && r.value.day == day
    ensures r.Failure? ==>
      (r.error == NotSupported <==> !(1 <= year <= 9378 && month >= 1 && 1 <= day <= 31))
    ensures r.Failure? ==> r.error == NotSupported || r.error == ArgumentOutOfRange
  {
    if GuardAsWritten(year, month, day, 0) then Convert(cal, year, month, day) else Failure(NotSupported)
  }

  /** `new PersianDate(year, month, day)` with the guard testing the `month`
      argument: out-of-range fields throw NotSupported, and a day the month does
      not have is rejected by the calendar. */
  function New(cal: PersianCalendar, year: int, month: int, day: int): (r: Result<Date, Exception>)
    ensures r.Success? <==> IsValidDate(cal, year, month, day)
    ensures r.Success? ==> Valid(cal, r.value)
    ensures r.Success? ==> r.value.year == year && r.value.month == month && r.value.day == day
    ensures r.Failure? ==> (r.error == NotSupported <==> !InGrossRange(year, month, day))
    ensures r.Failure? ==> r.error == NotSupported || r.error == ArgumentOutOfRange
  {
    if InGrossRange(year, month, day) then Convert(cal, year, month, day) else Failure(NotSupported)
  }

  /** The guard as written accepts the same triples and builds the same dates; only
      the exception for a month above 12 differs. */
  lemma NewAsWrittenAgrees(cal: PersianCalendar, year: int, month: int, day: int)
    ensures NewAsWritten(cal, year, month, day).Success? == New(cal, year, month, day).Success?
    ensures NewAsWritten(cal, year, month, day).Success? ==>
      NewAsWritten(cal, year, month, day) == New(cal, year, month, day)
    ensures month > 12 && 1 <= year <= 9378 && 1 <= day <= 31 ==>
      NewAsWritten(cal, year, month, day) == Failure(ArgumentOutOfRange)
      && New(cal, year, month, day) == Failure(NotSupported)
  {
  }

  /** Month 13 gets past the guard as written. */
  lemma GuardAdmitsMonth13()
    ensures GuardAsWritten(1397, 13, 1, 0)
    ensures !InGrossRange(1397, 13, 1)
  {
  }

  /** `_getSeason`: the quarter the month is in; Spring for a month outside 1..12. */
  function SeasonOf(month: int): (s: Season)
    ensures 1 <= month <= 12 ==> s.Index() == (month - 1) / 3
    ensures !(1 <= month <= 12) ==> s == Spring
  {
    if month == 1 || month == 2 || month == 3 then Spring
    else if month == 4 || month == 5 || month == 6 then Summer
    else if month == 7 || month == 8 || month == 9 then Autumn
    else if month == 10 || month == 11 || month == 12 then Winter
    else Spring
  }

  /** The `Season` property: the quarter of the year the month falls in. */
  function GetSeason(d: Date): (s: Season)
    ensures 1 <= d.month <= 12 ==> s.Index() == (d.month - 1) / 3
    ensures !(1 <= d.month <= 12) ==> s == Spring
  {
    SeasonOf(d.month)
  }

  /** The `HalfOfSeason` property: the first half of the year holds spring and summer. */
  function HalfOfSeason(d: Date): (h: HalfOfYear)
    ensures 1 <= d.month <= 12 ==> (h == First <==> d.month <= 6)
  {
    match GetSeason(d)
    case Spring => First
    case Summer => First
    case Autumn => Second
    case Winter => Second
  }

  /** The `NameOfDays` property: the name of the date's weekday. */
  function NameOfDays(d: Date): string {
    Constants.NameOfDays[d.dayOfWeek.Index()]
  }

  /** The `NameOfMonth` property. */
  function NameOfMonth(d: Date): string
    requires 1 <= d.month <= 12
  {
    Constants.NameOfMonths[d.month - 1]
  }

  /** `Equals`: only year, month and day are compared. */
  function Equals(a: Date, b: Date): bool {
    a.day == b.day && a.month == b.month && a.year == b.year
  }

  /** The calendar steps `_goto` takes on the instant: years first, then months,
      then days; the first step that leaves the supported range throws. */
  function StepInstant(cal: PersianCalendar, t: int, days: int, months: int, years: int): (r: Result<int, Exception>)
    requires InRange(cal, t)
    ensures r.Success? ==> InRange(cal, r.value)
    ensures r.Failure? ==> r.error == ArgumentOutOfRange || r.error == Argument
  {
    var afterYears :- AddYears(cal, t, years);
    var afterMonths :- AddMonths(cal, afterYears, months);
    AddDays(cal, afterMonths, days)
  }

  /** `_goto`: the date at the instant the calendar steps reach. */
  function Goto(cal: PersianCalendar, d: Date, days: Int32, months: Int32, years: Int32): (r: Result<Date, Exception>)
    requires Valid(cal, d)
    ensures r.Success? ==> Valid(cal, r.value)
    ensures r.Failure? ==> r.error == ArgumentOutOfRange || r.error == Argument
  {
    match StepInstant(cal, d.instant, days, months, years)
    case Success(t) => Success(Init(cal, t))
    case Failure(e) => Failure(e)
  }

  /** `_goto` succeeds exactly when its steps do, at the instant they reach. */
  lemma GotoInstant(cal: PersianCalendar, d: Date, days: Int32, months: Int32, years: Int32)
    requires Valid(cal, d)
    ensures Goto(cal, d, days, months, years).Success? <==> StepInstant(cal, d.instant, days, months, years).Success?
    ensures Goto(cal, d, days, months, years).Success? ==>
      Goto(cal, d, days, months, years).value == Init(cal, StepInstant(cal, d.instant, days, months, years).value)
  {
  }

  /** `_goto` is a year step, then a month step, then a day step, each taken from
      the date the one before reached; the first that throws ends it. */
  lemma GotoComposes(cal: PersianCalendar, d: Date, days: Int32, months: Int32, years: Int32)
    requires Valid(cal, d)
    ensures Goto(cal, d, days, months, years) ==
      (var a :- GotoYears(cal, d, years);
       var b :- GotoMonths(cal, a, months);
       GotoDays(cal, b, days))
  {
    var t := d.instant;
    StepYearsOnly(cal, t, years);
    GotoInstant(cal, d, 0, 0, years);
    var ry := AddYears(cal, t, years);
    if ry.Success? {
      var a := Init(cal, ry.value);
      StepMonthsOnly(cal, ry.value, months);
      GotoInstant(cal, a, 0, months, 0);
      var rm := AddMonths(cal, ry.value, months);
      if rm.Success? {
        var b := Init(cal, rm.value);
        StepDaysOnly(cal, rm.value, days);
        GotoInstant(cal, b, days, 0, 0);
      }
    }
  }

  /** Stepping by days alone is `AddDays`. */
  lemma StepDaysOnly(cal: PersianCalendar, t: int, n: int)
    requires InRange(cal, t)
    ensures StepInstant(cal, t, n, 0, 0) == AddDays(cal, t, n)
  {
    AddZero(cal, t);
  }

  /** Stepping by months alone is `AddMonths`. */
  lemma StepMonthsOnly(cal: PersianCalendar, t: int, n: int)
    requires InRange(cal, t)
    ensures StepInstant(cal, t, 0, n, 0) == AddMonths(cal, t, n)
  {
    AddZero(cal, t);
    var r := AddMonths(cal, t, n);
    if r.Success? {
      assert AddDays(cal, r.value, 0) == Success(r.value);
    }
  }

  /** Stepping by years alone is `AddYears`. */
  lemma StepYearsOnly(cal: PersianCalendar, t: int, n: int)
    requires InRange(cal, t)
    ensures StepInstant(cal, t, 0, 0, n) == AddYears(cal, t, n)
  {
    var r := AddYears(cal, t, n);
    if r.Success? {
      AddZero(cal, r.value);
      assert AddDays(cal, r.value, 0) == Success(r.value);
    }
  }

  /** `GotoDays(n)`: the date n days on, when the calendar has it. */
  function GotoDays(cal: PersianCalendar, d: Date, n: Int32): (r: Result<Date, Exception>)
    requires Valid(cal, d)
    ensures r.Success? <==> InRange(cal, d.instant + n)
    ensures r.Success? ==> Valid(cal, r.value) && r.value.instant == d.instant + n
    ensures r.Failure? ==> r.error == DayStepError(n)
  {
    StepDaysOnly(cal, d.instant, n);
    Goto(cal, d, n, 0, 0)
  }

  /** `GotoWeeks(w)`: `w * 7` days on, the product taken in 32-bit arithmetic. */
  function GotoWeeks(cal: PersianCalendar, d: Date, w: Int32): (r: Result<Date, Exception>)
    requires Valid(cal, d)
    ensures r.Success? <==> InRange(cal, d.instant + Wrap32(w * 7))
    ensures r.Success? ==> Valid(cal, r.value) && r.value.instant == d.instant + Wrap32(w * 7)
    ensures r.Failure? ==> r.error == DayStepError(Wrap32(w * 7))
  {
    var days := Wrap32(w * 7);
    StepDaysOnly(cal, d.instant, days);
    GotoInstant(cal, d, days, 0, 0);
    Goto(cal, d, days, 0, 0)
  }

  /** A week step is a seven-day step whenever `w * 7` fits in 32 bits. */
  lemma GotoWeeksIsGotoDays(cal: PersianCalendar, d: Date, w: Int32)
    requires Valid(cal, d)
    requires -0x8000_0000 <= w * 7 <= 0x7FFF_FFFF
    ensures GotoWeeks(cal, d, w) == GotoDays(cal, d, 7 * w)
  {
    assert Wrap32(w * 7) == 7 * w;
    assert GotoWeeks(cal, d, w) == Goto(cal, d, 7 * w, 0, 0);
  }

  /** The year product overflows too: 357913942 years is eight months, so from
      1 Farvardin 1397 it reaches 1 Azar 1397. */
  lemma GotoYearsOverflow(cal: PersianCalendar, d: Date)
    requires Valid(cal, d)
    ensures GotoYears(cal, d, 357913942) == GotoMonths(cal, d, 8)
    ensures d.year == 1397 && d.month == 1 && d.day == 1 ==>
      var r := GotoYears(cal, d, 357913942);
      r.Success? && r.value.year == 1397 && r.value.month == 9 && r.value.day == 1
  {
    assert Wrap32(12 * 357913942) == 8;
    GotoYearsAsMonths(cal, d, 357913942);
    if d.year == 1397 && d.month == 1 && d.day == 1 {
      EightMonthsOn(cal, d);
    }
  }

  /** Eight months after 1 Farvardin 1397 is 1 Azar 1397. */
  lemma EightMonthsOn(cal: PersianCalendar, d: Date)
    requires Valid(cal, d) && d.year == 1397 && d.month == 1 && d.day == 1
    ensures var r := GotoMonths(cal, d, 8);
      r.Success? && r.value.year == 1397 && r.value.month == 9 && r.value.day == 1
  {
    var r := GotoMonths(cal, d, 8);
    ValidWellFormed(cal, r.value);
  }

  /** The product overflows for large `w`: 613566757 weeks is three days. */
  lemma GotoWeeksOverflow(cal: PersianCalendar, d: Date)
    requires Valid(cal, d)
    ensures GotoWeeks(cal, d, 613566757) == GotoDays(cal, d, 3)
  {
    assert Wrap32(613566757 * 7) == 3;
    assert GotoWeeks(cal, d, 613566757) == Goto(cal, d, 3, 0, 0);
  }

  /** `GotoMonths(n)`: n months on, the day clamped to the length of the month reached. */
  function GotoMonths(cal: PersianCalendar, d: Date, n: Int32): (r: Result<Date, Exception>)
    requires Valid(cal, d)
    ensures r.Success? <==> 12 * MinYear <= 12 * d.year + d.month - 1 + n <= 12 * MaxYear + 11
    ensures r.Success? ==>
      && Valid(cal, r.value)
      && 12 * r.value.year + r.value.month == 12 * d.year + d.month + n
      && r.value.day == Min(d.day, DaysInMonth(cal, r.value.year, r.value.month))
    ensures r.Failure? ==> r.error == ArgumentOutOfRange
  {
    StepMonthsOnly(cal, d.instant, n);
    Goto(cal, d, 0, n, 0)
  }

  /** A step of n years is, in the calendar, a step of `Wrap32(12 * n)` months. */
  lemma YearsAsMonths(cal: PersianCalendar, d: Date, n: Int32)
    requires Valid(cal, d)
    ensures Goto(cal, d, 0, 0, n) == Goto(cal, d, 0, Wrap32(12 * n), 0)
  {
    StepYearsOnly(cal, d.instant, n);
    StepMonthsOnly(cal, d.instant, Wrap32(12 * n));
  }

  /** The fields of the date `AddYears` reaches while `12 * n` fits. */
  lemma AddYearsFields(cal: PersianCalendar, t: int, n: int)
    requires InRange(cal, t) && AddYears(cal, t, n).Success? && -MaxYearStep <= n <= MaxYearStep
    ensures Init(cal, AddYears(cal, t, n).value).year == GetYear(cal, t) + n
    ensures Init(cal, AddYears(cal, t, n).value).month == GetMonth(cal, t)
    ensures Init(cal, AddYears(cal, t, n).value).day
      == Min(GetDayOfMonth(cal, t), DaysInMonth(cal, GetYear(cal, t) + n, GetMonth(cal, t)))
  {
    InitFields(cal, AddYears(cal, t, n).value);
  }

  /** `GotoYears(n)`: `n * 12` months on, the product wrapping to 32 bits; while it
      fits, n years on, same month, the day clamped to the month's length. */
  function GotoYears(cal: PersianCalendar, d: Date, n: Int32): (r: Result<Date, Exception>)
    requires Valid(cal, d)
    ensures r.Success? ==> Valid(cal, r.value)
    ensures -MaxYearStep <= n <= MaxYearStep ==> (r.Success? <==> MinYear <= d.year + n <= MaxYear)
    ensures -MaxYearStep <= n <= MaxYearStep && r.Success? ==>
      && r.value.year == d.year + n && r.value.month == d.month
      && r.value.day == Min(d.day, DaysInMonth(cal, d.year + n, d.month))
    ensures r.Failure? ==> r.error == ArgumentOutOfRange
  {
    StepYearsOnly(cal, d.instant, n);
    GotoInstant(cal, d, 0, 0, n);
    if -MaxYearStep <= n <= MaxYearStep && AddYears(cal, d.instant, n).Success? then
      AddYearsFields(cal, d.instant, n);
      ValidFields(cal, d);
      Goto(cal, d, 0, 0, n)
    else
      Goto(cal, d, 0, 0, n)
  }

  /** `GotoYears(n)` is, whatever n, `GotoMonths` by `n * 12` wrapped to 32 bits. */
  lemma GotoYearsAsMonths(cal: PersianCalendar, d: Date, n: Int32)
    requires Valid(cal, d)
    ensures GotoYears(cal, d, n) == GotoMonths(cal, d, Wrap32(12 * n))
  {
    YearsAsMonths(cal, d, n);
  }

  /** `Copy`: a new value with the same fields. */
  function Copy(cal: PersianCalendar, d: Date): (r: Date)
    requires Valid(cal, d)
    ensures r == d
  {
    Init(cal, d.instant)
  }

  /** `Change(year, month, day)`: the constructor, as written, on the given fields
      with the others kept. `_init` then re-derives every field from the instant of
      the constructed date (the implicit conversion to `DateTime`), which gives back
      that date, since it is valid. */
  function Change(cal: PersianCalendar, d: Date, year: Option<int>, month: Option<int>, day: Option<int>): (r: Result<Date, Exception>)
    requires Valid(cal, d)
    ensures var y := if year.Some? then year.value else d.year;
            var m := if month.Some? then month.value else d.month;
            var dd := if day.Some? then day.value else d.day;
            && (r.Success? <==> IsValidDate(cal, y, m, dd))
            && (r.Success? ==> Valid(cal, r.value) && r.value.year == y && r.value.month == m && r.value.day == dd)
            && (r.Failure? ==> (r.error == NotSupported <==> !(1 <= y <= 9378 && m >= 1 && 1 <= dd <= 31)))
            && (r.Failure? ==> r.error == NotSupported || r.error == ArgumentOutOfRange)
  {
    NewAsWritten(cal,
      if year.Some? then year.value else d.year,
      if month.Some? then month.value else d.month,
      if day.Some? then day.value else d.day)
  }

  /** `Init` at the instant of a valid date gives back that date's fields. */
  lemma InitAt(cal: PersianCalendar, year: int, month: int, day: int)
    requires IsValidDate(cal, year, month, day)
    ensures Init(cal, DateToInstant(cal, year, month, day)).year == year
    ensures Init(cal, DateToInstant(cal, year, month, day)).month == month
    ensures Init(cal, DateToInstant(cal, year, month, day)).day == day
  {
    InstantToDate(cal, year, month, day);
    InitFields(cal, DateToInstant(cal, year, month, day));
  }

  /** The Persian weekday moves with the instant, modulo 7. */
  lemma {:induction false} WeekdayAdd(t: int, n: int)
    ensures WeekdayIndex(t + n) == (WeekdayIndex(t) + n) % 7
  {
    var a := t + EpochDayOfWeek + 1;
    var q := a / 7;
    assert a == 7 * q + a % 7;
    assert a + n == 7 * q + (a % 7 + n);
    assert (7 * q + (a % 7 + n)) % 7 == (a % 7 + n) % 7;
  }

  /** Stepping back after stepping forward by the same number of days restores the
      date. */
  lemma GotoDaysInverse(cal: PersianCalendar, d: Date, n: Int32)
    requires Valid(cal, d) && n != -0x8000_0000
    requires GotoDays(cal, d, n).Success?
    ensures GotoDays(cal, GotoDays(cal, d, n).value, -n) == Success(d)
  {
  }

  /** A step of n days turns the weekday on by n, modulo 7. */
  lemma GotoDaysWeekday(cal: PersianCalendar, d: Date, n: Int32)
    requires Valid(cal, d)
    requires GotoDays(cal, d, n).Success?
    ensures GotoDays(cal, d, n).value.dayOfWeek.Index() == (d.dayOfWeek.Index() + n) % 7
  {
    var x := GotoDays(cal, d, n).value;
    StoredWeekday(cal, d);
    StoredWeekday(cal, x);
    WeekdayApart(d.dayOfWeek.Index(), x.dayOfWeek.Index(), d.instant, x.instant, n);
  }

  /** Weekday indices `n` days apart differ by n, modulo 7. */
  lemma WeekdayApart(a: int, b: int, t: int, u: int, n: int)
    requires a == WeekdayIndex(t) && b == WeekdayIndex(u) && u == t + n
    ensures b == (a + n) % 7
  {
    WeekdayAdd(t, n);
  }

  /** `BeginOfMonth`: a copy changed to day 1. */
  function BeginOfMonth(cal: PersianCalendar, d: Date): (r: Date)
    requires Valid(cal, d)
    ensures Valid(cal, r)
    ensures r.year == d.year && r.month == d.month && r.day == 1
    ensures r.instant == d.instant - (d.day - 1)
  {
    Change(cal, Copy(cal, d), None, None, Some(1)).value
  }

  /** From the first of a month, k months on and one day back is the last day of
      the month k - 1 months on; it fails only when the month k on is past year
      `MaxYear`. */
  lemma {:induction false} MonthsOnDayBack(cal: PersianCalendar, b: Date, k: int)
    requires Valid(cal, b) && b.day == 1
    requires 1 <= k && b.month + k - 1 <= 12
    ensures StepInstant(cal, b.instant, -1, k, 0).Success? <==> b.month + k <= 12 || b.year < MaxYear
    ensures StepInstant(cal, b.instant, -1, k, 0).Success? ==>
      StepInstant(cal, b.instant, -1, k, 0).value
        == DateToInstant(cal, b.year, b.month + k - 1, DaysInMonth(cal, b.year, b.month + k - 1))
  {
    ValidFields(cal, b);
    MonthsOnDayBackFrom(cal, b.year, b.month, k);
  }

  /** The same steps from the day number of the first of month `m` of year `y`. */
  lemma {:induction false} MonthsOnDayBackFrom(cal: PersianCalendar, y: int, m: int, k: int)
    requires IsValidDate(cal, y, m, 1)
    requires 1 <= k && m + k - 1 <= 12
    ensures var t := DateToInstant(cal, y, m, 1);
      StepInstant(cal, t, -1, k, 0).Success? <==> m + k <= 12 || y < MaxYear
    ensures var t := DateToInstant(cal, y, m, 1);
      StepInstant(cal, t, -1, k, 0).Success? ==>
        StepInstant(cal, t, -1, k, 0).value == DateToInstant(cal, y, m + k - 1, DaysInMonth(cal, y, m + k - 1))
  {
    var t := DateToInstant(cal, y, m, 1);
    InstantToDate(cal, y, m, 1);
    AddZero(cal, t);
    var u := AddMonths(cal, t, k);
    if u.Success? {
      var t2 := u.value;
      var y2, m2 := GetYear(cal, t2), GetMonth(cal, t2);
      assert 12 * y2 + m2 == 12 * y + m + k;
      assert GetDayOfMonth(cal, t2) == 1;
      assert t2 == DateToInstant(cal, y2, m2, 1);
      var last := m + k - 1;
      var e := DateToInstant(cal, y, last, DaysInMonth(cal, y, last));
      MonthEnd(cal, y, last);
      if m + k <= 12 {
        assert y2 == y && m2 == last + 1;
        assert t2 == DateToInstant(cal, y, last + 1, 1);
      } else {
        assert y2 == y + 1 && m2 == 1;
        assert t2 == DateToInstant(cal, y + 1, 1, 1);
      }
      assert StepInstant(cal, t, -1, k, 0) == AddDays(cal, t2, -1);
    }
  }

  /** `EndOfMonth`: the last day of the date's month, reached from `BeginOfMonth` by
      one month on and one day back; there is no month after the last supported one. */
  function EndOfMonth(cal: PersianCalendar, d: Date): (r: Result<Date, Exception>)
    requires Valid(cal, d)
    ensures r.Success? <==> d.month < 12 || d.year < MaxYear
    ensures r.Success? ==>
      && Valid(cal, r.value)
      && r.value.year == d.year && r.value.month == d.month
      && r.value.day == DaysInMonth(cal, d.year, d.month)
    ensures r.Failure? ==> r.error == ArgumentOutOfRange
  {
    LastOfMonths(cal, BeginOfMonth(cal, d), 1)
  }

  /** `BeginOfYear`: a copy changed to 1 Farvardin. */
  function BeginOfYear(cal: PersianCalendar, d: Date): (r: Date)
    requires Valid(cal, d)
    ensures Valid(cal, r)
    ensures r.year == d.year && r.month == 1 && r.day == 1
    ensures r.instant == d.instant - (d.dayOfYear - 1)
  {
    Change(cal, Copy(cal, d), None, Some(1), Some(1)).value
  }

  /** From 1 Farvardin, one year on and one day back is the last day of Esfand. */
  lemma YearOnDayBack(cal: PersianCalendar, b: Date)
    requires Valid(cal, b) && b.month == 1 && b.day == 1
    ensures StepInstant(cal, b.instant, -1, 0, 1).Success? <==> b.year < MaxYear
    ensures StepInstant(cal, b.instant, -1, 0, 1).Success? ==>
      StepInstant(cal, b.instant, -1, 0, 1).value == DateToInstant(cal, b.year, 12, DaysInMonth(cal, b.year, 12))
  {
    var t := b.instant;
    ValidFields(cal, b);
    var u := AddYears(cal, t, 1);
    if u.Success? {
      var t2 := u.value;
      AddZero(cal, t2);
      assert GetDayOfMonth(cal, t2) == 1;
      assert t2 == DateToInstant(cal, b.year + 1, 1, 1);
      MonthEnd(cal, b.year, 12);
      assert AddDays(cal, t2, -1) == Success(DateToInstant(cal, b.year, 12, DaysInMonth(cal, b.year, 12)));
    }
  }

  /** `EndOfYear`: the last day of Esfand, 30 in a leap year and 29 otherwise. */
  function EndOfYear(cal: PersianCalendar, d: Date): (r: Result<Date, Exception>)
    requires Valid(cal, d)
    ensures r.Success? <==> d.year < MaxYear
    ensures r.Success? ==>
      && Valid(cal, r.value)
      && r.value.year == d.year && r.value.month == 12
      && r.value.day == (if d.isLeapYear then 30 else 29)
    ensures r.Failure? ==> r.error == ArgumentOutOfRange
  {
    var b := BeginOfYear(cal, d);
    YearOnDayBack(cal, b);
    GotoInstant(cal, b, -1, 0, 1);
    InitAt(cal, d.year, 12, DaysInMonth(cal, d.year, 12));
    Goto(cal, b, -1, 0, 1)
  }

  /** The weekday a valid date stores is its instant's. */
  lemma StoredWeekday(cal: PersianCalendar, x: Date)
    requires Valid(cal, x)
    ensures x.dayOfWeek.Index() == WeekdayIndex(x.instant)
  {
    assert x == Init(cal, x.instant);
  }

  /** A valid date whose instant falls on weekday `w` stores `w`. */
  lemma WeekdayOn(cal: PersianCalendar, x: Date, w: PersianDayOfWeek)
    requires Valid(cal, x) && WeekdayIndex(x.instant) == w.Index()
    ensures x.dayOfWeek == w
  {
    StoredWeekday(cal, x);
    assert PersianDayOfWeekOf(x.dayOfWeek.Index()) == x.dayOfWeek;
    assert PersianDayOfWeekOf(w.Index()) == w;
  }

  /** The step `_goto(this, w - DayOfWeek, 0, 0)` shared by `BeginOfWeek` and
      `EndOfWeek`: to weekday `w` of the same Shanbe-to-Jome week. */
  function ToWeekday(cal: PersianCalendar, d: Date, w: PersianDayOfWeek): (r: Result<Date, Exception>)
    requires Valid(cal, d)
    ensures r.Success? <==> InRange(cal, d.instant + (w.Index() - d.dayOfWeek.Index()))
    ensures r.Success? ==>
      && Valid(cal, r.value) && r.value.dayOfWeek == w
      && r.value.instant == d.instant + (w.Index() - d.dayOfWeek.Index())
    ensures r.Failure? ==> r.error == Argument
  {
    var n := w.Index() - d.dayOfWeek.Index();
    var r := GotoDays(cal, d, n);
    if r.Failure? then r
    else
      WeekdayTo(cal, d, w, r.value);
      r
  }

  /** The date `w.Index() - DayOfWeek` days on from `d` falls on weekday `w`. */
  lemma WeekdayTo(cal: PersianCalendar, d: Date, w: PersianDayOfWeek, x: Date)
    requires Valid(cal, d) && Valid(cal, x)
    requires x.instant == d.instant + (w.Index() - d.dayOfWeek.Index())
    ensures x.dayOfWeek == w
  {
    StoredWeekday(cal, d);
    WeekdayStep(d.instant, w.Index());
    WeekdayOn(cal, x, w);
  }

  /** From instant `t`, `k - WeekdayIndex(t)` days on is weekday `k`. */
  lemma WeekdayStep(t: int, k: int)
    requires 0 <= k < 7
    ensures WeekdayIndex(t + (k - WeekdayIndex(t))) == k
  {
    var a := WeekdayIndex(t);
    WeekdayAdd(t, k - a);
    assert a + (k - a) == k;
  }

  /** `BeginOfWeek`: back to the Saturday (Shanbe) on or before the date. */
  function BeginOfWeek(cal: PersianCalendar, d: Date): (r: Result<Date, Exception>)
    requires Valid(cal, d)
    ensures r.Success? <==> InRange(cal, d.instant - d.dayOfWeek.Index())
    ensures r.Success? ==>
      && Valid(cal, r.value)
      && r.value.dayOfWeek == Shanbe
      && d.instant - 6 <= r.value.instant <= d.instant
    ensures r.Failure? ==> r.error == Argument
  {
    ToWeekday(cal, d, Shanbe)
  }

  /** `EndOfWeek`: on to the Friday (Jome) on or after the date. */
  function EndOfWeek(cal: PersianCalendar, d: Date): (r: Result<Date, Exception>)
    requires Valid(cal, d)
    ensures r.Success? <==> InRange(cal, d.instant + 6 - d.dayOfWeek.Index())
    ensures r.Success? ==>
      && Valid(cal, r.value)
      && r.value.dayOfWeek == Jome
      && d.instant <= r.value.instant <= d.instant + 6
    ensures r.Failure? ==> r.error == Argument
  {
    ToWeekday(cal, d, Jome)
  }

  /** Both ends of a week lie six days apart, around the date. */
  lemma WeekSpan(cal: PersianCalendar, d: Date)
    requires Valid(cal, d)
    requires BeginOfWeek(cal, d).Success? && EndOfWeek(cal, d).Success?
    ensures EndOfWeek(cal, d).value.instant - BeginOfWeek(cal, d).value.instant == 6
  {
  }

  /** The first month of the season of `month`. */
  function FirstMonthOfSeason(month: int): (m: int)
    requires 1 <= month <= 12
    ensures 1 <= m <= month < m + 3 && (m - 1) % 3 == 0
    ensures SeasonOf(m) == SeasonOf(month)
  {
    3 * ((month - 1) / 3) + 1
  }

  /** The third month of a season is in that season, and only winter's is Esfand. */
  lemma SeasonLastMonth(month: int)
    requires 1 <= month <= 12
    ensures SeasonOf(FirstMonthOfSeason(month) + 2) == SeasonOf(month)
    ensures FirstMonthOfSeason(month) < 10 <==> month < 10
  {
  }

  /** `BeginOfSeason` as written: the season table is indexed by `Month` instead of
      `Month - 1`, so months 3, 6 and 9 land on the next season and month 12 is past
      the end of the table. */
  function BeginOfSeasonAsWritten(cal: PersianCalendar, d: Date): (r: Result<Date, Exception>)
    requires Valid(cal, d)
    ensures r.Success? <==> d.month < 12
    ensures r.Success? ==>
      && Valid(cal, r.value)
      && r.value.year == d.year && r.value.month == FirstMonthOfSeason(d.month + 1) && r.value.day == 1
    ensures r.Failure? ==> r.error == IndexOutOfRange
  {
    Constants.FirsOfSeasonTable();
    var copy := Copy(cal, d);
    if d.month < |Constants.FirsOfSeason| then
      Change(cal, copy, None, Some(Constants.FirsOfSeason[d.month]), Some(1))
    else
      Failure(IndexOutOfRange)
  }

  /** `BeginOfSeason`: the first day of the date's season. */
  function BeginOfSeason(cal: PersianCalendar, d: Date): (r: Date)
    requires Valid(cal, d)
    ensures Valid(cal, r)
    ensures r.year == d.year && r.month == FirstMonthOfSeason(d.month) && r.day == 1
    ensures SeasonOf(r.month) == GetSeason(d)
  {
    Constants.FirsOfSeasonTable();
    Change(cal, Copy(cal, d), None, Some(Constants.FirsOfSeason[d.month - 1]), Some(1)).value
  }

  /** The table index as written agrees with the intended one exactly on the months
      that are not the last of their season. */
  lemma BeginOfSeasonAsWrittenAgrees(cal: PersianCalendar, d: Date)
    requires Valid(cal, d)
    ensures BeginOfSeasonAsWritten(cal, d) == Success(BeginOfSeason(cal, d)) <==> d.month % 3 != 0
  {
    var w := BeginOfSeasonAsWritten(cal, d);
    var c := BeginOfSeason(cal, d);
    if d.month < 12 {
      NextSeasonStart(d.month);
      if d.month % 3 != 0 {
        SameTripleSameDate(cal, w.value, c);
      } else {
        assert w.value.month != c.month;
      }
    }
  }

  /** Moving on by a month keeps the season's first month unless the month is the
      last of its season. */
  lemma NextSeasonStart(month: int)
    requires 1 <= month < 12
    ensures FirstMonthOfSeason(month + 1) == FirstMonthOfSeason(month) <==> month % 3 != 0
  {
  }

  /** On the last month of a season, the season begins in the next season. */
  lemma BeginOfSeasonAsWrittenSkips(cal: PersianCalendar, d: Date)
    requires Valid(cal, d) && d.month == 3
    ensures BeginOfSeasonAsWritten(cal, d).Success?
    ensures GetSeason(d) == Spring
    ensures GetSeason(BeginOfSeasonAsWritten(cal, d).value) == Summer
  {
  }

  /** `EndOfSeason`: the last day of the date's season, three months on from
      `BeginOfSeason` and one day back. */
  function EndOfSeason(cal: PersianCalendar, d: Date): (r: Result<Date, Exception>)
    requires Valid(cal, d)
    ensures r.Success? <==> d.month < 10 || d.year < MaxYear
    ensures r.Success? ==>
      && Valid(cal, r.value)
      && r.value.year == d.year && r.value.month == FirstMonthOfSeason(d.month) + 2
      && r.value.day == DaysInMonth(cal, d.year, r.value.month)
      && GetSeason(r.value) == GetSeason(d)
    ensures r.Failure? ==> r.error == ArgumentOutOfRange
  {
    ValidWellFormed(cal, d);
    SeasonLastMonth(d.month);
    LastOfMonths(cal, BeginOfSeason(cal, d), 3)
  }

  /** From the first of a month, `k` months on and one day back: the last day of
      the (k - 1)-th month after it. */
  function LastOfMonths(cal: PersianCalendar, b: Date, k: int): (r: Result<Date, Exception>)
    requires Valid(cal, b) && b.day == 1 && 1 <= k && b.month + k - 1 <= 12
    ensures r.Success? <==> b.month + k <= 12 || b.year < MaxYear
    ensures r.Success? ==>
      && Valid(cal, r.value)
      && r.value.year == b.year && r.value.month == b.month + k - 1
      && r.value.day == DaysInMonth(cal, b.year, b.month + k - 1)
    ensures r.Failure? ==> r.error == ArgumentOutOfRange
  {
    var last := b.month + k - 1;
    MonthsOnDayBack(cal, b, k);
    GotoInstant(cal, b, -1, k, 0);
    var r := Goto(cal, b, -1, k, 0);
    if r.Success? then
      var n := DaysInMonth(cal, b.year, last);
      var t := StepInstant(cal, b.instant, -1, k, 0).value;
      assert t == DateToInstant(cal, b.year, last, n);
      InitAt(cal, b.year, last, n);
      assert r.value.year == Init(cal, t).year;
      r
    else r
  }

  /** `EndOfSeason` as written, on top of `BeginOfSeasonAsWritten`. */
  function EndOfSeasonAsWritten(cal: PersianCalendar, d: Date): (r: Result<Date, Exception>)
    requires Valid(cal, d)
    ensures r.Success? <==> d.month < 9 || (d.month < 12 && d.year < MaxYear)
    ensures r.Success? ==>
      && Valid(cal, r.value)
      && r.value.year == d.year && r.value.month == FirstMonthOfSeason(d.month + 1) + 2
      && r.value.day == DaysInMonth(cal, d.year, r.value.month)
    ensures r.Failure? ==> r.error == IndexOutOfRange || r.error == ArgumentOutOfRange
  {
    match BeginOfSeasonAsWritten(cal, d)
    case Failure(e) => Failure(e)
    case Success(b) =>
      ValidWellFormed(cal, d);
      SeasonLastMonth(d.month + 1);
      LastOfMonths(cal, b, 3)
  }

  /** The constructor applied to a triple known to be valid. */
  function At(cal: PersianCalendar, year: int, month: int, day: int): (r: Date)
    requires IsValidDate(cal, year, month, day)
    ensures Valid(cal, r) && r.year == year && r.month == month && r.day == day
  {
    New(cal, year, month, day).value
  }

  /** `_getBeginOfSeason` as written: Summer begins in month 3. */
  function GetBeginOfSeasonAsWritten(cal: PersianCalendar, d: Date): (r: Date)
    requires Valid(cal, d)
    ensures Valid(cal, r) && r.year == d.year && r.day == 1
    ensures GetSeason(d) != Summer ==> r.month == FirstMonthOfSeason(d.month)
    ensures GetSeason(d) == Summer ==> r.month == 3 && SeasonOf(r.month) == Spring
  {
    match GetSeason(d)
    case Spring => At(cal, d.year, 1, 1)
    case Summer => At(cal, d.year, 3, 1)
    case Autumn => At(cal, d.year, 7, 1)
    case Winter => At(cal, d.year, 10, 1)
  }

  /** `_getBeginOfSeason` with Summer beginning in month 4. */
  function GetBeginOfSeason(cal: PersianCalendar, d: Date): (r: Date)
    requires Valid(cal, d)
    ensures Valid(cal, r) && r.year == d.year && r.day == 1
  {
    match GetSeason(d)
    case Spring => At(cal, d.year, 1, 1)
    case Summer => At(cal, d.year, 4, 1)
    case Autumn => At(cal, d.year, 7, 1)
    case Winter => At(cal, d.year, 10, 1)
  }

  /** The switch on seasons and the season table give the same first day. */
  lemma GetBeginOfSeasonIsBeginOfSeason(cal: PersianCalendar, d: Date)
    requires Valid(cal, d)
    ensures GetBeginOfSeason(cal, d) == BeginOfSeason(cal, d)
  {
    SameTripleSameDate(cal, GetBeginOfSeason(cal, d), BeginOfSeason(cal, d));
  }

  /** `_getEndOfSeason`: the hard-coded last day of each season. */
  function GetEndOfSeason(cal: PersianCalendar, d: Date): (r: Date)
    requires Valid(cal, d)
    ensures Valid(cal, r) && r.year == d.year
  {
    match GetSeason(d)
    case Spring => At(cal, d.year, 3, 31)
    case Summer => At(cal, d.year, 6, 31)
    case Autumn => At(cal, d.year, 9, 30)
    case Winter => At(cal, d.year, 12, if d.isLeapYear then 30 else 29)
  }

  /** The hard-coded season ends are the ones `EndOfSeason` computes. */
  lemma GetEndOfSeasonIsEndOfSeason(cal: PersianCalendar, d: Date)
    requires Valid(cal, d)
    requires EndOfSeason(cal, d).Success?
    ensures GetEndOfSeason(cal, d) == EndOfSeason(cal, d).value
  {
    SameTripleSameDate(cal, GetEndOfSeason(cal, d), EndOfSeason(cal, d).value);
  }
}
