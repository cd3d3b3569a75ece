/** The Persian calendar the date type delegates every conversion and every step to
    (`System.Globalization.PersianCalendar`, whose code is not part of this model).
    It is modelled as an abstract calendar:
    - an instant is a day number, counted from 1 Farvardin of year 1 (day 0);
    - months 1..6 have 31 days, months 7..11 have 30, and month 12 has 30 days in a
      leap year and 29 otherwise;
    - which years are leap years is a parameter (`PersianCalendar.isLeapYear`);
    - the supported years are 1..9378. */
module Calendar {
  import opened Wrappers
  import opened Numerals

  const MinYear := 1
  const MaxYear := 9378

  /** .NET weekday number (Sunday = 0) of day 0, 1 Farvardin 1, a Friday. */
  const EpochDayOfWeek := 5

  /** The converter: all it leaves open is its leap-year rule. */
  datatype PersianCalendar = PersianCalendar(isLeapYear: int -> bool)

  /** `System.DayOfWeek`, Sunday = 0. */
  datatype DayOfWeek = Sunday | Monday | Tuesday | Wednesday | Thursday | Friday | Saturday {
    function Index(): (i: int)
      ensures 0 <= i < 7
    {
      match this
      case Sunday => 0
      case Monday => 1
      case Tuesday => 2
      case Wednesday => 3
      case Thursday => 4
      case Friday => 5
      case Saturday => 6
    }
  }

  function DayOfWeekOf(i: int): (w: DayOfWeek)
    requires 0 <= i < 7
    ensures w.Index() == i
  {
    if i == 0 then Sunday
    else if i == 1 then Monday
    else if i == 2 then Tuesday
    else if i == 3 then Wednesday
    else if i == 4 then Thursday
    else if i == 5 then Friday
    else Saturday
  }

  function DaysInYear(cal: PersianCalendar, year: int): int {
    if cal.isLeapYear(year) then 366 else 365
  }

  function DaysInMonth(cal: PersianCalendar, year: int, month: int): (n: int)
    ensures 29 <= n <= 31
  {
    if month <= 6 then 31
    else if month <= 11 then 30
    else if cal.isLeapYear(year) then 30
    else 29
  }

  /** Days of a year that come before the first of `month`. */
  function DaysBeforeMonth(month: int): int {
    if month <= 7 then 31 * (month - 1) else 186 + 30 * (month - 7)
  }

  /** The day number of 1 Farvardin of `year`. */
  function YearStart(cal: PersianCalendar, year: int): int
    requires MinYear <= year
    decreases year
  {
    if year == MinYear then 0 else YearStart(cal, year - 1) + DaysInYear(cal, year - 1)
  }

  /** The last supported instant: the last day of year 9378. */
  function MaxInstant(cal: PersianCalendar): int {
    YearStart(cal, MaxYear + 1) - 1
  }

  predicate InRange(cal: PersianCalendar, t: int) {
    0 <= t <= MaxInstant(cal)
  }

  /** A year, month and day the calendar accepts. */
  predicate IsValidDate(cal: PersianCalendar, year: int, month: int, day: int) {
    && MinYear <= year <= MaxYear
    && 1 <= month <= 12
    && 1 <= day <= DaysInMonth(cal, year, month)
  }

  /** Each year has 365 or 366 days, so year starts grow by that much per year. */
  lemma {:induction false} YearStartGrowth(cal: PersianCalendar, a: int, b: int)
    requires MinYear <= a <= b
    ensures YearStart(cal, a) + 365 * (b - a) <= YearStart(cal, b)
    ensures YearStart(cal, b) <= YearStart(cal, a) + 366 * (b - a)
    decreases b - a
  {
    if a < b {
      YearStartGrowth(cal, a, b - 1);
    }
  }

  /** `ToDateTime(year, month, day, 0, 0, 0, 0)`, as a day number. */
  function DateToInstant(cal: PersianCalendar, year: int, month: int, day: int): (t: int)
    requires IsValidDate(cal, year, month, day)
    ensures InRange(cal, t)
    ensures YearStart(cal, year) <= t < YearStart(cal, year + 1)
  {
    YearStartGrowth(cal, MinYear, year);
    YearStartGrowth(cal, year + 1, MaxYear + 1);
    YearStart(cal, year) + DaysBeforeMonth(month) + day - 1
  }

  /** `ToDateTime`: the instant of a date, or ArgumentOutOfRange for a date the
      calendar does not have. */
  function ToDateTime(cal: PersianCalendar, year: int, month: int, day: int): (r: Result<int, Exception>)
    ensures r.Success? <==> IsValidDate(cal, year, month, day)
    ensures r.Failure? ==> r.error == ArgumentOutOfRange
  {
    if IsValidDate(cal, year, month, day) then Success(DateToInstant(cal, year, month, day))
    else Failure(ArgumentOutOfRange)
  }

  /** The year containing day `t`, searched upwards from `year`. */
  function FindYear(cal: PersianCalendar, t: int, year: int): (y: int)
    requires MinYear <= year && YearStart(cal, year) <= t
    ensures year <= y
    ensures YearStart(cal, y) <= t < YearStart(cal, y + 1)
    decreases t - YearStart(cal, year)
  {
    if t < YearStart(cal, year + 1) then year else FindYear(cal, t, year + 1)
  }

  /** `GetYear`: the year containing instant `t`. */
  function GetYear(cal: PersianCalendar, t: int): (y: int)
    requires InRange(cal, t)
    ensures MinYear <= y <= MaxYear
    ensures YearStart(cal, y) <= t < YearStart(cal, y + 1)
  {
    var y := FindYear(cal, t, MinYear);
    assert y <= MaxYear by {
      if y > MaxYear {
        YearStartGrowth(cal, MaxYear + 1, y);
      }
    }
    y
  }

  /** `GetDayOfYear`: 1 for 1 Farvardin, counting on from the start of the year. */
  function GetDayOfYear(cal: PersianCalendar, t: int): (n: int)
    requires InRange(cal, t)
    ensures 1 <= n <= DaysInYear(cal, GetYear(cal, t))
    ensures YearStart(cal, GetYear(cal, t)) + n - 1 == t
  {
    t - YearStart(cal, GetYear(cal, t)) + 1
  }

  /** The month that day `n` of a year falls in. */
  function MonthOfDayOfYear(n: int): (m: int)
    requires 1 <= n <= 366
    ensures 1 <= m <= 12
    ensures DaysBeforeMonth(m) < n
    ensures m <= 6 ==> n <= DaysBeforeMonth(m) + 31
    ensures 7 <= m ==> n <= DaysBeforeMonth(m) + 30
  {
    if n <= 186 then (n - 1) / 31 + 1 else (n - 187) / 30 + 7
  }

  /** `GetMonth`: the month whose days of the year include the day of `t`. */
  function GetMonth(cal: PersianCalendar, t: int): (m: int)
    requires InRange(cal, t)
    ensures 1 <= m <= 12
    ensures DaysBeforeMonth(m) < GetDayOfYear(cal, t)
    ensures m < 12 ==> GetDayOfYear(cal, t) <= DaysBeforeMonth(m + 1)
  {
    MonthOfDayOfYear(GetDayOfYear(cal, t))
  }

  /** `GetDayOfMonth`: together with `GetYear` and `GetMonth` it names a valid date
      whose instant is `t`. */
  function GetDayOfMonth(cal: PersianCalendar, t: int): (d: int)
    requires InRange(cal, t)
    ensures IsValidDate(cal, GetYear(cal, t), GetMonth(cal, t), d)
    ensures DateToInstant(cal, GetYear(cal, t), GetMonth(cal, t), d) == t
  {
    GetDayOfYear(cal, t) - DaysBeforeMonth(GetMonth(cal, t))
  }

  /** `GetDayOfWeek`: weekdays repeat every seven days from the epoch's Friday. */
  function GetDayOfWeek(t: int): (w: DayOfWeek)
    ensures w.Index() == (t + EpochDayOfWeek) % 7
  {
    DayOfWeekOf((t + EpochDayOfWeek) % 7)
  }

  /** The year of the instant of a date is that date's year. */
  lemma YearOfInstant(cal: PersianCalendar, y: int, t: int)
    requires MinYear <= y && YearStart(cal, y) <= t < YearStart(cal, y + 1)
    requires InRange(cal, t)
    ensures GetYear(cal, t) == y
  {
    var g := GetYear(cal, t);
    if g < y {
      YearStartGrowth(cal, g + 1, y);
    } else if g > y {
      YearStartGrowth(cal, y + 1, g);
    }
  }

  /** Reading back the fields of a date's instant gives the date. */
  lemma InstantToDate(cal: PersianCalendar, year: int, month: int, day: int)
    requires IsValidDate(cal, year, month, day)
    ensures GetYear(cal, DateToInstant(cal, year, month, day)) == year
    ensures GetMonth(cal, DateToInstant(cal, year, month, day)) == month
    ensures GetDayOfMonth(cal, DateToInstant(cal, year, month, day)) == day
  {
    var t := DateToInstant(cal, year, month, day);
    YearOfInstant(cal, year, t);
    assert GetDayOfYear(cal, t) == DaysBeforeMonth(month) + day;
  }

  /** Two valid dates with the same instant are the same date. */
  lemma DateToInstantInjective(cal: PersianCalendar, y1: int, m1: int, d1: int, y2: int, m2: int, d2: int)
    requires IsValidDate(cal, y1, m1, d1) && IsValidDate(cal, y2, m2, d2)
    requires DateToInstant(cal, y1, m1, d1) == DateToInstant(cal, y2, m2, d2)
    ensures y1 == y2 && m1 == m2 && d1 == d2
  {
    InstantToDate(cal, y1, m1, d1);
    InstantToDate(cal, y2, m2, d2);
  }

  function Min(a: int, b: int): int {
    if a <= b then a else b
  }

  /** `Calendar.Add` refuses a step of this many days or more, either way, before
      it looks at the result: the number of days from 1 January 0001 to
      1 January 10000. */
  const MaxDayStep := 3652059

  /** What a failed day step of `n` throws: ArgumentOutOfRange for a step refused
      outright, ArgumentException for one whose result leaves the range. */
  function DayStepError(n: int): Exception {
    if -MaxDayStep < n < MaxDayStep then Argument else ArgumentOutOfRange
  }

  /** `AddDays`, which the Persian calendar inherits from `Calendar.Add`: a step
      of `MaxDayStep` days or more throws ArgumentOutOfRange; a smaller step whose
      result leaves the supported range throws ArgumentException. */
  function AddDays(cal: PersianCalendar, t: int, n: int): (r: Result<int, Exception>)
    requires InRange(cal, t)
    ensures r.Success? <==> InRange(cal, t + n)
    ensures r.Success? ==> r.value == t + n
    ensures r.Failure? ==> r.error == DayStepError(n)
  {
    if n <= -MaxDayStep || MaxDayStep <= n then
      YearStartGrowth(cal, MinYear, MaxYear + 1);
      Failure(ArgumentOutOfRange)
    else if InRange(cal, t + n) then Success(t + n)
    else Failure(Argument)
  }

  /** `AddMonths`: moves the month on by `n` (carrying into the year) and clamps the
      day to the length of the month reached; ArgumentOutOfRange when the year
      reached is not supported. */
  function AddMonths(cal: PersianCalendar, t: int, n: int): (r: Result<int, Exception>)
    requires InRange(cal, t)
    ensures r.Failure? ==> r.error == ArgumentOutOfRange
    ensures r.Success? <==>
      12 * MinYear <= 12 * GetYear(cal, t) + GetMonth(cal, t) - 1 + n <= 12 * MaxYear + 11
    ensures r.Success? ==>
      && InRange(cal, r.value)
      && 12 * GetYear(cal, r.value) + GetMonth(cal, r.value) == 12 * GetYear(cal, t) + GetMonth(cal, t) + n
      && GetDayOfMonth(cal, r.value)
         == Min(GetDayOfMonth(cal, t), DaysInMonth(cal, GetYear(cal, r.value), GetMonth(cal, r.value)))
  {
    var index := 12 * GetYear(cal, t) + GetMonth(cal, t) - 1 + n;
    var year := index / 12;
    var month := index % 12 + 1;
    if year < MinYear || year > MaxYear then Failure(ArgumentOutOfRange)
    else
      var day := Min(GetDayOfMonth(cal, t), DaysInMonth(cal, year, month));
      InstantToDate(cal, year, month, day);
      Success(DateToInstant(cal, year, month, day))
  }

  /** The largest year count whose `years * 12` fits in 32 bits. */
  const MaxYearStep := 178956970

  /** `AddYears`: the library's `AddMonths(time, years * 12)`, the product taken in
      unchecked 32-bit arithmetic. While the product fits, it moves the year on by
      `n`, keeps the month and clamps the day, with ArgumentOutOfRange when the year
      reached is not supported; beyond that it moves by the wrapped month count. */
  function AddYears(cal: PersianCalendar, t: int, n: int): (r: Result<int, Exception>)
    requires InRange(cal, t)
    ensures r.Failure? ==> r.error == ArgumentOutOfRange
    ensures r.Success? <==>
      12 * MinYear <= 12 * GetYear(cal, t) + GetMonth(cal, t) - 1 + Wrap32(12 * n) <= 12 * MaxYear + 11
    ensures r.Success? ==>
      && InRange(cal, r.value)
      && 12 * GetYear(cal, r.value) + GetMonth(cal, r.value) == 12 * GetYear(cal, t) + GetMonth(cal, t) + Wrap32(12 * n)
    ensures -MaxYearStep <= n <= MaxYearStep ==> (r.Success? <==> MinYear <= GetYear(cal, t) + n <= MaxYear)
    ensures -MaxYearStep <= n <= MaxYearStep && r.Success? ==>
      && GetYear(cal, r.value) == GetYear(cal, t) + n
      && GetMonth(cal, r.value) == GetMonth(cal, t)
      && GetDayOfMonth(cal, r.value)
         == Min(GetDayOfMonth(cal, t), DaysInMonth(cal, GetYear(cal, t) + n, GetMonth(cal, t)))
  {
    AddMonths(cal, t, Wrap32(12 * n))
  }

  /** Moving by zero months or zero years leaves the instant where it is. */
  lemma AddZero(cal: PersianCalendar, t: int)
    requires InRange(cal, t)
    ensures AddMonths(cal, t, 0) == Success(t)
    ensures AddYears(cal, t, 0) == Success(t)
  {
    var y, m, d := GetYear(cal, t), GetMonth(cal, t), GetDayOfMonth(cal, t);
    assert (12 * y + m - 1) / 12 == y;
    assert (12 * y + m - 1) % 12 + 1 == m;
  }

  /** The day after the last day of a month is the first day of the next month. */
  lemma MonthEnd(cal: PersianCalendar, year: int, month: int)
    requires MinYear <= year <= MaxYear && 1 <= month <= 12
    requires month < 12 || year < MaxYear
    ensures month < 12 ==>
      DateToInstant(cal, year, month, DaysInMonth(cal, year, month)) + 1 == DateToInstant(cal, year, month + 1, 1)
    ensures month == 12 ==>
      DateToInstant(cal, year, month, DaysInMonth(cal, year, month)) + 1 == DateToInstant(cal, year + 1, 1, 1)
  {
  }
}
