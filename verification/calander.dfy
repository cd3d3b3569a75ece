/** `PersianCalander`: the month grid `_calanderDays` and month/year navigation. */
module Calander {
  import opened Wrappers
  import opened Enums
  import opened Numerals
  import opened Calendar
  import opened PersianDates

  /** `s` holds the valid dates of consecutive days, the first on instant `t`. */
  predicate RunFrom(cal: PersianCalendar, s: seq<Date>, t: int) {
    forall k | 0 <= k < |s| :: Valid(cal, s[k]) && s[k].instant == t + k
  }

  lemma RunConcat(cal: PersianCalendar, a: seq<Date>, b: seq<Date>, t: int)
    requires RunFrom(cal, a, t) && RunFrom(cal, b, t + |a|)
    ensures RunFrom(cal, a + b, t)
  {
    forall k | 0 <= k < |a + b|
      ensures Valid(cal, (a + b)[k]) && (a + b)[k].instant == t + k
    {
      if k >= |a| {
        assert (a + b)[k] == b[k - |a|];
      }
    }
  }

  /** A date followed by a run from the next day is a run. */
  lemma RunCons(cal: PersianCalendar, x: Date, rest: seq<Date>, t: int)
    requires Valid(cal, x) && x.instant == t && RunFrom(cal, rest, t + 1)
    ensures RunFrom(cal, [x] + rest, t)
  {
    RunConcat(cal, [x], rest, t);
  }

  /** The first loop of `_calanderDays`: the `i` days before `b`, for i from the
      count down to 1. */
  function Leading(cal: PersianCalendar, b: Date, i: int): (r: Result<seq<Date>, Exception>)
    requires Valid(cal, b) && i <= 6
    ensures r.Success? <==> i <= 0 || InRange(cal, b.instant - i)
    ensures r.Success? ==> |r.value| == if i <= 0 then 0 else i
    ensures r.Success? ==> RunFrom(cal, r.value, b.instant - i)
    ensures r.Failure? ==> r.error == Argument
    decreases i
  {
    if i <= 0 then Success([])
    else
      match GotoDays(cal, b, -1 * i)
      case Failure(err) => Failure(err)
      case Success(x) =>
        match Leading(cal, b, i - 1)
        case Failure(err) => Failure(err)
        case Success(rest) =>
          RunCons(cal, x, rest, b.instant - i);
          Success([x] + rest)
  }

  /** The second loop: `b` moved on by i days, for i from `b.Day` while below
      `endDay`. */
  function Middle(cal: PersianCalendar, b: Date, i: int, endDay: int): (r: Result<seq<Date>, Exception>)
    requires Valid(cal, b) && 1 <= i && endDay <= 31
    ensures r.Success? <==> i >= endDay || InRange(cal, b.instant + endDay - 1)
    ensures r.Success? ==> |r.value| == if i >= endDay then 0 else endDay - i
    ensures r.Success? ==> RunFrom(cal, r.value, b.instant + i)
    ensures r.Failure? ==> r.error == Argument
    decreases endDay - i
  {
    if i >= endDay then Success([])
    else
      match GotoDays(cal, b, i)
      case Failure(err) => Failure(err)
      case Success(x) =>
        match Middle(cal, b, i + 1, endDay)
        case Failure(err) => Failure(err)
        case Success(rest) =>
          RunCons(cal, x, rest, b.instant + i);
          Success([x] + rest)
  }

  /** The third loop: `e` moved on by i days, for i from 1 up to the count. */
  function Trailing(cal: PersianCalendar, e: Date, i: int, finish: int): (r: Result<seq<Date>, Exception>)
    requires Valid(cal, e) && 1 <= i && finish <= 6
    ensures r.Success? <==> i > finish || InRange(cal, e.instant + finish)
    ensures r.Success? ==> |r.value| == if i > finish then 0 else finish - i + 1
    ensures r.Success? ==> RunFrom(cal, r.value, e.instant + i)
    ensures r.Failure? ==> r.error == Argument
    decreases finish - i + 1
  {
    if i > finish then Success([])
    else
      match GotoDays(cal, e, i)
      case Failure(err) => Failure(err)
      case Success(x) =>
        match Trailing(cal, e, i + 1, finish)
        case Failure(err) => Failure(err)
        case Success(rest) =>
          RunCons(cal, x, rest, e.instant + i);
          Success([x] + rest)
  }

  /** The instant of the first of `d`'s month. */
  function FirstOfMonth(d: Date): int {
    d.instant - (d.day - 1)
  }

  /** The instant of the first cell of the grid of `d`'s month: the Saturday on or
      before the first of the month. */
  function GridStart(d: Date): int {
    FirstOfMonth(d) - (WeekdayIndex(FirstOfMonth(d)) - Shanbe.Index())
  }

  /** The instant of the last cell: the Friday on or after the month's last day. */
  function GridEnd(cal: PersianCalendar, d: Date): int {
    var last := FirstOfMonth(d) + DaysInMonth(cal, d.year, d.month) - 1;
    last + (Jome.Index() - WeekdayIndex(last))
  }

  /** The first of the month, the second loop and the third loop. */
  function MonthAndTrailing(cal: PersianCalendar, b: Date, e: Date): (r: Result<seq<Date>, Exception>)
    requires Valid(cal, b) && Valid(cal, e) && b.day == 1
    requires e.instant == b.instant + e.day - 1 && 1 <= e.day <= 31
    ensures r.Success? <==> InRange(cal, e.instant + 6 - e.dayOfWeek.Index())
    ensures r.Success? ==> |r.value| == e.day + 6 - e.dayOfWeek.Index()
    ensures r.Success? ==> RunFrom(cal, r.value, b.instant)
    ensures r.Failure? ==> r.error == Argument
  {
    var finish := Jome.Index() - e.dayOfWeek.Index();
    assert 0 <= finish <= 6 && InRange(cal, b.instant + e.day - 1);
    var mid := Middle(cal, b, b.day, e.day);
    var trail := Trailing(cal, e, 1, finish);
    if trail.Failure? then Failure(trail.error)
    else
      RunConcat(cal, [b], mid.value, b.instant);
      RunConcat(cal, [b] + mid.value, trail.value, b.instant);
      Success([b] + mid.value + trail.value)
  }

  /** The three loops run from the first and the last of a month. */
  function Assemble(cal: PersianCalendar, b: Date, e: Date): (r: Result<seq<Date>, Exception>)
    requires Valid(cal, b) && Valid(cal, e) && b.day == 1
    requires e.instant == b.instant + e.day - 1 && 1 <= e.day <= 31
    ensures r.Success? <==>
      InRange(cal, b.instant - b.dayOfWeek.Index()) && InRange(cal, e.instant + 6 - e.dayOfWeek.Index())
    ensures r.Success? ==> |r.value| == b.dayOfWeek.Index() + e.day + 6 - e.dayOfWeek.Index()
    ensures r.Success? ==> RunFrom(cal, r.value, b.instant - b.dayOfWeek.Index())
    ensures r.Failure? ==> r.error == Argument
  {
    var start := b.dayOfWeek.Index() - Shanbe.Index();
    assert start == b.dayOfWeek.Index() && InRange(cal, b.instant);
    match Leading(cal, b, start)
    case Failure(err) => Failure(err)
    case Success(lead) =>
      match MonthAndTrailing(cal, b, e)
      case Failure(err) => Failure(err)
      case Success(rest) =>
        RunConcat(cal, lead, rest, b.instant - start);
        Success(lead + rest)
  }

  /** `_calanderDays(date)`: the leading days of the previous month, the whole
      month, and the trailing days of the next month, as the three loops add them. */
  function CalanderDays(cal: PersianCalendar, d: Date): (r: Result<seq<Date>, Exception>)
    requires Valid(cal, d)
    ensures r.Success? <==>
      && (d.month < 12 || d.year < MaxYear)
      && InRange(cal, GridStart(d))
      && InRange(cal, GridEnd(cal, d))
    ensures r.Success? ==> |r.value| == GridEnd(cal, d) - GridStart(d) + 1
    ensures r.Success? ==> RunFrom(cal, r.value, GridStart(d))
    ensures r.Failure? ==> r.error == (if d.month < 12 || d.year < MaxYear then Argument else ArgumentOutOfRange)
  {
    var b := BeginOfMonth(cal, d);
    var last := EndOfMonth(cal, d);
    if last.Failure? then Failure(last.error)
    else MonthGrid(cal, d, b, last.value)
  }

  /** `b` and `e` are the first and the last day of `d`'s month. */
  predicate FirstAndLast(cal: PersianCalendar, d: Date, b: Date, e: Date) {
    && Valid(cal, d) && Valid(cal, b) && Valid(cal, e)
    && b.year == d.year && b.month == d.month && b.day == 1
    && b.instant == FirstOfMonth(d)
    && e.year == d.year && e.month == d.month && e.day == DaysInMonth(cal, d.year, d.month)
  }

  /** The grid built from the first and the last day of `d`'s month. */
  function MonthGrid(cal: PersianCalendar, d: Date, b: Date, e: Date): (r: Result<seq<Date>, Exception>)
    requires FirstAndLast(cal, d, b, e)
    ensures r.Success? <==> InRange(cal, GridStart(d)) && InRange(cal, GridEnd(cal, d))
    ensures r.Success? ==> |r.value| == GridEnd(cal, d) - GridStart(d) + 1
    ensures r.Success? ==> RunFrom(cal, r.value, GridStart(d))
    ensures r.Failure? ==> r.error == Argument
  {
    GridBounds(cal, d, b, e);
    Assemble(cal, b, e)
  }

  /** The first and the last of `d`'s month fix the grid's bounds. */
  lemma GridBounds(cal: PersianCalendar, d: Date, b: Date, e: Date)
    requires FirstAndLast(cal, d, b, e)
    ensures e.instant == b.instant + e.day - 1 && 1 <= e.day <= 31
    ensures b.instant - b.dayOfWeek.Index() == GridStart(d)
    ensures e.instant + 6 - e.dayOfWeek.Index() == GridEnd(cal, d)
  {
    LastOfMonth(cal, d, b, e);
    assert b.dayOfWeek.Index() == WeekdayIndex(b.instant) by {
      assert b == Init(cal, b.instant);
    }
    assert e.dayOfWeek.Index() == WeekdayIndex(e.instant) by {
      assert e == Init(cal, e.instant);
    }
  }

  /** The last day of a month lies `DaysInMonth - 1` days after its first. */
  lemma LastOfMonth(cal: PersianCalendar, d: Date, b: Date, e: Date)
    requires FirstAndLast(cal, d, b, e)
    ensures e.instant == b.instant + e.day - 1
  {
    InitFields(cal, e.instant);
    InitFields(cal, b.instant);
  }

  /** Two runs from the same instant with the same length are the same dates. */
  lemma {:induction false} RunUnique(cal: PersianCalendar, a: seq<Date>, b: seq<Date>, t: int)
    requires RunFrom(cal, a, t) && RunFrom(cal, b, t) && |a| == |b|
    ensures a == b
  {
    forall k | 0 <= k < |a|
      ensures a[k] == b[k]
    {
      assert Valid(cal, a[k]) && Valid(cal, b[k]) && a[k].instant == b[k].instant;
    }
  }

  /** The grid's weekday columns: it starts on a Saturday and ends on a Friday. */
  lemma GridWeekdays(cal: PersianCalendar, d: Date)
    requires Valid(cal, d)
    ensures WeekdayIndex(GridStart(d)) == Shanbe.Index()
    ensures WeekdayIndex(GridEnd(cal, d)) == Jome.Index()
  {
    var f := FirstOfMonth(d);
    WeekdayAdd(f, -WeekdayIndex(f));
    var l := f + DaysInMonth(cal, d.year, d.month) - 1;
    WeekdayAdd(l, 6 - WeekdayIndex(l));
  }

  /** The grid is five or six whole weeks. */
  lemma GridWeeks(cal: PersianCalendar, d: Date)
    requires Valid(cal, d)
    ensures GridEnd(cal, d) - GridStart(d) + 1 in {35, 42}
  {
    var f := FirstOfMonth(d);
    var n := DaysInMonth(cal, d.year, d.month);
    var a := WeekdayIndex(f) + n - 1;
    WeekdayAdd(f, n - 1);
    assert WeekdayIndex(f + n - 1) == a % 7;
    assert GridEnd(cal, d) - GridStart(d) + 1 == 7 + 7 * (a / 7);
    assert 28 <= a <= 36;
  }


  /** A run spanning the grid of `d`'s month. */
  predicate IsGrid(cal: PersianCalendar, d: Date, g: seq<Date>)
    requires Valid(cal, d)
  {
    RunFrom(cal, g, GridStart(d)) && |g| == GridEnd(cal, d) - GridStart(d) + 1
  }

  lemma GridShapeOf(cal: PersianCalendar, d: Date, g: seq<Date>)
    requires Valid(cal, d) && IsGrid(cal, d, g)
    ensures |g| in {35, 42}
    ensures g[0].dayOfWeek == Shanbe && g[|g| - 1].dayOfWeek == Jome
  {
    GridWeeks(cal, d);
    GridWeekdays(cal, d);
    assert g[0].instant == GridStart(d);
    WeekdayOn(cal, g[0], Shanbe);
    assert g[|g| - 1].instant == GridEnd(cal, d);
    WeekdayOn(cal, g[|g| - 1], Jome);
  }


  /** The shape of every grid `_calanderDays` returns: five or six whole weeks from
      a Shanbe to a Jome. */
  lemma GridShape(cal: PersianCalendar, d: Date)
    requires Valid(cal, d) && CalanderDays(cal, d).Success?
    ensures var g := CalanderDays(cal, d).value;
      && |g| in {35, 42}
      && g[0].dayOfWeek == Shanbe
      && g[|g| - 1].dayOfWeek == Jome
  {
    GridShapeOf(cal, d, CalanderDays(cal, d).value);
  }

  lemma GridMonthOf(cal: PersianCalendar, d: Date, g: seq<Date>, k: int)
    requires Valid(cal, d) && IsGrid(cal, d, g) && 0 <= k < |g|
    ensures var lead := WeekdayIndex(FirstOfMonth(d));
      && (g[k].year == d.year && g[k].month == d.month
          <==> lead <= k < lead + DaysInMonth(cal, d.year, d.month))
      && (lead <= k < lead + DaysInMonth(cal, d.year, d.month) ==> g[k].day == k - lead + 1)
  {
    assert FirstOfMonth(d) == DateToInstant(cal, d.year, d.month, 1) by {
      assert d == Init(cal, d.instant);
    }
    assert g[k].instant == FirstOfMonth(d) - WeekdayIndex(FirstOfMonth(d)) + k;
    MonthMembership(cal, d.year, d.month, g[k]);
  }

  /** A valid date lies in month `m` of year `y` exactly when its instant is one of
      that month's days, and then its day is the offset from the first plus one. */
  lemma MonthMembership(cal: PersianCalendar, y: int, m: int, x: Date)
    requires IsValidDate(cal, y, m, 1) && Valid(cal, x)
    ensures var k := x.instant - DateToInstant(cal, y, m, 1);
      && (x.year == y && x.month == m <==> 0 <= k < DaysInMonth(cal, y, m))
      && (0 <= k < DaysInMonth(cal, y, m) ==> x.day == k + 1)
  {
    var k := x.instant - DateToInstant(cal, y, m, 1);
    assert x == Init(cal, x.instant);
    if 0 <= k < DaysInMonth(cal, y, m) {
      assert x.instant == DateToInstant(cal, y, m, k + 1);
      InitAt(cal, y, m, k + 1);
    }
  }


  /** The cells of the grid that lie in the date's own month are exactly the days
      1 to `DaysInMonth`, in order, starting in the column of the first's weekday. */
  lemma GridMonth(cal: PersianCalendar, d: Date, k: int)
    requires Valid(cal, d) && CalanderDays(cal, d).Success?
    requires 0 <= k < |CalanderDays(cal, d).value|
    ensures var g := CalanderDays(cal, d).value;
      var lead := WeekdayIndex(FirstOfMonth(d));
      && (g[k].year == d.year && g[k].month == d.month
          <==> lead <= k < lead + DaysInMonth(cal, d.year, d.month))
      && (lead <= k < lead + DaysInMonth(cal, d.year, d.month) ==> g[k].day == k - lead + 1)
  {
    GridMonthOf(cal, d, CalanderDays(cal, d).value, k);
  }

  /** The grid depends only on the month: every date of a month yields the same
      grid as its first day. */
  lemma GridOfMonth(cal: PersianCalendar, d: Date)
    requires Valid(cal, d)
    ensures CalanderDays(cal, d) == CalanderDays(cal, BeginOfMonth(cal, d))
  {
    var b := BeginOfMonth(cal, d);
    assert FirstOfMonth(b) == FirstOfMonth(d);
    if CalanderDays(cal, d).Success? {
      RunUnique(cal, CalanderDays(cal, d).value, CalanderDays(cal, b).value, GridStart(d));
    }
  }

  /** A month has its grid exactly when it is neither Farvardin of year 1, whose
      leading days fall before the calendar starts, nor Esfand of year `MaxYear`,
      which has no month after it for `EndOfMonth` to step to. */
  lemma GridExists(cal: PersianCalendar, d: Date)
    requires Valid(cal, d)
    ensures CalanderDays(cal, d).Success? <==> 12 * MinYear < MonthIndex(d) < 12 * MaxYear + 11
  {
    ValidWellFormed(cal, d);
    if 12 * MinYear < MonthIndex(d) < 12 * MaxYear + 11 {
      GridInRange(cal, d);
    } else if d.month < 12 {
      FirstMonthStart(cal, d);
    }
  }

  lemma GridInRange(cal: PersianCalendar, d: Date)
    requires Valid(cal, d) && 12 * MinYear < MonthIndex(d) < 12 * MaxYear + 11
    ensures InRange(cal, GridStart(d)) && InRange(cal, GridEnd(cal, d))
  {
    ValidFields(cal, d);
    assert d.instant == DateToInstant(cal, d.year, d.month, d.day);
    YearStartGrowth(cal, MinYear, d.year);
    YearStartGrowth(cal, d.year + 1, MaxYear + 1);
    MonthSpan(cal, d.year, d.month, FirstOfMonth(d));
  }

  /** Outside Farvardin 1, the first of a month lies six days or more into the
      calendar; outside Esfand 9378, the last of a month lies six days or more
      before its end. */
  lemma MonthSpan(cal: PersianCalendar, year: int, month: int, f: int)
    requires MinYear <= year <= MaxYear && 1 <= month <= 12
    requires 12 * MinYear < 12 * year + month - 1 < 12 * MaxYear + 11
    requires f == YearStart(cal, year) + DaysBeforeMonth(month)
    ensures 6 <= f
    ensures f + DaysInMonth(cal, year, month) - 1 + 6 <= MaxInstant(cal)
  {
    YearStartGrowth(cal, MinYear, year);
    YearStartGrowth(cal, year, year + 1);
    YearStartGrowth(cal, year + 1, MaxYear + 1);
  }

  /** Every date of Farvardin 1 has its month start at instant 0, a Jome. */
  lemma FirstMonthStart(cal: PersianCalendar, d: Date)
    requires Valid(cal, d) && d.year == MinYear && d.month == 1
    ensures FirstOfMonth(d) == 0 && GridStart(d) < 0
  {
    ValidFields(cal, d);
    assert d.instant == DateToInstant(cal, MinYear, 1, d.day);
  }

  /** The first month of year 1 has no grid: 1 Farvardin 1 is a Jome, and the six
      days before it are out of range. */
  lemma FirstMonthHasNoGrid(cal: PersianCalendar)
    ensures InRange(cal, 0)
    ensures Init(cal, 0).dayOfWeek == Jome
    ensures CalanderDays(cal, Init(cal, 0)).Failure?
  {
    YearStartGrowth(cal, MinYear, MaxYear + 1);
    StoredWeekday(cal, Init(cal, 0));
  }

  /** Two dates of the same month have the same grid. */
  lemma {:induction false} SameMonthSameGrid(cal: PersianCalendar, d: Date, e: Date, g: seq<Date>, h: seq<Date>)
    requires Valid(cal, d) && Valid(cal, e) && d.year == e.year && d.month == e.month
    requires IsGrid(cal, d, g) && IsGrid(cal, e, h)
    ensures g == h
  {
    assert FirstOfMonth(d) == DateToInstant(cal, d.year, d.month, 1) by {
      assert d == Init(cal, d.instant);
    }
    assert FirstOfMonth(e) == DateToInstant(cal, e.year, e.month, 1) by {
      assert e == Init(cal, e.instant);
    }
    RunUnique(cal, g, h, GridStart(d));
  }

  /** The state of a `PersianCalander`: the selected date and the grid on show. */
  datatype Calander = Calander(selectedDate: Date, dates: seq<Date>)

  /** A state whose grid is the grid of its selected date's month. */
  predicate Shows(cal: PersianCalendar, c: Calander) {
    Valid(cal, c.selectedDate) && IsGrid(cal, c.selectedDate, c.dates)
  }

  /** The state a navigation call leaves, and the exception it throws, if any. A
      throw does not undo the assignments made before it. */
  datatype Outcome = Outcome(state: Calander, thrown: Option<Exception>)

  /** The month index of a date: months since the start of year 0. */
  function MonthIndex(d: Date): int {
    12 * d.year + d.month - 1
  }

  /** The body `NextMonth` and `PreviousMonth` share: move the selection by `n`
      months, clamped to the length of the month reached, then rebuild the grid
      around it. When the move is out of range nothing changes; when only the grid
      is, the selection has moved but the grid has not. */
  function MoveMonths(cal: PersianCalendar, c: Calander, n: Int32): (r: Outcome)
    requires Valid(cal, c.selectedDate)
    ensures Valid(cal, r.state.selectedDate) && WellFormed(r.state.selectedDate)
    ensures !(12 * MinYear <= MonthIndex(c.selectedDate) + n <= 12 * MaxYear + 11) ==>
      r == Outcome(c, Some(ArgumentOutOfRange))
    ensures 12 * MinYear <= MonthIndex(c.selectedDate) + n <= 12 * MaxYear + 11 ==>
      && MonthIndex(r.state.selectedDate) == MonthIndex(c.selectedDate) + n
      && r.state.selectedDate.day
         == Min(c.selectedDate.day, DaysInMonth(cal, r.state.selectedDate.year, r.state.selectedDate.month))
    ensures r.thrown.None? ==> Shows(cal, r.state)
    ensures r.thrown.Some? <==> !(12 * MinYear < MonthIndex(c.selectedDate) + n < 12 * MaxYear + 11)
    ensures r.thrown.Some? ==>
      && r.state.dates == c.dates
      && r.thrown.value == if MonthIndex(c.selectedDate) + n == 12 * MinYear then Argument else ArgumentOutOfRange
  {
    match GotoMonths(cal, c.selectedDate, n)
    case Failure(err) => Outcome(c, Some(err))
    case Success(s) =>
      GridExists(cal, s);
      match CalanderDays(cal, s)
      case Failure(err) => Outcome(c.(selectedDate := s), Some(err))
      case Success(g) => Outcome(Calander(s, g), None)
  }

  /** `NextMonth`: one month on. */
  function NextMonth(cal: PersianCalendar, c: Calander): (r: Outcome)
    requires Valid(cal, c.selectedDate)
    ensures MonthIndex(c.selectedDate) < 12 * MaxYear + 11 ==>
      MonthIndex(r.state.selectedDate) == MonthIndex(c.selectedDate) + 1
    ensures MonthIndex(c.selectedDate) == 12 * MaxYear + 11 ==> r == Outcome(c, Some(ArgumentOutOfRange))
    ensures r.thrown.None? ==> Shows(cal, r.state)
    ensures r.thrown.Some? <==> MonthIndex(c.selectedDate) >= 12 * MaxYear + 10
    ensures r.thrown.Some? ==> r.thrown.value == ArgumentOutOfRange && r.state.dates == c.dates
  {
    ValidWellFormed(cal, c.selectedDate);
    MoveMonths(cal, c, 1)
  }

  /** `PreviousMonth` as written: it moves by +1, one month ON, like `NextMonth`. */
  function PreviousMonthAsWritten(cal: PersianCalendar, c: Calander): (r: Outcome)
    requires Valid(cal, c.selectedDate)
    ensures MonthIndex(c.selectedDate) < 12 * MaxYear + 11 ==>
      MonthIndex(r.state.selectedDate) == MonthIndex(c.selectedDate) + 1
    ensures r.thrown.None? ==> Shows(cal, r.state)
    ensures r.thrown.Some? <==> MonthIndex(c.selectedDate) >= 12 * MaxYear + 10
  {
    ValidWellFormed(cal, c.selectedDate);
    MoveMonths(cal, c, 1)
  }

  /** The as-written `PreviousMonth` never goes back: from any month but the last
      it reaches the next month, exactly as `NextMonth` does. */
  lemma PreviousMonthAsWrittenGoesForward(cal: PersianCalendar, c: Calander)
    requires Valid(cal, c.selectedDate) && MonthIndex(c.selectedDate) < 12 * MaxYear + 11
    ensures MonthIndex(PreviousMonthAsWritten(cal, c).state.selectedDate) > MonthIndex(c.selectedDate)
    ensures PreviousMonthAsWritten(cal, c) == NextMonth(cal, c)
  {
  }

  /** `PreviousMonth` as intended: one month back. */
  function PreviousMonth(cal: PersianCalendar, c: Calander): (r: Outcome)
    requires Valid(cal, c.selectedDate)
    ensures MonthIndex(c.selectedDate) > 12 * MinYear ==>
      MonthIndex(r.state.selectedDate) == MonthIndex(c.selectedDate) - 1
    ensures MonthIndex(c.selectedDate) == 12 * MinYear ==> r == Outcome(c, Some(ArgumentOutOfRange))
    ensures r.thrown.None? ==> Shows(cal, r.state)
    ensures r.thrown.Some? <==> MonthIndex(c.selectedDate) <= 12 * MinYear + 1
    ensures MonthIndex(c.selectedDate) == 12 * MinYear + 1 ==>
      r.thrown == Some(Argument) && r.state.dates == c.dates
  {
    ValidWellFormed(cal, c.selectedDate);
    MoveMonths(cal, c, -1)
  }

  /** `NextMonth` undoes `PreviousMonth`: back to the same month, showing the same
      grid as before. */
  lemma NextMonthUndoesPreviousMonth(cal: PersianCalendar, c: Calander)
    requires Shows(cal, c)
    requires PreviousMonth(cal, c).thrown.None?
    requires NextMonth(cal, PreviousMonth(cal, c).state).thrown.None?
    ensures var r := NextMonth(cal, PreviousMonth(cal, c).state).state;
      && r.selectedDate.year == c.selectedDate.year
      && r.selectedDate.month == c.selectedDate.month
      && r.dates == c.dates
  {
    var p := PreviousMonth(cal, c);
    var q := NextMonth(cal, p.state);
    assert MonthIndex(q.state.selectedDate) == MonthIndex(c.selectedDate);
    SameMonthIndex(cal, q.state, c);
  }

  /** Two states showing dates with the same month index show the same month and
      the same grid. */
  lemma SameMonthIndex(cal: PersianCalendar, s: Calander, c: Calander)
    requires Shows(cal, s) && Shows(cal, c)
    requires MonthIndex(s.selectedDate) == MonthIndex(c.selectedDate)
    ensures s.selectedDate.year == c.selectedDate.year && s.selectedDate.month == c.selectedDate.month
    ensures s.dates == c.dates
  {
    ValidWellFormed(cal, c.selectedDate);
    ValidWellFormed(cal, s.selectedDate);
    SameMonthSameGrid(cal, s.selectedDate, c.selectedDate, s.dates, c.dates);
  }



  /** `NextYear`: the selection moves one year on, in the same month; the grid is
      not rebuilt. Out of range, nothing changes. */
  function NextYear(cal: PersianCalendar, c: Calander): (r: Outcome)
    requires Valid(cal, c.selectedDate)
    ensures Valid(cal, r.state.selectedDate) && r.state.dates == c.dates
    ensures c.selectedDate.year < MaxYear ==>
      && r.thrown.None?
      && r.state.selectedDate.year == c.selectedDate.year + 1
      && r.state.selectedDate.month == c.selectedDate.month
      && r.state.selectedDate.day
         == Min(c.selectedDate.day, DaysInMonth(cal, c.selectedDate.year + 1, c.selectedDate.month))
    ensures c.selectedDate.year >= MaxYear ==> r == Outcome(c, Some(ArgumentOutOfRange))
  {
    OneYearOnRange(cal, c.selectedDate, 1);
    OneYearOnYearMonth(cal, c.selectedDate, 1);
    OneYearOnMonthRange(cal, c.selectedDate, 1);
    OneYearOnDay(cal, c.selectedDate, 1);
    var g := GotoYears(cal, c.selectedDate, 1);
    if g.Failure? then Outcome(c, Some(g.error))
    else Outcome(Calander(g.value, c.dates), None)
  }

  /** A one-year step throws, with ArgumentOutOfRange, only from `MaxYear`. */
  lemma OneYearOnRange(cal: PersianCalendar, d: Date, n: Int32)
    requires Valid(cal, d) && n == 1
    ensures GotoYears(cal, d, n).Success? <==> d.year < MaxYear
    ensures GotoYears(cal, d, n).Failure? ==> GotoYears(cal, d, n).error == ArgumentOutOfRange
  {
  }

  /** A one-year step moves the year on and keeps the month. */
  lemma OneYearOnYearMonth(cal: PersianCalendar, d: Date, n: Int32)
    requires Valid(cal, d) && n == 1
    ensures GotoYears(cal, d, n).Success? ==>
      GotoYears(cal, d, n).value.year == d.year + 1 && GotoYears(cal, d, n).value.month == d.month
  {
  }

  /** A one-year step that succeeds starts from one of the twelve months. */
  lemma OneYearOnMonthRange(cal: PersianCalendar, d: Date, n: Int32)
    requires Valid(cal, d) && n == 1
    ensures GotoYears(cal, d, n).Success? ==> 1 <= d.month <= 12
  {
    ValidWellFormed(cal, d);
  }

  /** A one-year step clamps the day to the month's length in the next year. */
  lemma OneYearOnDay(cal: PersianCalendar, d: Date, n: Int32)
    requires Valid(cal, d) && n == 1
    ensures GotoYears(cal, d, n).Success? ==>
      GotoYears(cal, d, n).value.day == Min(d.day, DaysInMonth(cal, d.year + 1, d.month))
  {
  }

  /** After `NextYear` the grid on show is no longer the selected date's. */
  lemma NextYearLeavesGridBehind(cal: PersianCalendar, c: Calander)
    requires Shows(cal, c) && NextYear(cal, c).thrown.None?
    ensures !Shows(cal, NextYear(cal, c).state)
  {
    var d := c.selectedDate;
    var s := NextYear(cal, c).state.selectedDate;
    GridWeeks(cal, d);
    assert c.dates[0].instant == GridStart(d);
    LaterYearLaterGrid(cal, d, s);
  }

  /** The grid of a month a year on starts later. */
  lemma LaterYearLaterGrid(cal: PersianCalendar, d: Date, s: Date)
    requires Valid(cal, d) && Valid(cal, s) && s.year == d.year + 1 && s.month == d.month
    ensures GridStart(d) < GridStart(s)
  {
    assert FirstOfMonth(d) == DateToInstant(cal, d.year, d.month, 1) by {
      assert d == Init(cal, d.instant);
    }
    assert FirstOfMonth(s) == DateToInstant(cal, s.year, s.month, 1) by {
      assert s == Init(cal, s.instant);
    }
    YearStartGrowth(cal, d.year, s.year);
  }
}
