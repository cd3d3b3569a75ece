/** `EqualityComparer`: equality and hashing of dates by year, month and day. */
module Compare {
  import opened Calendar
  import opened PersianDates
  import Enums

  /** `EqualityComparer.Equals(x, y)`: defers to `x.Equals(y)`. */
  function ComparerEquals(x: Date, y: Date): (b: bool)
    ensures b <==> (x.year, x.month, x.day) == (y.year, y.month, y.day)
  {
    Equals(x, y)
  }

  /** `EqualityComparer.GetHashCode(obj)`: `HashCode.Combine` of year, month and day;
      `combine` stands for `HashCode.Combine`. */
  function GetHashCode(combine: (int, int, int) -> int, d: Date): int {
    combine(d.year, d.month, d.day)
  }

  /** The comparer's equality is an equivalence relation. */
  lemma ComparerEquivalence(x: Date, y: Date, z: Date)
    ensures ComparerEquals(x, x)
    ensures ComparerEquals(x, y) ==> ComparerEquals(y, x)
    ensures ComparerEquals(x, y) && ComparerEquals(y, z) ==> ComparerEquals(x, z)
  {
  }

  /** Dates the comparer calls equal hash alike, whatever `HashCode.Combine` does. */
  lemma HashConsistent(combine: (int, int, int) -> int, x: Date, y: Date)
    requires ComparerEquals(x, y)
    ensures GetHashCode(combine, x) == GetHashCode(combine, y)
  {
  }

  /** On dates built by the type's own operations, comparer equality is equality of
      the whole value: the derived fields never tell equal dates apart. */
  lemma ComparerEqualsIsIdentity(cal: PersianCalendar, x: Date, y: Date)
    requires Valid(cal, x) && Valid(cal, y)
    ensures ComparerEquals(x, y) <==> x == y
    ensures ComparerEquals(x, y) <==> x.instant == y.instant
  {
    if ComparerEquals(x, y) {
      SameTripleSameDate(cal, x, y);
    }
    if x.instant == y.instant {
      assert x == Init(cal, x.instant) == y;
    }
  }

  /** `Equals` reads nothing but the year, month and day: dates that differ only in
      their stored derived fields are still equal. */
  lemma EqualsIgnoresDerivedFields(x: Date, instant: int, w: Enums.PersianDayOfWeek, dayOfYear: int, isLeapYear: bool)
    ensures ComparerEquals(x, x.(instant := instant, dayOfWeek := w, dayOfYear := dayOfYear, isLeapYear := isLeapYear))
  {
  }

  /** A date reached by stepping equals the date the constructor builds from its
      year, month and day. */
  lemma SteppedEqualsConstructed(cal: PersianCalendar, d: Date, n: int)
    requires Valid(cal, d) && -0x8000_0000 <= n <= 0x7FFF_FFFF
    requires GotoDays(cal, d, n).Success?
    ensures var e := GotoDays(cal, d, n).value;
      New(cal, e.year, e.month, e.day).Success? && New(cal, e.year, e.month, e.day).value == e
  {
    var e := GotoDays(cal, d, n).value;
    SameTripleSameDate(cal, New(cal, e.year, e.month, e.day).value, e);
  }
}
