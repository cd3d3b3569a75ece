/** Holiday classification (`_holiday`): a date is a holiday when some table entry
    names its month and day, or names its weekday. */
module Holidays {
  import opened Wrappers
  import opened Enums
  import opened Constants
  import Strings

  /** `Environment.NewLine`, taken as one fixed separator. */
  const NewLine := "\n"

  /** The filter of `_holiday`: same month and day, or a weekday that is present and equal. */
  predicate Matches(h: HolidayDate, month: int, day: int, dayOfWeek: PersianDayOfWeek) {
    (h.month == month && h.day == day) || h.dayOfWeek == Some(dayOfWeek)
  }

  /** Some entry of the table matches the date. */
  predicate Listed(table: seq<HolidayDate>, month: int, day: int, dayOfWeek: PersianDayOfWeek) {
    exists i | 0 <= i < |table| :: Matches(table[i], month, day, dayOfWeek)
  }

  /** The matching entries, in table order. */
  function Matching(table: seq<HolidayDate>, month: int, day: int, dayOfWeek: PersianDayOfWeek): (r: seq<HolidayDate>)
    ensures forall h :: h in r <==> h in table && Matches(h, month, day, dayOfWeek)
    decreases |table|
  {
    if |table| == 0 then []
    else
      (if Matches(table[0], month, day, dayOfWeek) then [table[0]] else [])
      + Matching(table[1..], month, day, dayOfWeek)
  }

  function Descriptions(hs: seq<HolidayDate>): (r: seq<string>)
    ensures |r| == |hs|
    ensures forall i | 0 <= i < |hs| :: r[i] == hs[i].description
  {
    seq(|hs|, i requires 0 <= i < |hs| => hs[i].description)
  }

  /** `_holiday`: whether the date is a holiday, and the descriptions of all the
      entries that make it one, one per line ("" when there are none). The date code
      passes the shipped table, `Constants.Holiday`. */
  function HolidayOf(table: seq<HolidayDate>, month: int, day: int, dayOfWeek: PersianDayOfWeek): (r: (bool, string))
    ensures r.0 <==> Listed(table, month, day, dayOfWeek)
    ensures !r.0 ==> r.1 == ""
  {
    var result := Matching(table, month, day, dayOfWeek);
    assert result != [] ==> result[0] in result;
    (|result| > 0, if |result| > 0 then Strings.Join(NewLine, Descriptions(result)) else "")
  }

  /** Entries with no weekday and pairwise distinct dates. */
  predicate FixedDistinct(table: seq<HolidayDate>) {
    && (forall i | 0 <= i < |table| :: table[i].dayOfWeek == None)
    && (forall i, j | 0 <= i < j < |table| ::
          (table[i].month, table[i].day) != (table[j].month, table[j].day))
  }

  /** No entry matches, so nothing is selected. */
  lemma {:induction false} MatchingNone(table: seq<HolidayDate>, month: int, day: int, dayOfWeek: PersianDayOfWeek)
    requires forall h | h in table :: !Matches(h, month, day, dayOfWeek)
    ensures Matching(table, month, day, dayOfWeek) == []
    decreases |table|
  {
    if |table| > 0 {
      assert forall h | h in table[1..] :: h in table;
      MatchingNone(table[1..], month, day, dayOfWeek);
    }
  }

  /** In such a table, the entry with a given date is the only one that matches it. */
  lemma {:induction false} OnlyMatch(table: seq<HolidayDate>, k: int, month: int, day: int, dayOfWeek: PersianDayOfWeek)
    requires FixedDistinct(table)
    requires 0 <= k < |table| && table[k].month == month && table[k].day == day
    ensures Matching(table, month, day, dayOfWeek) == [table[k]]
    decreases |table|
  {
    var rest := table[1..];
    assert FixedDistinct(rest) by {
      forall i, j | 0 <= i < j < |rest|
        ensures (rest[i].month, rest[i].day) != (rest[j].month, rest[j].day)
      {
        assert rest[i] == table[i + 1] && rest[j] == table[j + 1];
      }
    }
    if k == 0 {
      var tail := Matching(rest, month, day, dayOfWeek);
      forall h | h in rest
        ensures !Matches(h, month, day, dayOfWeek)
      {
        var i :| 0 <= i < |rest| && rest[i] == h;
        assert table[i + 1] == h;
      }
      MatchingNone(rest, month, day, dayOfWeek);
      assert table == [table[0]] + rest;
    } else {
      assert !Matches(table[0], month, day, dayOfWeek);
      OnlyMatch(rest, k - 1, month, day, dayOfWeek);
    }
  }

  /** In a table of distinct fixed dates, a date is a holiday exactly when its month
      and day are in the table, and the description is that one entry's. */
  lemma HolidayOfFixedDistinct(table: seq<HolidayDate>, month: int, day: int, dayOfWeek: PersianDayOfWeek)
    requires FixedDistinct(table)
    ensures HolidayOf(table, month, day, dayOfWeek).0 <==>
      exists i | 0 <= i < |table| :: table[i].month == month && table[i].day == day
    ensures forall i | 0 <= i < |table| && table[i].month == month && table[i].day == day ::
      HolidayOf(table, month, day, dayOfWeek).1 == table[i].description
  {
    forall i | 0 <= i < |table| && table[i].month == month && table[i].day == day
      ensures HolidayOf(table, month, day, dayOfWeek).1 == table[i].description
    {
      OnlyMatch(table, i, month, day, dayOfWeek);
    }
  }

  /** The shipped table is such a table. */
  lemma ShippedTableFixedDistinct()
    ensures FixedDistinct(Holiday)
  {
    HolidayTable();
  }
}
