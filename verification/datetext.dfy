/** `ToString(format)` and its wrappers, `Parse` and `TryParse`. */
module DateText {
  import opened Wrappers
  import opened Numerals
  import opened Strings
  import opened Calendar
  import opened PersianDates
  import Constants

  /** The replacements of `ToString(format)`, in order: year, short year, month
      name, two-digit month, month, weekday name, two-digit day, day. `shortYear` is
      the text put in for "yy". */
  function Substitute(d: Date, format: string, shortYear: string): (r: string)
    requires WellFormed(d)
    ensures (forall i | 0 <= i < |format| :: !IsTokenLetter(format[i])) ==> r == format
  {
    LiteralFormat(d, format, shortYear);
    var s := Replace(format, "yyyy", ToDecimal(d.year));
    var s := Replace(s, "yy", shortYear);
    var s := Replace(s, "MM", NameOfMonth(d));
    var s := Replace(s, "mm", Pad2(d.month));
    var s := Replace(s, "m", ToDecimal(d.month));
    var s := Replace(s, "DD", NameOfDays(d));
    var s := Replace(s, "dd", Pad2(d.day));
    Replace(s, "d", ToDecimal(d.day))
  }

  /** The last two digits of the year, as "yy" promises ("97" for 1397). */
  function ShortYear(year: nat): (s: string)
    ensures |s| == 2 && AllDigits(s) && Value(s) == year % 100
  {
    Pad2(year % 100)
  }

  /** `ToString(format)` as written: `Year.ToString().Substring(2)` is evaluated
      whatever the format, and throws when the year has fewer than two digits. */
  function FormatAsWritten(d: Date, format: string): (r: Result<string, Exception>)
    requires WellFormed(d)
    ensures r.Failure? <==> d.year < 10
    ensures r.Failure? ==> r.error == ArgumentOutOfRange
    ensures r.Success? ==>
      |ToDecimal(d.year)| >= 2 && r.value == Substitute(d, format, ToDecimal(d.year)[2..])
  {
    var year := ToDecimal(d.year);
    DecimalLength(d.year);
    if |year| < 2 then Failure(ArgumentOutOfRange)
    else Success(Substitute(d, format, year[2..]))
  }

  /** From year 1000 on, `Substring(2)` of the year is its last two digits, so the
      written `ToString(format)` gives the intended text. */
  lemma FormatAsWrittenFromYear1000(d: Date, format: string)
    requires WellFormed(d) && d.year >= 1000
    ensures FormatAsWritten(d, format) == Success(Format(d, format))
  {
    LastTwoDigits(d.year);
  }

  /** `ToString(format)`, with "yy" the zero-padded last two digits of the year. It
      never throws. */
  function Format(d: Date, format: string): (s: string)
    requires WellFormed(d)
    ensures (forall i | 0 <= i < |format| :: !IsTokenLetter(format[i])) ==> s == format
    ensures format == "yy" ==> s == ShortYear(d.year)
  {
    if format == "yy" then
      ShortYearFormat(d);
      Substitute(d, format, ShortYear(d.year))
    else
      Substitute(d, format, ShortYear(d.year))
  }

  /** The format "yy" alone becomes the short year: the replacements after it find
      no token letter among its digits. */
  lemma ShortYearFormat(d: Date)
    requires WellFormed(d)
    ensures Substitute(d, "yy", ShortYear(d.year)) == ShortYear(d.year)
  {
    var sy := ShortYear(d.year);
    assert Replace("yy", "yyyy", ToDecimal(d.year)) == "yy";
    ReplaceAtStart("", "yy", sy);
    assert "yy" + "" == "yy";
    assert Replace("", "yy", sy) == "";
    assert sy + "" == sy;
    DigitsHoldNoLetters(sy);
    ReplaceAbsent(sy, "MM", NameOfMonth(d));
    ReplaceAbsent(sy, "mm", Pad2(d.month));
    ReplaceAbsent(sy, "m", ToDecimal(d.month));
    ReplaceAbsent(sy, "DD", NameOfDays(d));
    ReplaceAbsent(sy, "dd", Pad2(d.day));
    ReplaceAbsent(sy, "d", ToDecimal(d.day));
  }

  /** Letters a format acts on. */
  predicate IsTokenLetter(c: char) {
    c == 'y' || c == 'M' || c == 'm' || c == 'D' || c == 'd'
  }

  /** A format with no token letter passes the eight replacements unchanged. */
  lemma LiteralFormat(d: Date, format: string, shortYear: string)
    requires WellFormed(d)
    ensures (forall i | 0 <= i < |format| :: !IsTokenLetter(format[i])) ==>
      var s := Replace(Replace(Replace(format, "yyyy", ToDecimal(d.year)), "yy", shortYear), "MM", NameOfMonth(d));
      var s := Replace(Replace(Replace(s, "mm", Pad2(d.month)), "m", ToDecimal(d.month)), "DD", NameOfDays(d));
      Replace(Replace(s, "dd", Pad2(d.day)), "d", ToDecimal(d.day)) == format
  {
    if forall i | 0 <= i < |format| :: !IsTokenLetter(format[i]) {
      ReplaceAbsent(format, "yyyy", ToDecimal(d.year));
      ReplaceAbsent(format, "yy", shortYear);
      ReplaceAbsent(format, "MM", NameOfMonth(d));
      ReplaceAbsent(format, "mm", Pad2(d.month));
      ReplaceAbsent(format, "m", ToDecimal(d.month));
      ReplaceAbsent(format, "DD", NameOfDays(d));
      ReplaceAbsent(format, "dd", Pad2(d.day));
      ReplaceAbsent(format, "d", ToDecimal(d.day));
    }
  }

  /** Number text holds no token letter and no separator. */
  lemma DigitsHoldNoLetters(s: string)
    requires AllDigits(s)
    ensures 'y' !in s && 'M' !in s && 'm' !in s && 'D' !in s && 'd' !in s
    ensures '/' !in s && '-' !in s && ' ' !in s
  {
  }

  /** The year step of a format that starts with "yyyy" and has no other 'y'. */
  lemma YearAtStart(rest: string, y: string)
    requires 'y' !in rest
    ensures Replace("yyyy" + rest, "yyyy", y) == y + rest
  {
    ReplaceAtStart(rest, "yyyy", y);
    ReplaceAbsent(rest, "yyyy", y);
  }

  /** The replacement chain on "yyyy/mm/dd", for any digit strings put in for the
      year, month and day. */
  lemma SlashMonthSteps(y: string, sy: string, mn: string, m: string, m1: string, dn: string)
    requires AllDigits(y) && AllDigits(m)
    ensures
      var s1 := Replace(Replace(y + "/mm/dd", "yy", sy), "MM", mn);
      Replace(Replace(Replace(s1, "mm", m), "m", m1), "DD", dn) == y + "/" + m + "/dd"
  {
    DigitsHoldNoLetters(y);
    DigitsHoldNoLetters(m);
    var s1 := y + "/mm/dd";
    assert Replace(Replace(s1, "yy", sy), "MM", mn) == s1 by {
      ReplaceAbsent(s1, "yy", sy);
      ReplaceAbsent(s1, "MM", mn);
    }
    var s2 := y + "/" + m + "/dd";
    assert Replace(s1, "mm", m) == s2 by {
      assert s1 == (y + "/") + "mm" + "/dd";
      ReplaceToken(y + "/", "mm", "/dd", m);
    }
    assert Replace(Replace(s2, "m", m1), "DD", dn) == s2 by {
      ReplaceAbsent(s2, "m", m1);
      ReplaceAbsent(s2, "DD", dn);
    }
  }

  lemma SlashDaySteps(y: string, m: string, dd: string, d1: string)
    requires AllDigits(y) && AllDigits(m) && AllDigits(dd)
    ensures Replace(Replace(y + "/" + m + "/dd", "dd", dd), "d", d1) == y + "/" + m + "/" + dd
  {
    DigitsHoldNoLetters(y);
    DigitsHoldNoLetters(m);
    DigitsHoldNoLetters(dd);
    var s2 := y + "/" + m + "/dd";
    var s3 := y + "/" + m + "/" + dd;
    assert Replace(s2, "dd", dd) == s3 by {
      assert s2 == (y + "/" + m + "/") + "dd" + "";
      ReplaceToken(y + "/" + m + "/", "dd", "", dd);
      assert (y + "/" + m + "/") + dd + "" == s3;
    }
    assert Replace(s3, "d", d1) == s3 by {
      ReplaceAbsent(s3, "d", d1);
    }
  }

  lemma SlashRest(y: string, sy: string, mn: string, m: string, m1: string, dn: string, dd: string, d1: string)
    requires AllDigits(y) && AllDigits(m) && AllDigits(dd)
    ensures
      var s1 := Replace(Replace(y + "/mm/dd", "yy", sy), "MM", mn);
      var s2 := Replace(Replace(Replace(s1, "mm", m), "m", m1), "DD", dn);
      Replace(Replace(s2, "dd", dd), "d", d1) == y + "/" + m + "/" + dd
  {
    SlashMonthSteps(y, sy, mn, m, m1, dn);
    SlashDaySteps(y, m, dd, d1);
  }

  lemma SlashSteps(y: string, sy: string, mn: string, m: string, m1: string, dn: string, dd: string, d1: string)
    requires AllDigits(y) && AllDigits(m) && AllDigits(dd)
    ensures
      var s1 := Replace(Replace(Replace("yyyy/mm/dd", "yyyy", y), "yy", sy), "MM", mn);
      var s2 := Replace(Replace(Replace(s1, "mm", m), "m", m1), "DD", dn);
      Replace(Replace(s2, "dd", dd), "d", d1) == y + "/" + m + "/" + dd
  {
    assert "yyyy" + "/mm/dd" == "yyyy/mm/dd";
    YearAtStart("/mm/dd", y);
    SlashRest(y, sy, mn, m, m1, dn, dd, d1);
  }


  /** "yyyy/mm/dd" becomes the year, the two-digit month and the two-digit day,
      separated by slashes, whatever text "yy" would have become. */
  lemma SlashFormat(d: Date, shortYear: string)
    requires WellFormed(d)
    ensures Substitute(d, "yyyy/mm/dd", shortYear) == ToDecimal(d.year) + "/" + Pad2(d.month) + "/" + Pad2(d.day)
  {
    SlashSteps(ToDecimal(d.year), shortYear, NameOfMonth(d), Pad2(d.month), ToDecimal(d.month),
      NameOfDays(d), Pad2(d.day), ToDecimal(d.day));
  }

  /** `ToString()` as written: `ToString("yyyy/mm/dd")`, which throws for a year
      below 10 although the format has no "yy". */
  function ToString(d: Date): (r: Result<string, Exception>)
    requires WellFormed(d)
    ensures r.Success? <==> d.year >= 10
    ensures r.Success? ==> r.value == ToDecimal(d.year) + "/" + Pad2(d.month) + "/" + Pad2(d.day)
    ensures r.Failure? ==> r.error == ArgumentOutOfRange
  {
    var r := FormatAsWritten(d, "yyyy/mm/dd");
    if r.Success? then
      SlashFormat(d, ToDecimal(d.year)[2..]);
      r
    else r
  }

  /** `ToString()` on the corrected formatter: defined for every date. */
  function ToStringCorrected(d: Date): (s: string)
    requires WellFormed(d)
    ensures s == ToDecimal(d.year) + "/" + Pad2(d.month) + "/" + Pad2(d.day)
    ensures d.year >= 10 ==> ToString(d) == Success(s)
  {
    SlashFormat(d, ShortYear(d.year));
    Format(d, "yyyy/mm/dd")
  }

  lemma ShortYearStep(y: string)
    ensures Replace("yyyymmdd", "yyyy", y) == y + "mmdd"
  {
    var rest := "mmdd";
    assert "yyyy" + rest == "yyyymmdd";
    YearAtStart(rest, y);
  }

  /** The replacement chain on "yyyymmdd", for any digit strings put in for the
      year, month and day. */
  lemma ShortRest(y: string, sy: string, mn: string, m: string, m1: string, dn: string, dd: string, d1: string)
    requires AllDigits(y) && AllDigits(m) && AllDigits(dd)
    ensures
      var s1 := Replace(Replace(y + "mmdd", "yy", sy), "MM", mn);
      var s2 := Replace(Replace(Replace(s1, "mm", m), "m", m1), "DD", dn);
      Replace(Replace(s2, "dd", dd), "d", d1) == y + m + dd
  {
    DigitsHoldNoLetters(y);
    DigitsHoldNoLetters(m);
    DigitsHoldNoLetters(dd);
    var s1 := y + "mmdd";
    assert Replace(Replace(s1, "yy", sy), "MM", mn) == s1 by {
      ReplaceAbsent(s1, "yy", sy);
      ReplaceAbsent(s1, "MM", mn);
    }
    var s2 := y + m + "dd";
    assert Replace(s1, "mm", m) == s2 by {
      assert s1 == y + "mm" + "dd";
      ReplaceToken(y, "mm", "dd", m);
    }
    assert Replace(Replace(s2, "m", m1), "DD", dn) == s2 by {
      ReplaceAbsent(s2, "m", m1);
      ReplaceAbsent(s2, "DD", dn);
    }
    var s3 := y + m + dd;
    assert Replace(s2, "dd", dd) == s3 by {
      assert s2 == (y + m) + "dd" + "";
      ReplaceToken(y + m, "dd", "", dd);
      assert (y + m) + dd + "" == s3;
    }
    assert Replace(s3, "d", d1) == s3 by {
      ReplaceAbsent(s3, "d", d1);
    }
  }
  lemma ShortSteps(y: string, sy: string, mn: string, m: string, m1: string, dn: string, dd: string, d1: string)
    requires AllDigits(y) && AllDigits(m) && AllDigits(dd)
    ensures
      var s1 := Replace(Replace(Replace("yyyymmdd", "yyyy", y), "yy", sy), "MM", mn);
      var s2 := Replace(Replace(Replace(s1, "mm", m), "m", m1), "DD", dn);
      Replace(Replace(s2, "dd", dd), "d", d1) == y + m + dd
  {
    ShortYearStep(y);
    ShortRest(y, sy, mn, m, m1, dn, dd, d1);
  }


  /** "yyyymmdd" becomes the year, the two-digit month and the two-digit day,
      whatever text "yy" would have become. */
  lemma ShortFormat(d: Date, shortYear: string)
    requires WellFormed(d)
    ensures Substitute(d, "yyyymmdd", shortYear) == ToDecimal(d.year) + Pad2(d.month) + Pad2(d.day)
  {
    ShortSteps(ToDecimal(d.year), shortYear, NameOfMonth(d), Pad2(d.month), ToDecimal(d.month),
      NameOfDays(d), Pad2(d.day), ToDecimal(d.day));
  }

  /** `ToShortString()` as written: `ToString("yyyymmdd")`, which throws for a
      year below 10. */
  function ToShortString(d: Date): (r: Result<string, Exception>)
    requires WellFormed(d)
    ensures r.Success? <==> d.year >= 10
    ensures r.Success? ==> r.value == ToDecimal(d.year) + Pad2(d.month) + Pad2(d.day)
    ensures r.Failure? ==> r.error == ArgumentOutOfRange
  {
    var r := FormatAsWritten(d, "yyyymmdd");
    if r.Success? then
      ShortFormat(d, ToDecimal(d.year)[2..]);
      r
    else r
  }

  /** `ToShortString()` on the corrected formatter: defined for every date. */
  function ToShortStringCorrected(d: Date): (s: string)
    requires WellFormed(d)
    ensures s == ToDecimal(d.year) + Pad2(d.month) + Pad2(d.day)
    ensures d.year >= 10 ==> ToShortString(d) == Success(s)
  {
    ShortFormat(d, ShortYear(d.year));
    Format(d, "yyyymmdd")
  }

  /** The month-name step of "yyyy MM - DD dd", once the year is in. */
  lemma LongMonthStep(y: string, mn: string)
    requires AllDigits(y)
    ensures Replace(y + " MM - DD dd", "MM", mn) == y + " " + mn + " - DD dd"
  {
    DigitsHoldNoLetters(y);
    assert y + " MM - DD dd" == (y + " ") + "MM" + " - DD dd";
    ReplaceToken(y + " ", "MM", " - DD dd", mn);
  }

  /** The year and month-name steps of "yyyy MM - DD dd". */
  lemma LongHead(y: string, sy: string, mn: string)
    requires AllDigits(y) && Constants.NoLatinLetters(mn)
    ensures Replace(Replace(Replace("yyyy MM - DD dd", "yyyy", y), "yy", sy), "MM", mn)
      == y + " " + mn + " - DD dd"
  {
    var s1 := y + " MM - DD dd";
    assert "yyyy" + " MM - DD dd" == "yyyy MM - DD dd";
    YearAtStart(" MM - DD dd", y);
    assert Replace(s1, "yy", sy) == s1 by {
      DigitsHoldNoLetters(y);
      ReplaceAbsent(s1, "yy", sy);
    }
    LongMonthStep(y, mn);
  }

  /** The remaining steps of "yyyy MM - DD dd", once the year and month name are in. */
  lemma LongTail(y: string, mn: string, m: string, m1: string, dn: string, dd: string, d1: string)
    requires AllDigits(y) && AllDigits(dd)
    requires Constants.NoLatinLetters(mn) && Constants.NoLatinLetters(dn)
    ensures
      var s2 := y + " " + mn + " - DD dd";
      Replace(Replace(Replace(Replace(Replace(s2, "mm", m), "m", m1), "DD", dn), "dd", dd), "d", d1)
        == y + " " + mn + " - " + dn + " " + dd
  {
    LongTailNames(y, mn, m, m1, dn);
    LongTailDay(y, mn, dn, dd, d1);
  }

  /** The month steps leave the text alone and "DD" becomes the weekday's name. */
  lemma LongTailNames(y: string, mn: string, m: string, m1: string, dn: string)
    requires AllDigits(y) && Constants.NoLatinLetters(mn)
    ensures Replace(Replace(Replace(y + " " + mn + " - DD dd", "mm", m), "m", m1), "DD", dn)
      == y + " " + mn + " - " + dn + " dd"
  {
    DigitsHoldNoLetters(y);
    var s2 := y + " " + mn + " - DD dd";
    assert Replace(Replace(s2, "mm", m), "m", m1) == s2 by {
      assert 'm' !in mn;
      ReplaceAbsent(s2, "mm", m);
      ReplaceAbsent(s2, "m", m1);
    }
    assert 'D' !in mn;
    assert s2 == (y + " " + mn + " - ") + "DD" + " dd";
    ReplaceToken(y + " " + mn + " - ", "DD", " dd", dn);
  }

  /** "dd" becomes the two-digit day, after which no "d" is left. */
  lemma LongTailDay(y: string, mn: string, dn: string, dd: string, d1: string)
    requires AllDigits(y) && AllDigits(dd)
    requires Constants.NoLatinLetters(mn) && Constants.NoLatinLetters(dn)
    ensures Replace(Replace(y + " " + mn + " - " + dn + " dd", "dd", dd), "d", d1)
      == y + " " + mn + " - " + dn + " " + dd
  {
    DigitsHoldNoLetters(y);
    DigitsHoldNoLetters(dd);
    var s3 := y + " " + mn + " - " + dn + " dd";
    var s4 := y + " " + mn + " - " + dn + " " + dd;
    assert Replace(s3, "dd", dd) == s4 by {
      assert 'd' !in mn && 'd' !in dn;
      assert s3 == (y + " " + mn + " - " + dn + " ") + "dd" + "";
      ReplaceToken(y + " " + mn + " - " + dn + " ", "dd", "", dd);
      assert (y + " " + mn + " - " + dn + " ") + dd + "" == s4;
    }
    assert 'd' !in mn && 'd' !in dn;
    ReplaceAbsent(s4, "d", d1);
  }

  /** "yyyy MM - DD dd" becomes the year, the month's name, the weekday's name and
      the two-digit day. The names hold no Latin letter, so the later replacements
      leave them alone. */
  lemma LongFormat(d: Date, shortYear: string)
    requires WellFormed(d)
    ensures Substitute(d, "yyyy MM - DD dd", shortYear)
      == ToDecimal(d.year) + " " + NameOfMonth(d) + " - " + NameOfDays(d) + " " + Pad2(d.day)
  {
    Constants.NameTables();
    LongHead(ToDecimal(d.year), shortYear, NameOfMonth(d));
    LongTail(ToDecimal(d.year), NameOfMonth(d), Pad2(d.month), ToDecimal(d.month),
      NameOfDays(d), Pad2(d.day), ToDecimal(d.day));
  }

  /** `ToLongString()` as written: `ToString("yyyy MM - DD dd")`, which throws for
      a year below 10. */
  function ToLongString(d: Date): (r: Result<string, Exception>)
    requires WellFormed(d)
    ensures r.Success? <==> d.year >= 10
    ensures r.Success? ==>
      r.value == ToDecimal(d.year) + " " + NameOfMonth(d) + " - " + NameOfDays(d) + " " + Pad2(d.day)
    ensures r.Failure? ==> r.error == ArgumentOutOfRange
  {
    var r := FormatAsWritten(d, "yyyy MM - DD dd");
    if r.Success? then
      LongFormat(d, ToDecimal(d.year)[2..]);
      r
    else r
  }

  /** `ToLongString()` on the corrected formatter: defined for every date. */
  function ToLongStringCorrected(d: Date): (s: string)
    requires WellFormed(d)
    ensures s == ToDecimal(d.year) + " " + NameOfMonth(d) + " - " + NameOfDays(d) + " " + Pad2(d.day)
    ensures d.year >= 10 ==> ToLongString(d) == Success(s)
  {
    LongFormat(d, ShortYear(d.year));
    Format(d, "yyyy MM - DD dd")
  }

  /** `char.MinValue`, the default separator of `Parse`: no separator. */
  const NoSeparator: char := 0 as char

  /** `s.Substring(start, length)`: ArgumentOutOfRange unless the range lies in `s`. */
  function Substring(s: string, start: int, length: int): (r: Result<string, Exception>)
    ensures r.Success? <==> 0 <= start && 0 <= length && start + length <= |s|
    ensures r.Success? ==> |r.value| == length && forall i | 0 <= i < length :: r.value[i] == s[start + i]
    ensures r.Failure? ==> r.error == ArgumentOutOfRange
  {
    if 0 <= start && 0 <= length && start + length <= |s| then Success(s[start..start + length])
    else Failure(ArgumentOutOfRange)
  }

  /** Without a separator, `Parse` first deletes every '-' and '/', keeping the
      other characters in order. */
  function StripSeparators(date: string): (dt: string)
    ensures dt == Without(Without(date, '-'), '/')
    ensures forall c :: c in dt <==> c in date && c != '-' && c != '/'
  {
    ReplaceDeletes(date, '-');
    ReplaceDeletes(Replace(date, "-", ""), '/');
    Replace(Replace(date, "-", ""), "/", "")
  }

  /** The three `int.TryParse` calls, in order; FormatError as soon as one fails. */
  function ReadFields(ys: string, ms: string, ds: string): (r: Result<(int, int, int), Exception>)
    ensures r.Success? <==> TryParseInt(ys).Some? && TryParseInt(ms).Some? && TryParseInt(ds).Some?
    ensures r.Success? ==> r.value == (TryParseInt(ys).value, TryParseInt(ms).value, TryParseInt(ds).value)
    ensures r.Failure? ==> r.error == FormatError
  {
    if TryParseInt(ys).None? || TryParseInt(ms).None? || TryParseInt(ds).None? then Failure(FormatError)
    else Success((TryParseInt(ys).value, TryParseInt(ms).value, TryParseInt(ds).value))
  }

  /** The fields of the no-separator branch as written: the whole text must parse as
      an `int`, then year, month and day are read from positions [0, 4), [4, 6) and
      [6, 8); anything after position 8 is ignored. */
  function FieldsUnseparatedAsWritten(dt: string): (r: Result<(int, int, int), Exception>)
    ensures r.Success? <==> TryParseInt(dt).Some? && |dt| >= 8
    ensures r.Success? ==> AllDigits(dt) && r.value == (Value(dt[..4]), Value(dt[4..6]), Value(dt[6..8]))
    ensures r.Failure? ==> r.error == FormatError || r.error == ArgumentOutOfRange
  {
    if TryParseInt(dt).None? then Failure(FormatError)
    else
      var ys :- Substring(dt, 0, 4);
      var ms :- Substring(dt, 4, 2);
      var ds :- Substring(dt, 6, 2);
      assert ys == dt[..4] && ms == dt[4..6] && ds == dt[6..8];
      TryParseShort(ys);
      TryParseShort(ms);
      TryParseShort(ds);
      ReadFields(ys, ms, ds)
  }

  /** The fields of the no-separator branch, accepting exactly eight digits. */
  function FieldsUnseparated(dt: string): (r: Result<(int, int, int), Exception>)
    ensures r.Success? <==> AllDigits(dt) && |dt| == 8
    ensures r.Success? ==> r.value == (Value(dt[..4]), Value(dt[4..6]), Value(dt[6..8]))
    ensures r.Failure? ==> r.error == FormatError || r.error == ArgumentOutOfRange
  {
    if |dt| != 8 then Failure(FormatError)
    else if AllDigits(dt) then
      TryParseShort(dt);
      FieldsUnseparatedAsWritten(dt)
    else
      FieldsUnseparatedAsWritten(dt)
  }

  /** The fields of the separator branch: exactly three pieces, each an `int`. */
  function FieldsSeparated(date: string, sep: char): (r: Result<(int, int, int), Exception>)
    ensures var parts := Split(date, sep);
      && (r.Success? <==> |parts| == 3 && ReadFields(parts[0], parts[1], parts[2]).Success?)
      && (r.Success? ==> r.value == ReadFields(parts[0], parts[1], parts[2]).value)
    ensures r.Failure? ==> r.error == FormatError
  {
    var parts := Split(date, sep);
    if |parts| != 3 then Failure(FormatError) else ReadFields(parts[0], parts[1], parts[2])
  }

  /** The `catch` of `Parse`: every exception becomes a FormatException. */
  function AsFormatError<T>(r: Result<T, Exception>): (q: Result<T, Exception>)
    ensures q.Success? <==> r.Success?
    ensures q.Success? ==> q.value == r.value
    ensures q.Failure? ==> q.error == FormatError
  {
    match r
    case Success(v) => Success(v)
    case Failure(_) => Failure(FormatError)
  }

  /** `Parse(date, sep)` as written. Without a separator the text, once '-' and '/'
      are deleted, must be a single `int` of at least eight digits, and year, month
      and day are read from its first eight; with one, exactly three `int` pieces.
      The fields go through the constructor as written. Every failure is a
      FormatError. */
  function ParseAsWritten(cal: PersianCalendar, date: string, sep: char): (r: Result<Date, Exception>)
    ensures sep == NoSeparator ==>
      var dt := StripSeparators(date);
      && (r.Success? <==> TryParseInt(dt).Some? && AllDigits(dt) && |dt| >= 8
                          && IsValidDate(cal, Value(dt[..4]), Value(dt[4..6]), Value(dt[6..8])))
      && (r.Success? ==>
            && Valid(cal, r.value)
            && (r.value.year, r.value.month, r.value.day) == (Value(dt[..4]), Value(dt[4..6]), Value(dt[6..8])))
    ensures sep != NoSeparator ==>
      var parts := Split(date, sep);
      && (r.Success? <==> |parts| == 3 && ReadFields(parts[0], parts[1], parts[2]).Success?
                          && var f := ReadFields(parts[0], parts[1], parts[2]).value;
                             IsValidDate(cal, f.0, f.1, f.2))
      && (r.Success? ==>
            && Valid(cal, r.value)
            && (r.value.year, r.value.month, r.value.day) == ReadFields(parts[0], parts[1], parts[2]).value)
    ensures r.Failure? ==> r.error == FormatError
  {
    AsFormatError(
      var fields :- if sep == NoSeparator then FieldsUnseparatedAsWritten(StripSeparators(date))
                    else FieldsSeparated(date, sep);
      NewAsWritten(cal, fields.0, fields.1, fields.2))
  }

  /** `Parse(date, sep)` as intended: without a separator the text, once '-' and '/'
      are deleted, must be exactly eight digits yyyymmdd; with one, exactly three
      `int` pieces. The fields must name a date the calendar has. Every failure is
      a FormatError. */
  function Parse(cal: PersianCalendar, date: string, sep: char): (r: Result<Date, Exception>)
    ensures sep == NoSeparator ==>
      var dt := StripSeparators(date);
      && (r.Success? <==> AllDigits(dt) && |dt| == 8
                          && IsValidDate(cal, Value(dt[..4]), Value(dt[4..6]), Value(dt[6..8])))
      && (r.Success? ==>
            && Valid(cal, r.value)
            && (r.value.year, r.value.month, r.value.day) == (Value(dt[..4]), Value(dt[4..6]), Value(dt[6..8])))
    ensures sep != NoSeparator ==>
      var parts := Split(date, sep);
      && (r.Success? <==> |parts| == 3 && ReadFields(parts[0], parts[1], parts[2]).Success?
                          && var f := ReadFields(parts[0], parts[1], parts[2]).value;
                             IsValidDate(cal, f.0, f.1, f.2))
      && (r.Success? ==>
            && Valid(cal, r.value)
            && (r.value.year, r.value.month, r.value.day) == ReadFields(parts[0], parts[1], parts[2]).value)
    ensures r.Failure? ==> r.error == FormatError
  {
    AsFormatError(
      var fields :- if sep == NoSeparator then FieldsUnseparated(StripSeparators(date))
                    else FieldsSeparated(date, sep);
      New(cal, fields.0, fields.1, fields.2))
  }

  /** Whatever the intended parser accepts, the written one accepts too, with the
      same date; with a separator the two are the same function. */
  lemma ParseAsWrittenAgrees(cal: PersianCalendar, date: string, sep: char)
    ensures Parse(cal, date, sep).Success? ==> ParseAsWritten(cal, date, sep) == Parse(cal, date, sep)
    ensures sep != NoSeparator ==> ParseAsWritten(cal, date, sep) == Parse(cal, date, sep)
  {
    var p, w := Parse(cal, date, sep), ParseAsWritten(cal, date, sep);
    if sep == NoSeparator && p.Success? {
      TryParseShort(StripSeparators(date));
    }
    if p.Success? && w.Success? {
      SameTripleSameDate(cal, p.value, w.value);
    }
    if sep != NoSeparator && !p.Success? {
      assert !w.Success?;
    }
  }

  /** `TryParse(date, out output, sep)`: the outcome of the written `Parse`, with
      null on failure. */
  function TryParse(cal: PersianCalendar, date: string, sep: char): (r: (bool, Option<Date>))
    ensures r.0 <==> ParseAsWritten(cal, date, sep).Success?
    ensures r.0 ==> r.1 == Some(ParseAsWritten(cal, date, sep).value)
    ensures !r.0 ==> r.1 == None
  {
    match ParseAsWritten(cal, date, sep)
    case Success(d) => (true, Some(d))
    case Failure(_) => (false, None)
  }

  /** `TryParse` on the intended `Parse`. */
  function TryParseCorrected(cal: PersianCalendar, date: string, sep: char): (r: (bool, Option<Date>))
    ensures r.0 <==> Parse(cal, date, sep).Success?
    ensures r.0 ==> r.1 == Some(Parse(cal, date, sep).value)
    ensures !r.0 ==> r.1 == None
  {
    match Parse(cal, date, sep)
    case Success(d) => (true, Some(d))
    case Failure(_) => (false, None)
  }

  /** Three digit fields joined by '/' read back as the three numbers they
      spell. */
  lemma SlashedFields(y: string, m: string, dd: string, yv: int, mv: int, dv: int)
    requires AllDigits(y) && AllDigits(m) && AllDigits(dd)
    requires TryParseInt(y) == Some(yv) && TryParseInt(m) == Some(mv) && TryParseInt(dd) == Some(dv)
    ensures FieldsSeparated(y + "/" + m + "/" + dd, '/') == Success((yv, mv, dv))
  {
    DigitsHoldNoLetters(y);
    DigitsHoldNoLetters(m);
    DigitsHoldNoLetters(dd);
    var parts := [y, m, dd];
    assert y + "/" + m + "/" + dd == Join("/", parts) by {
      assert parts[1..] == [m, dd];
      assert [m, dd][1..] == [dd];
      assert Join("/", [m, dd]) == m + "/" + dd;
    }
    SplitJoin(parts, '/');
  }

  /** Parsing the text of `ToString()` with '/' gives back the date: for every date
      on the corrected text, and with both parsers; on the written text whenever
      `ToString()` does not throw. */
  lemma ParseToString(cal: PersianCalendar, d: Date)
    requires Valid(cal, d)
    ensures Parse(cal, ToStringCorrected(d), '/') == Success(d)
    ensures ParseAsWritten(cal, ToStringCorrected(d), '/') == Success(d)
    ensures TryParseCorrected(cal, ToStringCorrected(d), '/') == (true, Some(d))
    ensures ToString(d).Success? ==> TryParse(cal, ToString(d).value, '/') == (true, Some(d))
  {
    assert WellFormed(d) && IsValidDate(cal, d.year, d.month, d.day) by {
      assert d == Init(cal, d.instant);
    }
    TryParseDecimal(d.year);
    TryParsePad2(d.month);
    TryParsePad2(d.day);
    SlashedFields(ToDecimal(d.year), Pad2(d.month), Pad2(d.day), d.year, d.month, d.day);
    var r := Parse(cal, ToStringCorrected(d), '/');
    SameTripleSameDate(cal, r.value, d);
    ParseAsWrittenAgrees(cal, ToStringCorrected(d), '/');
  }

  /** Four, two and two digits joined: eight digits the separators step leaves alone. */
  lemma EightDigits(y: string, m: string, dd: string)
    requires AllDigits(y) && AllDigits(m) && AllDigits(dd)
    requires |y| == 4 && |m| == 2 && |dd| == 2
    ensures var s := y + m + dd;
      && |s| == 8 && AllDigits(s)
      && s[..4] == y && s[4..6] == m && s[6..8] == dd
      && StripSeparators(s) == s
  {
    var s := y + m + dd;
    AllDigitsConcat(y, m);
    AllDigitsConcat(y + m, dd);
    DigitsHoldNoLetters(s);
    ReplaceAbsent(s, "-", "");
    ReplaceAbsent(s, "/", "");
  }

  /** The text of `ToShortString()` for a four-digit year: eight digits. */
  lemma ShortStringDigits(d: Date)
    requires WellFormed(d) && d.year >= 1000
    ensures var s := ToShortStringCorrected(d);
      && |s| == 8 && AllDigits(s)
      && s[..4] == ToDecimal(d.year) && s[4..6] == Pad2(d.month) && s[6..8] == Pad2(d.day)
      && StripSeparators(s) == s
  {
    DecimalLength(d.year);
    EightDigits(ToDecimal(d.year), Pad2(d.month), Pad2(d.day));
  }

  /** Parsing the text of `ToShortString()` without a separator gives back the date
      when the year has four digits, with both parsers. */
  lemma ParseShortString(cal: PersianCalendar, d: Date)
    requires Valid(cal, d) && d.year >= 1000
    ensures ToShortString(d) == Success(ToShortStringCorrected(d))
    ensures Parse(cal, ToShortStringCorrected(d), NoSeparator) == Success(d)
    ensures TryParse(cal, ToShortStringCorrected(d), NoSeparator) == (true, Some(d))
  {
    ShortStringDigits(d);
    var r := Parse(cal, ToShortStringCorrected(d), NoSeparator);
    SameTripleSameDate(cal, r.value, d);
    ParseAsWrittenAgrees(cal, ToShortStringCorrected(d), NoSeparator);
  }

  /** The no-separator branch as written reads the first eight digits and ignores
      the rest: a digit appended to `ToShortString()` still parses to the same date,
      so `TryParse` reports success, where the eight-digit parser rejects it. */
  lemma ParseAsWrittenIgnoresTail(cal: PersianCalendar, d: Date)
    requires Valid(cal, d) && d.year >= 1000
    ensures ParseAsWritten(cal, ToShortStringCorrected(d) + "5", NoSeparator) == Success(d)
    ensures TryParse(cal, ToShortStringCorrected(d) + "5", NoSeparator) == (true, Some(d))
    ensures Parse(cal, ToShortStringCorrected(d) + "5", NoSeparator) == Failure(FormatError)
    ensures TryParseCorrected(cal, ToShortStringCorrected(d) + "5", NoSeparator) == (false, None)
  {
    ShortStringDigits(d);
    var s := ToShortStringCorrected(d);
    var t := s + "5";
    OneDigitMore(s);
    assert FieldsUnseparatedAsWritten(t) == Success((d.year, d.month, d.day));
    var r := ParseAsWritten(cal, t, NoSeparator);
    SameTripleSameDate(cal, r.value, d);
  }

  /** Eight digits and one more: nine digits that `int.TryParse` accepts, whose
      first eight are the eight. */
  lemma OneDigitMore(s: string)
    requires AllDigits(s) && |s| == 8
    ensures var t := s + "5";
      && AllDigits(t) && StripSeparators(t) == t && TryParseInt(t).Some?
      && t[..4] == s[..4] && t[4..6] == s[4..6] && t[6..8] == s[6..8]
  {
    var t := s + "5";
    AllDigitsConcat(s, "5");
    StripDigits(t);
    TryParseShort(t);
  }

  /** Digits hold no separator, so stripping them changes nothing. */
  lemma StripDigits(t: string)
    requires AllDigits(t)
    ensures StripSeparators(t) == t
  {
    DigitsHoldNoLetters(t);
    ReplaceAbsent(t, "-", "");
    ReplaceAbsent(t, "/", "");
  }


  /** A character other than '-' and '/' survives the stripping. */
  lemma StripKeeps(date: string, c: char)
    requires c in date && c != '-' && c != '/'
    ensures c in StripSeparators(date)
  {
  }

  /** Text that is not digits once '-' and '/' are gone is a FormatError. */
  lemma ParseRejectsText(cal: PersianCalendar)
    ensures Parse(cal, "bad-input", NoSeparator) == Failure(FormatError)
    ensures ParseAsWritten(cal, "bad-input", NoSeparator) == Failure(FormatError)
    ensures TryParse(cal, "bad-input", NoSeparator) == (false, None)
    ensures TryParseCorrected(cal, "bad-input", NoSeparator) == (false, None)
  {
    var dt := StripSeparators("bad-input");
    assert "bad-input"[0] == 'b';
    StripKeeps("bad-input", 'b');
    assert !AllDigits(dt);
    TryParseRejects(dt);
  }
}
