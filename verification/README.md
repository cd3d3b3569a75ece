# PersianDate in Dafny

A model of the `ZPersianDateTime` library's `PersianDate` value type, its constant tables, its equality comparer and the month-grid part of `PersianCalander`, together with proofs about them.

**Calendar.** `System.Globalization.PersianCalendar` is a library whose code is not part of this model. It becomes the module `Calendar`:
- An instant (the hidden `_date`) is a day number; 1 Farvardin of year 1 is day 0.
- Years run from 1 to 9378.
- Months 1–6 have 31 days and months 7–11 have 30. Esfand has 30 days in a leap year and 29 otherwise.
- The leap rule is a parameter, `PersianCalendar(isLeapYear)`. Every result here holds for any leap rule.
- `AddDays` adds to the day number. It is `Calendar.Add`, which the Persian calendar does not override. A step of 3652059 days or more throws ArgumentOutOfRange. A smaller step whose result leaves the range throws ArgumentException.
- `AddMonths` moves the month and clamps the day to the new month's length. `AddYears(t, n)` is `AddMonths(t, n * 12)`. An out-of-range result throws `ArgumentOutOfRange`.
- The .NET weekday of instant `t` is `(t + 5) % 7`, because day 0 is a Friday.

**Dates.** `PersianDates.Date` stores every field `_init` writes: the instant, year, month, day, weekday, day of year and leap flag.
- `Valid(cal, d)` says that `d` is what `_init` builds from its own instant. Every constructor and every step gives back valid dates.
- `IsHoliday` and `HolidayDescription` are functions of the stored fields. They read the shipped table with the filter of `_holiday`.
- Operations that can throw return `Result<T, Exception>`. The exception kinds are NotSupported, ArgumentOutOfRange, Argument (`ArgumentException`), IndexOutOfRange and FormatError.
- `Int32` parameters keep C#'s 32-bit range. The `week * 7` of `GotoWeeks` and the `years * 12` of `AddYears` wrap as unchecked C# does.

**Text.** `DateText` models these operations:
- `ToString(format)`, as its chain of eight `Replace` calls, and its three wrappers;
- `Parse`, both with and without a separator;
- `TryParse`.

Each is modelled as written, and where the written code goes wrong, also as evidently intended (see Findings); the two versions are related by lemmas.

`int.TryParse` accepts a non-empty run of ASCII digits whose value is at most 2^31 − 1.

**Grid and navigation.** `Calander` models `_calanderDays` as three recursive functions, one per loop of the source.
- It proves the grid's shape and alignment, and which of its cells belong to the month.
- `NextMonth`, `NextYear` and `PreviousMonth` are functions from a state `(selectedDate, dates)` to an `Outcome`: the new state plus the exception thrown, if any. When `GotoMonths` succeeds but the grid throws, the new selected date stays, as it does in C#.

**Scenarios.** `Scenarios` restates the dated unit tests as lemmas. Where the expected answer depends on the leap rule or on the weekday, the lemma takes that as a requirement.

**Two behaviours of the code worth knowing:**
- Holidays are the table entries that match the date's month and day, or whose own optional weekday equals the date's. There is no separate rule that makes every Friday a holiday. Every shipped entry has no weekday, so on the shipped table a holiday is exactly a listed (month, day) (`PersianDates.ShippedHoliday`).
- The constructor's month check reads the property, not the argument (see Findings).

## Model

| member | source | states |
|---|---|---|
| `PersianDates.New` | PersianDateTime/PersianDate.cs:23-32 | the constructor with the guard testing the argument: succeeds exactly on triples the calendar has, with those fields; NotSupported exactly when the triple is outside 1..9378 / 1..12 / 1..31, ArgumentOutOfRange for a day the month lacks |
| `PersianDates.NewAsWritten` | PersianDateTime/PersianDate.cs:25-31 | the guard as written: it succeeds on the same triples, but NotSupported is thrown only for a year, low month or day out of range; any other failure is ArgumentOutOfRange |
| `PersianDates.NewAsWrittenAgrees` | PersianDateTime/PersianDate.cs:25-31 | both guards build the same dates; for month > 12 the written one throws ArgumentOutOfRange where the intended one throws NotSupported |
| `PersianDates.GuardAdmitsMonth13` | PersianDateTime/PersianDate.cs:25 | (1397, 13, 1) passes the written guard and fails the intended one |
| `PersianDates.Convert` | PersianDateTime/PersianDate.cs:27-28 | `ToDateTime` followed by `_init`: succeeds exactly on valid triples and keeps them |
| `PersianDates.Init` | PersianDateTime/PersianDate.cs:470-485 | `_init` stores a valid triple that maps back to the instant, the weekday of that instant, the leap flag of the stored year, and the day of year counted from 1 Farvardin |
| `PersianDates.MapPersianDayOfWeek` | PersianDateTime/PersianDate.cs:367-389 | Saturday maps to 0 and Friday to 6: the Persian index is the .NET index plus one, mod 7 |
| `PersianDates.UnmapPersianDayOfWeek` | PersianDateTime/PersianDate.cs:367-389 | every Persian weekday is the image of a .NET weekday |
| `PersianDates.MapPersianDayOfWeekBijective` | PersianDateTime/PersianDate.cs:367-389 | the mapping and its inverse undo each other, so the mapping is a bijection |
| `PersianDates.SeasonOf` | PersianDateTime/PersianDate.cs:391-414 | the season is the quarter of the month; any other month number falls to Spring |
| `PersianDates.GetSeason` | PersianDateTime/PersianDate.cs:63 | the `Season` of a date is the quarter of the year its month falls in |
| `PersianDates.HalfOfSeason` | PersianDateTime/PersianDate.cs:116-134 | the half is First exactly when the month is at most 6 |
| `PersianDates.IsHoliday` | PersianDateTime/PersianDate.cs:416-420 | true exactly when some table entry matches the month and day or carries the date's weekday |
| `PersianDates.HolidayDescription` | PersianDateTime/PersianDate.cs:419 | the empty string on a day that is not a holiday |
| `PersianDates.ShippedHoliday` | PersianDateTime/PersianDate.cs:416-420 | with the shipped table, a holiday is exactly a listed (month, day), and the description is that entry's |
| `PersianDates.Esfand30IsLeap` | PersianDateTime/Constants.cs:27 | a valid date on 30 Esfand lies in a leap year, so that entry never matches in a common year |
| `PersianDates.FromDateTime` | PersianDateTime/PersianDate.cs:362 | the conversion from an instant succeeds exactly inside the calendar's range and keeps the instant |
| `PersianDates.DateTimeRoundTrip` | PersianDateTime/PersianDate.cs:362-364 | converting a date to its instant and back gives the same date |
| `PersianDates.AsDateTime` | PersianDateTime/PersianDate.cs:364 | the instant handed out is the day number of the date's own year, month and day, and the calendar reads those three back from it |
| `PersianDates.StepInstant` | PersianDateTime/PersianDate.cs:462-468 | years, then months, then days; a result is in range; a failed year or month step throws ArgumentOutOfRange, and a failed day step throws ArgumentOutOfRange or ArgumentException |
| `PersianDates.Goto` | PersianDateTime/PersianDate.cs:462-468 | `_goto` returns a fresh valid date, or throws ArgumentOutOfRange or ArgumentException |
| `PersianDates.GotoComposes` | PersianDateTime/PersianDate.cs:462-468 | `_goto(days, months, years)` is `GotoYears(years)`, then `GotoMonths(months)`, then `GotoDays(days)`: the same result or the same exception |
| `PersianDates.GotoDays` | PersianDateTime/PersianDate.cs:189 | n days on: succeeds exactly when that instant is in range, and lands on it; a failure is ArgumentException, or ArgumentOutOfRange when abs(n) >= 3652059 |
| `PersianDates.GotoWeeks` | PersianDateTime/PersianDate.cs:183 | the date `Wrap32(w * 7)` days on, when in range; otherwise the day step's exception: ArgumentException, or ArgumentOutOfRange when abs(`Wrap32(w * 7)`) >= 3652059 |
| `PersianDates.GotoWeeksIsGotoDays` | PersianDateTime/PersianDate.cs:183 | when `w * 7` fits in 32 bits, w weeks is 7w days |
| `PersianDates.GotoWeeksOverflow` | PersianDateTime/PersianDate.cs:183 | 613566757 weeks overflows to a 3-day step |
| `PersianDates.GotoMonths` | PersianDateTime/PersianDate.cs:196 | the month index moves by n and the day is clamped to the new month; out of range throws ArgumentOutOfRange |
| `PersianDates.GotoYears` | PersianDateTime/PersianDate.cs:203 | while `n * 12` fits in 32 bits (abs(n) <= 178956970): the year moves by n, the month stays and the day is clamped, and years outside 1..9378 throw ArgumentOutOfRange; any failure is ArgumentOutOfRange |
| `PersianDates.GotoYearsAsMonths` | PersianDateTime/PersianDate.cs:203 | for every n, n years is `GotoMonths` by `n * 12` wrapped to 32 bits |
| `PersianDates.GotoYearsOverflow` | PersianDateTime/PersianDate.cs:203 | 357913942 years wraps to an 8-month step: 1 Farvardin 1397 goes to 1 Azar 1397 |
| `PersianDates.GotoDaysInverse` | PersianDateTime/PersianDate.cs:189 | n days on and then n days back restores the date |
| `PersianDates.GotoDaysWeekday` | PersianDateTime/PersianDate.cs:189 | n days on moves the weekday by n mod 7 |
| `PersianDates.Copy` | PersianDateTime/PersianDate.cs:219 | the copy equals the original in every field |
| `PersianDates.Change` | PersianDateTime/PersianDate.cs:213 | fields not given keep their old values; the result is the constructor as written on the new triple: a valid date with those fields exactly when the triple is a date; otherwise NotSupported exactly when the triple fails the guard's ranges (year 1..9378, month at least 1, day 1..31), and ArgumentOutOfRange when it passes them |
| `PersianDates.BeginOfMonth` | PersianDateTime/PersianDate.cs:160 | day 1 of the same month, `day - 1` days back |
| `PersianDates.MonthsOnDayBack` | PersianDateTime/PersianDate.cs:165 | from day 1, k months on and a day back is the last day of the (k − 1)-th month on; fails only past year 9378 |
| `PersianDates.EndOfMonth` | PersianDateTime/PersianDate.cs:165 | the last day of the same month; throws only for Esfand 9378 |
| `PersianDates.BeginOfYear` | PersianDateTime/PersianDate.cs:170 | 1 Farvardin of the same year, `dayOfYear - 1` days back |
| `PersianDates.YearOnDayBack` | PersianDateTime/PersianDate.cs:175 | from 1 Farvardin, a year on and a day back is the last day of Esfand |
| `PersianDates.EndOfYear` | PersianDateTime/PersianDate.cs:175 | 30 Esfand in a leap year and 29 Esfand otherwise; throws only in year 9378 |
| `PersianDates.ToWeekday` | PersianDateTime/PersianDate.cs:150-155 | the step by `w - DayOfWeek` lands on weekday w in the same Shanbe-to-Jome week; out of range it throws ArgumentException |
| `PersianDates.BeginOfWeek` | PersianDateTime/PersianDate.cs:150 | the Shanbe 0 to 6 days on or before the date; out of range it throws ArgumentException |
| `PersianDates.EndOfWeek` | PersianDateTime/PersianDate.cs:155 | the Jome 0 to 6 days on or after the date; out of range it throws ArgumentException |
| `PersianDates.WeekSpan` | PersianDateTime/PersianDate.cs:150-155 | the week's two ends are six days apart |
| `PersianDates.BeginOfSeasonAsWritten` | PersianDateTime/PersianDate.cs:140 | indexing by `Month`: the first month of month + 1's season, and IndexOutOfRange for Esfand |
| `PersianDates.BeginOfSeason` | PersianDateTime/PersianDate.cs:140 | day 1 of the first month of the date's own season |
| `PersianDates.BeginOfSeasonAsWrittenAgrees` | PersianDateTime/PersianDate.cs:140 | the written and the intended index agree exactly on months that are not the last of their season |
| `PersianDates.BeginOfSeasonAsWrittenSkips` | PersianDateTime/PersianDate.cs:140 | for Khordad (month 3, Spring) the written code answers in Summer |
| `PersianDates.EndOfSeason` | PersianDateTime/PersianDate.cs:145 | the last day of the season's third month, in the same season; throws only for winter 9378 |
| `PersianDates.EndOfSeasonAsWritten` | PersianDateTime/PersianDate.cs:145 | on the written `BeginOfSeason`: the end of month + 1's season, failing from Esfand on |
| `PersianDates.GetBeginOfSeasonAsWritten` | PersianDateTime/PersianDate.cs:423-438 | Summer answers month 3, which lies in Spring; other seasons answer their first month |
| `PersianDates.GetBeginOfSeason` | PersianDateTime/PersianDate.cs:423-438 | the intended table: a valid day 1 of the same year |
| `PersianDates.GetBeginOfSeasonIsBeginOfSeason` | PersianDateTime/PersianDate.cs:423-438 | the corrected table agrees with `BeginOfSeason` on every date |
| `PersianDates.GetEndOfSeason` | PersianDateTime/PersianDate.cs:440-455 | the hard-coded ends are valid dates of the same year |
| `PersianDates.GetEndOfSeasonIsEndOfSeason` | PersianDateTime/PersianDate.cs:440-455 | the hard-coded ends agree with `EndOfSeason` wherever it succeeds |
| `Calendar.ToDateTime` | PersianDateTime/PersianDate.cs:27 | a triple converts exactly when it is a date of the calendar; otherwise ArgumentOutOfRange |
| `Calendar.DateToInstantInjective` | PersianDateTime/PersianDate.cs:27 | distinct dates have distinct instants |
| `Calendar.InstantToDate` | PersianDateTime/PersianDate.cs:472-474 | reading a date's instant back gives the triple |
| `Calendar.GetYear` | PersianDateTime/PersianDate.cs:472 | the year whose span holds the instant |
| `Calendar.GetMonth` | PersianDateTime/PersianDate.cs:473 | the month whose days of the year include the instant's day of the year |
| `Calendar.GetDayOfYear` | PersianDateTime/PersianDate.cs:477 | the days from 1 Farvardin of the instant's year up to the instant, counting from 1, within the year's length |
| `Calendar.GetDayOfMonth` | PersianDateTime/PersianDate.cs:474 | with year and month, a valid triple whose instant is the given one |
| `Calendar.GetDayOfWeek` | PersianDateTime/PersianDate.cs:475 | the .NET weekday index of the instant |
| `Calendar.AddDays` | PersianDateTime/PersianDate.cs:466 | adds n days exactly when the result is in range; otherwise ArgumentOutOfRange for abs(n) >= 3652059 and ArgumentException below that |
| `Calendar.AddMonths` | PersianDateTime/PersianDate.cs:465 | moves the month index by n and clamps the day |
| `Calendar.AddYears` | PersianDateTime/PersianDate.cs:464 | `AddMonths(t, n * 12)` with the product wrapped to 32 bits: success iff that month step stays in range; while `n * 12` fits, the year moves by n, the month stays and the day is clamped; any failure is ArgumentOutOfRange |
| `Calendar.MonthEnd` | PersianDateTime/PersianDate.cs:165 | the day after a month's last day is the first of the next month |
| `Numerals.Wrap32` | PersianDateTime/PersianDate.cs:183 | the 32-bit result of `week * 7`: congruent mod 2^32 and unchanged when it fits |
| `Numerals.ToDecimal` | PersianDateTime/PersianDate.cs:260 | `int.ToString()`: digits, no leading zero, reading back as the number |
| `Numerals.Pad2` | PersianDateTime/PersianDate.cs:263 | `ToString("00")`: at least two digits, exactly two below 100 |
| `Numerals.TryParseInt` | PersianDateTime/PersianDate.cs:291 | an accepted value lies in 0..2^31 − 1 |
| `Numerals.TryParseDecimal` | PersianDateTime/PersianDate.cs:304-306 | the decimal text of a number parses back to it |
| `Numerals.TryParseRejects` | PersianDateTime/PersianDate.cs:291-292 | an empty text, or one with a non-digit, does not parse |
| `Numerals.LastTwoDigits` | PersianDateTime/PersianDate.cs:261 | for a four-digit year, the text after the second digit is the last two digits, zero-padded |
| `Strings.ReplaceDeletes` | PersianDateTime/PersianDate.cs:288-289 | replacing a one-character text by "" is deleting that character: the result is `Without`, the other characters kept in order |
| `Strings.Without` | PersianDateTime/PersianDate.cs:288-289 | deleting a character keeps every other character with its multiplicity and leaves none of the deleted one |
| `Strings.Replace` | PersianDateTime/PersianDate.cs:260-267 | a replacement no longer than the pattern never makes the text longer, and one of the same length keeps the length |
| `Strings.Join` | PersianDateTime/PersianDate.cs:419 | the joined text is as long as the parts plus one separator between each two, and starts with the first part |
| `Strings.Split` | PersianDateTime/PersianDate.cs:300 | at least one part, none containing the separator |
| `Strings.SplitJoin` | PersianDateTime/PersianDate.cs:300 | splitting parts joined by the separator gives the parts back |
| `Strings.JoinSplit` | PersianDateTime/PersianDate.cs:300 | joining the parts of a split gives the text back |
| `DateText.ShortYear` | PersianDateTime/PersianDate.cs:261 | what "yy" evidently means: two digits, the year mod 100 |
| `DateText.FormatAsWritten` | PersianDateTime/PersianDate.cs:258-268 | throws ArgumentOutOfRange exactly for years below 10, whatever the format; otherwise it is the eight replacements with "yy" taken as the text after the year's second digit |
| `DateText.FormatAsWrittenFromYear1000` | PersianDateTime/PersianDate.cs:258-268 | from year 1000 on, the written formatter gives the corrected formatter's text |
| `DateText.Substitute` | PersianDateTime/PersianDate.cs:258-268 | the eight replacements, given the text for "yy": a format holding no y, M, m, D or d comes back unchanged |
| `DateText.Format` | PersianDateTime/PersianDate.cs:258-268 | the corrected formatter never throws; a format without format letters comes back unchanged, and "yy" alone gives the year mod 100 in two digits |
| `DateText.SlashFormat` | PersianDateTime/PersianDate.cs:258-268 | "yyyy/mm/dd" gives year, zero-padded month and day, slash-separated, for every year |
| `DateText.ToString` | PersianDateTime/PersianDate.cs:228 | `ToString()` as written throws ArgumentOutOfRange exactly for years below 10 and otherwise is YYYY/MM/DD |
| `DateText.ToStringCorrected` | PersianDateTime/PersianDate.cs:228 | on the corrected formatter, YYYY/MM/DD for every year, and the written `ToString()` from year 10 on |
| `DateText.ShortFormat` | PersianDateTime/PersianDate.cs:258-268 | "yyyymmdd" gives year, two-digit month and two-digit day |
| `DateText.ToShortString` | PersianDateTime/PersianDate.cs:234 | `ToShortString()` as written throws ArgumentOutOfRange exactly for years below 10 and otherwise is YYYYMMDD |
| `DateText.ToShortStringCorrected` | PersianDateTime/PersianDate.cs:234 | on the corrected formatter, YYYYMMDD for every year, and the written `ToShortString()` from year 10 on |
| `DateText.LongFormat` | PersianDateTime/PersianDate.cs:258-268 | "yyyy MM - DD dd" gives year, month name, weekday name and two-digit day |
| `DateText.ToLongString` | PersianDateTime/PersianDate.cs:241 | `ToLongString()` as written throws ArgumentOutOfRange exactly for years below 10 and otherwise is year, month name, weekday name and two-digit day |
| `DateText.ToLongStringCorrected` | PersianDateTime/PersianDate.cs:241 | on the corrected formatter, the long layout for every year, and the written `ToLongString()` from year 10 on |
| `DateText.Substring` | PersianDateTime/PersianDate.cs:294-296 | `Substring(start, length)`: the slice when it fits, ArgumentOutOfRange otherwise |
| `DateText.StripSeparators` | PersianDateTime/PersianDate.cs:288-289 | the input with every '-' and then every '/' deleted: the other characters, in order |
| `DateText.ReadFields` | PersianDateTime/PersianDate.cs:304-306 | three texts read as numbers exactly when each parses; otherwise FormatError |
| `DateText.FieldsUnseparatedAsWritten` | PersianDateTime/PersianDate.cs:291-296 | the digits-only branch as written: any parseable text of 8 or more characters, fields from positions 0-4, 4-6, 6-8 |
| `DateText.FieldsUnseparated` | PersianDateTime/PersianDate.cs:291-296 | the intended digits-only branch: exactly eight digits |
| `DateText.FieldsSeparated` | PersianDateTime/PersianDate.cs:300-306 | exactly three parts that each parse; otherwise FormatError |
| `DateText.AsFormatError` | PersianDateTime/PersianDate.cs:311-315 | any exception becomes FormatError, and a success is unchanged |
| `DateText.ParseAsWritten` | PersianDateTime/PersianDate.cs:277-318 | without a separator, succeeds exactly when the stripped text parses as an `int`, has at least eight characters and its first 4, 2 and 2 digits name a date; with one, exactly when three parts parse and name a date; yields that date, otherwise FormatError |
| `DateText.Parse` | PersianDateTime/PersianDate.cs:277-318 | with or without separator, succeeds exactly on well-formed text naming a date, yields that date, and otherwise FormatError |
| `DateText.ParseAsWrittenAgrees` | PersianDateTime/PersianDate.cs:286-309 | every text the intended parser accepts, the written one accepts as the same date; with a separator the two parsers are the same |
| `DateText.TryParse` | PersianDateTime/PersianDate.cs:333-346 | (true, the parsed date) exactly when the written `Parse` succeeds, (false, null) otherwise |
| `DateText.TryParseCorrected` | PersianDateTime/PersianDate.cs:333-346 | the same on the intended `Parse` |
| `DateText.ParseToString` | PersianDateTime/PersianDate.cs:300-309 | parsing the text of `ToString()` with '/' gives back the date: with both parsers and `TryParse` on the corrected text for every year, and on the written text whenever it does not throw |
| `DateText.ParseShortString` | PersianDateTime/PersianDate.cs:286-296 | for years from 1000, `ToShortString()` does not throw, and parsing it without a separator gives back the date, with `Parse` and `TryParse` |
| `DateText.ParseAsWrittenIgnoresTail` | PersianDateTime/PersianDate.cs:291-296 | a short string with a digit appended: the written parser and `TryParse` accept it as the same date, the intended parser and its `TryParse` reject it |
| `DateText.ParseRejectsText` | PersianDateTime/PersianDate.cs:291-292 | "bad-input" is rejected with FormatError by both parsers, and both `TryParse` versions report false |
| `Constants.Create` | PersianDateTime/HolidayDate.cs:5-13 | a table entry made by `Create` carries no weekday |
| `Constants.NameTables` | PersianDateTime/Constants.cs:7-11 | 7 weekday names and 12 month names, each non-empty and free of Latin letters, so the format letters cannot occur in them |
| `Constants.FirsOfSeasonTable` | PersianDateTime/Constants.cs:13 | 12 entries, entry i being the first month of month i + 1's quarter |
| `Constants.HolidayTable` | PersianDateTime/Constants.cs:15-28 | every entry has no weekday, a month in 1..12 and a day that month can have; no two entries share a date; 22 Bahman is listed |
| `Holidays.Matching` | PersianDateTime/PersianDate.cs:418 | the entries kept are exactly those in the table that pass the filter |
| `Holidays.Descriptions` | PersianDateTime/PersianDate.cs:419 | one description per matching entry, in order |
| `Holidays.HolidayOf` | PersianDateTime/PersianDate.cs:416-420 | the flag holds exactly when an entry matches; the text is "" when none does |
| `Holidays.MatchingNone` | PersianDateTime/PersianDate.cs:418 | when no entry matches, nothing is selected |
| `Holidays.OnlyMatch` | PersianDateTime/PersianDate.cs:418 | in a table of distinct weekday-free dates, the entry with the date is the only match |
| `Holidays.HolidayOfFixedDistinct` | PersianDateTime/PersianDate.cs:416-420 | in such a table, a holiday is a listed date and its description is that entry's |
| `Holidays.ShippedTableFixedDistinct` | PersianDateTime/Constants.cs:15-28 | the shipped table is such a table |
| `Compare.ComparerEquals` | PersianDateTime/Compare.cs:8 | the comparer's equality holds exactly when year, month and day agree |
| `Compare.ComparerEquivalence` | PersianDateTime/PersianDate.cs:353-358 | that equality is reflexive, symmetric and transitive |
| `Compare.HashConsistent` | PersianDateTime/Compare.cs:10 | equal dates hash alike, whatever `HashCode.Combine` does |
| `Compare.ComparerEqualsIsIdentity` | PersianDateTime/PersianDate.cs:353-358 | on valid dates, equality of the triple is equality of the value and of the instant |
| `Compare.EqualsIgnoresDerivedFields` | PersianDateTime/PersianDate.cs:353-358 | changing stored derived fields never makes dates unequal |
| `Compare.SteppedEqualsConstructed` | PersianDateTime/PersianDate.cs:353-358 | a stepped date equals the one the constructor builds from its triple |
| `Calander.Leading` | PersianDateTime/PersianCalander.cs:56-59 | the first loop: the i days before day 1, in order, or ArgumentException if they leave the range |
| `Calander.Middle` | PersianDateTime/PersianCalander.cs:63-66 | the second loop: the days after day 1 up to the month's last, in order, or ArgumentException |
| `Calander.Trailing` | PersianDateTime/PersianCalander.cs:68-71 | the third loop: the `finish` days after the month's last, in order, or ArgumentException |
| `Calander.MonthAndTrailing` | PersianDateTime/PersianCalander.cs:61-71 | day 1, the rest of the month and the trailing days form one run of consecutive days |
| `Calander.Assemble` | PersianDateTime/PersianCalander.cs:52-71 | the three loops give one run from the Shanbe before day 1 to the Jome after the last day |
| `Calander.CalanderDays` | PersianDateTime/PersianCalander.cs:44-74 | the grid is the run of consecutive valid days from `GridStart` to `GridEnd`; it throws exactly when that span or the next month leaves the range: ArgumentOutOfRange for Esfand 9378, whose next month is missing, and ArgumentException otherwise |
| `Calander.GridBounds` | PersianDateTime/PersianCalander.cs:49-53 | `start` and `finish` put the grid's ends on the Shanbe on or before day 1 and the Jome on or after the last day |
| `Calander.GridWeekdays` | PersianDateTime/PersianCalander.cs:52-53 | the grid starts on a Shanbe and ends on a Jome |
| `Calander.GridWeeks` | PersianDateTime/PersianCalander.cs:52-71 | the grid spans 35 or 42 days |
| `Calander.GridShape` | PersianDateTime/PersianCalander.cs:44-74 | a grid has 35 or 42 cells, the first a Shanbe and the last a Jome |
| `Calander.GridMonth` | PersianDateTime/PersianCalander.cs:61-66 | cell k is in the month exactly when `lead <= k < lead + days`, and then it is day `k - lead + 1` |
| `Calander.GridOfMonth` | PersianDateTime/PersianCalander.cs:49-50 | the grid depends only on the month: any day of it gives the grid of day 1 |
| `Calander.SameMonthSameGrid` | PersianDateTime/PersianCalander.cs:49-50 | two runs spanning the grid of the same month are equal |
| `Calander.GridExists` | PersianDateTime/PersianCalander.cs:44-74 | a month has a grid exactly when it is neither Farvardin 1 nor Esfand 9378 |
| `Calander.FirstMonthHasNoGrid` | PersianDateTime/PersianCalander.cs:56-59 | 1 Farvardin 1 is a Jome, so the first loop steps before day 0 and throws |
| `Calander.MoveMonths` | PersianDateTime/PersianCalander.cs:19-20 | the selected date moves by n months with the day clamped, the grid is rebuilt; it throws exactly when the month reached is not strictly between Farvardin 1 and Esfand 9378; on a throw the grid stays, and the exception is ArgumentException for Farvardin 1 and ArgumentOutOfRange otherwise |
| `Calander.NextMonth` | PersianDateTime/PersianCalander.cs:17-21 | one month on, and the grid on show is the new month's; throws ArgumentOutOfRange exactly from Bahman and Esfand 9378, and the grid stays |
| `Calander.PreviousMonthAsWritten` | PersianDateTime/PersianCalander.cs:28-32 | as written, the month index goes up by one; throws exactly from Bahman and Esfand 9378 |
| `Calander.PreviousMonthAsWrittenGoesForward` | PersianDateTime/PersianCalander.cs:30 | the written `PreviousMonth` is `NextMonth` and moves forward |
| `Calander.PreviousMonth` | PersianDateTime/PersianCalander.cs:28-32 | one month back, and the grid is the new month's; throws exactly from Farvardin and Ordibehesht of year 1, the latter with ArgumentException because Farvardin 1 has no grid |
| `Calander.NextMonthUndoesPreviousMonth` | PersianDateTime/PersianCalander.cs:17-32 | a month back and a month on returns to the same month and the same grid |
| `Calander.NextYear` | PersianDateTime/PersianCalander.cs:23-26 | the year goes up by one with the month kept and the day clamped to the month a year on; the grid is left as it was; throws only in 9378 |
| `Calander.NextYearLeavesGridBehind` | PersianDateTime/PersianCalander.cs:23-26 | after `NextYear` the grid on show is no longer the selected month's |
| `Scenarios.BeginOfMonthCase` | ZPersianDateTime.Test/ZPersianDateTimeTest.cs:31-40 | 23 Dey 1397 begins its month on 1 Dey |
| `Scenarios.EndOfMonthCase` | ZPersianDateTime.Test/ZPersianDateTimeTest.cs:43-52 | Dey 1397 ends on the 30th |
| `Scenarios.BeginOfWeekCase` | ZPersianDateTime.Test/ZPersianDateTimeTest.cs:56-65 | if 23 Dey 1397 is a Yekshanbe, its week begins on 22 Dey |
| `Scenarios.EndOfWeekCase` | ZPersianDateTime.Test/ZPersianDateTimeTest.cs:68-77 | if 23 Dey 1397 is a Yekshanbe, its week ends on 28 Dey |
| `Scenarios.BeginOfYearCase` | ZPersianDateTime.Test/ZPersianDateTimeTest.cs:81-90 | 1 Farvardin 1397 is its year's beginning |
| `Scenarios.EndOfYearCase` | ZPersianDateTime.Test/ZPersianDateTimeTest.cs:93-102 | if 1397 is a common year, it ends on 29 Esfand |
| `Scenarios.GotoWeeksCase` | ZPersianDateTime.Test/ZPersianDateTimeTest.cs:107-113 | two weeks on from 1 Farvardin 1397 equals 15 Farvardin |
| `Scenarios.GotoDaysCase` | ZPersianDateTime.Test/ZPersianDateTimeTest.cs:116-122 | ten days on equals 11 Farvardin |
| `Scenarios.GotoMonthsCase` | ZPersianDateTime.Test/ZPersianDateTimeTest.cs:125-131 | a month on equals 1 Ordibehesht |
| `Scenarios.GotoYearsCase` | ZPersianDateTime.Test/ZPersianDateTimeTest.cs:134-140 | a year on equals 1 Farvardin 1398 |
| `Scenarios.IsHolidayCase` | ZPersianDateTime.Test/ZPersianDateTimeTest.cs:144-149 | 22 Bahman 1397 is a holiday, whatever its weekday |

## Left out

- The Gregorian ⇄ Jalali algorithm and the leap rule of `System.Globalization.PersianCalendar`: the leap rule is a parameter and the calendar is the abstract day-number calendar above. Day clamping in `AddMonths`, and `AddYears` as `AddMonths(time, years * 12)` with unchecked arithmetic, are assumptions about that library.
- The calendar's upper end: .NET stops at 10 Dey 9378 (`DateTime.MaxValue`), while the model supports the whole of year 9378.
- The Gregorian field checks of the tests (ZPersianDateTime.Test/ZPersianDateTimeTest.cs:10-27): they depend on the unmodelled conversion.
- `Today`, `MaxValue`, `MinValue` and `PersianDateExtended.IsToday`: they read the system clock or `DateTime` constants.
- `PreviousYear` and `Today` of `PersianCalander` throw `NotImplementedException`, and `_deactive_Dates` is never used. `_selectedDate` is never initialised in the source, so the model takes the state as an argument. `ICalander.cs` is an interface with no logic.
- `Copy` and `Change` pass a `PersianDate` to `_init(DateTime, PersianDate)` (PersianDateTime/PersianDate.cs:470), so the implicit conversion (PersianDateTime/PersianDate.cs:364) hands it the instant, and `_init` derives every field again from that instant; for a valid date this gives back the same date. `Change` writes into its receiver; the model returns the new value instead, and every caller applies `Change` to a fresh `Copy`.
- The public setter of `DayOfWeek`: the model covers only dates the type itself builds (`Valid`).
- The leniency of `int.TryParse` (signs, white space, culture) and the messages of the exceptions.
- `Environment.NewLine` is the fixed separator "\n".
- The text of the name tables and holiday descriptions is carried but only its length and lack of Latin letters are proved.
- `PersianDate.cs` names the tables `cosntNameOfDays`, `cosntNameOfMonths`, `cosntFirsOfSeason` and `constofHoliday`, and reads a weekday on holiday entries. `Constants.cs` and `HolidayDate.cs` declare other names and no weekday. The model reads the declared tables and gives each entry an optional weekday, always absent.
- `PersianDates.NameOfDays`, `PersianDates.NameOfMonth` and `PersianDates.Equals` are plain lookups or comparisons without a contract of their own. `Constants.NameTables`, `DateText.LongFormat` and the `Compare` lemmas state their properties.
- `PersianDates.HolidayDescription`: its own contract states only the empty case. The one-entry description is proved for the shipped table in `PersianDates.ShippedHoliday`. The joining of several matches, which the shipped table cannot produce, is not stated.
- `PersianDates.Goto`: its own contract says only that the result is valid, or ArgumentOutOfRange or ArgumentException. `PersianDates.GotoComposes` shows it is `GotoYears`, then `GotoMonths`, then `GotoDays`, and each of those states its exact result.
- `PersianDates.StepInstant`: its contract only states range and error. Each single step is related to the calendar by the `Step*Only` lemmas.
- `PersianDates.GetBeginOfSeason`: its own contract is weaker than the table; equality with `BeginOfSeason` is `PersianDates.GetBeginOfSeasonIsBeginOfSeason`.
- `PersianDates.GetEndOfSeason`: the same holds, with `PersianDates.GetEndOfSeasonIsEndOfSeason`.
- `DateText.ParseShortString`: the round trip is stated only for years from 1000. Shorter years give a short string of fewer than eight characters, which `Parse` rejects.
- `Numerals.TryParseInt`: its contract states only the bound. Exact acceptance is `Numerals.TryParseShort`, `Numerals.TryParseDecimal` and `Numerals.TryParseRejects`.
- `Calander.NextMonth`: the day clamp is stated on `Calander.MoveMonths`, not repeated here.

## Findings

| source | as written | input that shows it | evidently intended | confidence | as-written member | corrected member |
|---|---|---|---|---|---|---|
| PersianDateTime/PersianDate.cs:25 | the guard tests the property `Month`, still 0, instead of the argument `month` | `new PersianDate(1397, 13, 1)` passes the guard and fails in the calendar with ArgumentOutOfRange | a month above 12 is refused by the guard with NotSupported | high, not executed | `PersianDates.NewAsWritten` (`PersianDates.NewAsWrittenAgrees`, `PersianDates.GuardAdmitsMonth13`) | `PersianDates.New` |
| PersianDateTime/PersianDate.cs:140 | `FirsOfSeason[Month]` indexes one past the month | Khordad (month 3) gives 1 Tir, in Summer; Esfand (month 12) throws IndexOutOfRange | `FirsOfSeason[Month - 1]`, day 1 of the date's own season | high, not executed | `PersianDates.BeginOfSeasonAsWritten` (`PersianDates.BeginOfSeasonAsWrittenSkips`, `PersianDates.BeginOfSeasonAsWrittenAgrees`) | `PersianDates.BeginOfSeason` |
| PersianDateTime/PersianDate.cs:430 | `_getBeginOfSeason` answers month 3 for Summer | any date in Tir, Mordad or Shahrivar gives day 1 of Khordad, in Spring | month 4 | high, not executed | `PersianDates.GetBeginOfSeasonAsWritten` | `PersianDates.GetBeginOfSeason` (`PersianDates.GetBeginOfSeasonIsBeginOfSeason`) |
| PersianDateTime/PersianDate.cs:261 | `Year.ToString().Substring(2)` runs for every format | any date of years 1 to 9: `ToString()` throws although "yyyy/mm/dd" has no "yy" | "yy" is the last two digits, and formatting never throws | high, not executed | `DateText.FormatAsWritten` (`DateText.ToString`, `DateText.ToShortString`, `DateText.ToLongString`) | `DateText.Format` (`DateText.ToStringCorrected`, `DateText.ToShortStringCorrected`, `DateText.ToLongStringCorrected`) |
| PersianDateTime/PersianDate.cs:291-296 | the digits-only branch checks only that the text parses and slices the first eight characters | "139701015" parses as 1 Farvardin 1397 | a digits-only date is exactly eight digits | medium, not executed | `DateText.ParseAsWritten` (`DateText.TryParse`, `DateText.ParseAsWrittenIgnoresTail`) | `DateText.Parse` (`DateText.TryParseCorrected`, `DateText.ParseAsWrittenAgrees`) |
| PersianDateTime/PersianCalander.cs:30 | `PreviousMonth` calls `GotoMonths(1)` | any state: `PreviousMonth` shows the next month | `GotoMonths(-1)` | high, not executed | `Calander.PreviousMonthAsWritten` (`Calander.PreviousMonthAsWrittenGoesForward`) | `Calander.PreviousMonth` (`Calander.NextMonthUndoesPreviousMonth`) |
