/** The static tables of the date type: weekday names, month names, the first month
    of each month's season, and the holiday table. */
module Constants {
  import opened Wrappers
  import opened Enums

  /** Weekday names, indexed by the `PersianDayOfWeek` value (Saturday = 0). */
  const NameOfDays: seq<string> :=
    ["شنبه", "یک شنبه", "دوشنبه", "سه شنبه", "چهارشنبه", "پنج شنبه", "جمعه"]

  /** Month names, indexed by month - 1. */
  const NameOfMonths: seq<string> :=
    ["فروردین", "اردیبهشت", "خرداد", "تیر", "مرداد", "شهریور", "مهر", "آبان", "آذر", "دی", "بهمن", "اسفند"]

  /** The first month of the season of month i + 1, at index i. */
  const FirsOfSeason: seq<int> := [1, 1, 1, 4, 4, 4, 7, 7, 7, 10, 10, 10]

  /** A holiday: a fixed month and day, or, when `dayOfWeek` is present, every such
      weekday. */
  datatype HolidayDate = HolidayDate(month: int, day: int, dayOfWeek: Option<PersianDayOfWeek>, description: string)

  /** `HolidayDate.Create`: a fixed-date holiday, with no weekday. */
  function Create(month: int, day: int, description: string): (h: HolidayDate)
    ensures h.dayOfWeek == None
  {
    HolidayDate(month, day, None, description)
  }

  const Holiday: seq<HolidayDate> := [
    Create(1, 1, "نوروز"),
    Create(1, 3, "نوروز"),
    Create(1, 4, "نوروز"),
    Create(1, 5, "نوروز"),
    Create(1, 13, "روز طبیعت"),
    Create(1, 12, "روز جمهموری اسلامی"),
    Create(3, 14, "رحلت آیت الله خمینی"),
    Create(3, 15, "قیام ۱۵ خرداد"),
    Create(11, 22, "پیروزی انقلاب ۵۷"),
    Create(12, 29, "ملی شدن صعنت نفت"),
    Create(12, 30, "نوروز")
  ]

  /** No Latin letter occurs in `s`, so no format token can match inside it. */
  predicate NoLatinLetters(s: string) {
    forall c | c in s :: !('A' <= c <= 'Z' || 'a' <= c <= 'z')
  }

  /** The name tables have one entry per weekday and per month, and the names are
      non-empty and free of Latin letters. */
  lemma NameTables()
    ensures |NameOfDays| == 7 && |NameOfMonths| == 12
    ensures forall i | 0 <= i < 7 :: |NameOfDays[i]| > 0 && NoLatinLetters(NameOfDays[i])
    ensures forall i | 0 <= i < 12 :: |NameOfMonths[i]| > 0 && NoLatinLetters(NameOfMonths[i])
  {
  }

  /** `FirsOfSeason[i]` is the first month of the quarter that month i + 1 is in. */
  lemma FirsOfSeasonTable()
    ensures |FirsOfSeason| == 12
    ensures forall i | 0 <= i < 12 :: FirsOfSeason[i] == 3 * (i / 3) + 1
  {
  }

  /** The longest a month can be: 31 days for months 1..6, 30 for months 7..12. */
  function MaxDaysInMonth(month: int): int {
    if month <= 6 then 31 else 30
  }

  /** Every holiday entry is a fixed date that some year has, with no weekday and a
      description; no two entries share a date; (11, 22) is one of them. */
  lemma HolidayTable()
    ensures forall i | 0 <= i < |Holiday| ::
      && Holiday[i].dayOfWeek == None
      && 1 <= Holiday[i].month <= 12
      && 1 <= Holiday[i].day <= MaxDaysInMonth(Holiday[i].month)
      && |Holiday[i].description| > 0
    ensures forall i, j | 0 <= i < j < |Holiday| ::
      (Holiday[i].month, Holiday[i].day) != (Holiday[j].month, Holiday[j].day)
    ensures exists i | 0 <= i < |Holiday| :: Holiday[i].month == 11 && Holiday[i].day == 22
  {
    assert Holiday[8].month == 11 && Holiday[8].day == 22;
  }
}
