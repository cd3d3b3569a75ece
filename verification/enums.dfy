/** The enumerations the date type exposes. Their C# declarations are not part of
    this model; the members below are the ones the date code names. */
module Enums {

  /** Persian weekday, Saturday (Shanbe) first. The position is the C# enum value
      that indexes the weekday-name table. */
  datatype PersianDayOfWeek =
    | Shanbe        // Saturday
    | YekShanbe     // Sunday
    | DoShanbe      // Monday
    | SeShanbe      // Tuesday
    | ChaharShanbe  // Wednesday
    | PanjShanbe    // Thursday
    | Jome          // Friday
  {
    function Index(): (i: int)
      ensures 0 <= i < 7
    {
      match this
      case Shanbe => 0
      case YekShanbe => 1
      case DoShanbe => 2
      case SeShanbe => 3
      case ChaharShanbe => 4
      case PanjShanbe => 5
      case Jome => 6
    }
  }

  /** The weekday with enum value `i`: the inverse of `Index`. */
  function PersianDayOfWeekOf(i: int): (w: PersianDayOfWeek)
    requires 0 <= i < 7
    ensures w.Index() == i
  {
    if i == 0 then Shanbe
    else if i == 1 then YekShanbe
    else if i == 2 then DoShanbe
    else if i == 3 then SeShanbe
    else if i == 4 then ChaharShanbe
    else if i == 5 then PanjShanbe
    else Jome
  }

  datatype Season = Spring | Summer | Autumn | Winter {
    function Index(): (i: int)
      ensures 0 <= i < 4
    {
      match this
      case Spring => 0
      case Summer => 1
      case Autumn => 2
      case Winter => 3
    }
  }

  datatype HalfOfYear = First | Second
}
