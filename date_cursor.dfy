/** The mutable `Date` the schedule walks forward: its units, getters and rolling setters. */
module DateCursor {
  import opened Calendar

  /** `DATE_UNIT_LIST`'s units, from the largest. */
  datatype DateUnit = YearUnit | MonthUnit | DayUnit | HoursUnit | MinutesUnit | SecondsUnit

  const DateUnitList: seq<DateUnit> := [YearUnit, MonthUnit, DayUnit, HoursUnit, MinutesUnit, SecondsUnit]

  /** The unit's place in `DATE_UNIT_LIST`. */
  function UnitIndex(u: DateUnit): (i: nat)
    ensures i < |DateUnitList| && DateUnitList[i] == u
  {
    match u
    case YearUnit => 0
    case MonthUnit => 1
    case DayUnit => 2
    case HoursUnit => 3
    case MinutesUnit => 4
    case SecondsUnit => 5
  }

  /** `getFullYear`, `getMonth` (0-11), `getDate`, `getHours`, `getMinutes`, `getSeconds` */
  function Get(t: DateTime, u: DateUnit): int {
    match u
    case YearUnit => t.year
    case MonthUnit => t.month
    case DayUnit => t.day
    case HoursUnit => t.hours
    case MinutesUnit => t.minutes
    case SecondsUnit => t.seconds
  }

  /** `setFullYear(v)`, `setMonth(v)`, `setDate(v)`, ...: the unit replaced, the result rolled over. */
  function Set(t: DateTime, u: DateUnit, v: int): (r: DateTime)
    ensures Valid(r)
  {
    match u
    case YearUnit => Normalize(v, t.month, t.day, t.hours, t.minutes, t.seconds)
    case MonthUnit => Normalize(t.year, v, t.day, t.hours, t.minutes, t.seconds)
    case DayUnit => Normalize(t.year, t.month, v, t.hours, t.minutes, t.seconds)
    case HoursUnit => Normalize(t.year, t.month, t.day, v, t.minutes, t.seconds)
    case MinutesUnit => Normalize(t.year, t.month, t.day, t.hours, v, t.seconds)
    case SecondsUnit => Normalize(t.year, t.month, t.day, t.hours, t.minutes, v)
  }

  /** The largest value of a unit (a day's for the given month) that needs no roll-over. */
  function UnitMax(t: DateTime, u: DateUnit): int
    requires 0 <= t.month < 12
  {
    match u
    case YearUnit => t.year
    case MonthUnit => 11
    case DayUnit => DaysInMonth(t.year, t.month)
    case HoursUnit => 23
    case MinutesUnit => 59
    case SecondsUnit => 59
  }

  function UnitMin(u: DateUnit): int {
    if u == DayUnit then 1 else 0
  }

  /**
   * Setting the time or the day moves the instant by the change times the unit's length in
   * seconds, whatever the value: an out-of-range value rolls over into the units above.
   */
  lemma SetMovesInstant(t: DateTime, u: DateUnit, v: int)
    requires Valid(t) && u in {DayUnit, HoursUnit, MinutesUnit, SecondsUnit}
    ensures Instant(Set(t, u, v)) == Instant(t) + (v - Get(t, u)) * UnitSeconds(u)
  {
    ValidMonthFirst(t);
    match u
    case DayUnit => NormalizeInstant(t.year, t.month, v, t.hours, t.minutes, t.seconds);
    case HoursUnit => NormalizeInstant(t.year, t.month, t.day, v, t.minutes, t.seconds);
    case MinutesUnit => NormalizeInstant(t.year, t.month, t.day, t.hours, v, t.seconds);
    case SecondsUnit => NormalizeInstant(t.year, t.month, t.day, t.hours, t.minutes, v);
  }

  /** A valid date's day number counts from the first of its month. */
  lemma ValidMonthFirst(t: DateTime)
    requires Valid(t)
    ensures (MonthFirst(t.year, t.month) + t.day - 1) * 86400 == DayNumber(t.year, t.month, t.day) * 86400
  {
    assert t.month / 12 == 0 && t.month % 12 == t.month;
  }

  function UnitSeconds(u: DateUnit): int {
    match u
    case DayUnit => 86400
    case HoursUnit => 3600
    case MinutesUnit => 60
    case _ => 1
  }

  /** A value within the unit's range changes that unit alone. */
  lemma SetInRange(t: DateTime, u: DateUnit, v: int)
    requires Valid(t)
    requires u != YearUnit ==> UnitMin(u) <= v <= UnitMax(t, u)
    requires u == MonthUnit ==> t.day <= DaysInMonth(t.year, v)
    requires u == YearUnit ==> t.day <= DaysInMonth(v, t.month)
    ensures Set(t, u, v) == match u
      case YearUnit => t.(year := v)
      case MonthUnit => t.(month := v)
      case DayUnit => t.(day := v)
      case HoursUnit => t.(hours := v)
      case MinutesUnit => t.(minutes := v)
      case SecondsUnit => t.(seconds := v)
  {
    match u
    case YearUnit => NormalizeValid(t.(year := v));
    case MonthUnit => NormalizeValid(t.(month := v));
    case DayUnit => NormalizeValid(t.(day := v));
    case HoursUnit => NormalizeValid(t.(hours := v));
    case MinutesUnit => NormalizeValid(t.(minutes := v));
    case SecondsUnit => NormalizeValid(t.(seconds := v));
  }

  /** The shared, mutable `Date`. */
  class Cursor {
    var year: int
    var month: int
    var day: int
    var hours: int
    var minutes: int
    var seconds: int

    function Value(): DateTime
      reads this
    {
      DateTime(year, month, day, hours, minutes, seconds)
    }

    ghost predicate Valid()
      reads this
    {
      Calendar.Valid(Value())
    }

    /** `new Date(t)`: a copy of a date. */
    constructor (t: DateTime)
      requires Calendar.Valid(t)
      ensures Value() == t && Valid()
    {
      year, month, day, hours, minutes, seconds := t.year, t.month, t.day, t.hours, t.minutes, t.seconds;
    }

    function GetUnit(u: DateUnit): int
      reads this
    {
      Get(Value(), u)
    }

    /** `getDay()` */
    function GetDay(): int
      reads this
      requires Valid()
    {
      WeekDay(year, month, day)
    }

    /** The unit's setter: writes the value and rolls the date over. */
    method SetUnit(u: DateUnit, v: int)
      modifies this
      ensures Value() == Set(old(Value()), u, v) && Valid()
    {
      var r := Set(Value(), u, v);
      year, month, day, hours, minutes, seconds := r.year, r.month, r.day, r.hours, r.minutes, r.seconds;
    }
  }
}
