/** `FiledMatcher`: one field of a cron model, matched against and moving the shared date. */
module FieldMatcher {
  import opened Wrappers
  import opened CronTypes
  import opened CronConstants
  import opened Calendar
  import opened DateCursor
  import opened MatcherRules

  /** `CRON_FIELD_DATE_UNIT_MAP`: both day fields move the day of the month. */
  function FieldUnit(field: CronField): DateUnit {
    match field
    case Seconds => SecondsUnit
    case Minutes => MinutesUnit
    case Hours => HoursUnit
    case DayOfMonth => DayUnit
    case Month => MonthUnit
    case DayOfWeek => DayUnit
    case Year => YearUnit
  }

  /** `getCronFieldByUnit`: the day unit belongs to the day of week unless that is `?`. */
  function CronFieldByUnit(unit: DateUnit, model: CronModel): (f: CronField)
    ensures FieldUnit(f) == unit
  {
    match unit
    case YearUnit => Year
    case MonthUnit => Month
    case DayUnit => if model.dayOfWeek.Unspecified? then DayOfMonth else DayOfWeek
    case HoursUnit => Hours
    case MinutesUnit => Minutes
    case SecondsUnit => Seconds
  }

  /** `DATE_API_MAP[unit].delta`: `setMonth` counts months from zero. */
  function SetDelta(unit: DateUnit): int {
    if unit == MonthUnit then 1 else 0
  }

  /** The date `resetBelowDate` leaves, from unit index `i` on: every lower unit set in turn. */
  function ResetFrom(t: DateTime, model: CronModel, i: nat): (r: DateTime)
    requires 1 <= i <= |DateUnitList|
    ensures Valid(t) ==> Valid(r)
    decreases |DateUnitList| - i
  {
    if i == |DateUnitList| then t
    else
      var unit := DateUnitList[i];
      var v := ValueRange(CronFieldByUnit(unit, model)).min - SetDelta(unit);
      ResetFrom(Set(t, unit, v), model, i + 1)
  }

  /** One step of the reset: the unit at index `i` first, then the ones below it. */
  lemma ResetFromStep(t: DateTime, u: DateUnit, v: int, t2: DateTime, model: CronModel, i: nat)
    requires 1 <= i < |DateUnitList| && u == DateUnitList[i] && v == ValueRange(CronFieldByUnit(u, model)).min - SetDelta(u)
    requires t2 == Set(t, u, v)
    ensures ResetFrom(t2, model, i + 1) == ResetFrom(t, model, i)
  {
  }

  /** `t` with every unit from index `i` on at its least value. */
  function ClearedFrom(t: DateTime, i: nat): DateTime {
    DateTime(t.year,
      if i <= 1 then 0 else t.month,
      if i <= 2 then 1 else t.day,
      if i <= 3 then 0 else t.hours,
      if i <= 4 then 0 else t.minutes,
      if i <= 5 then 0 else t.seconds)
  }

  /**
   * Resetting the lower units sets each to its least value and leaves the units above alone:
   * no setter rolls over, as each lower minimum fits in every month.
   */
  lemma {:induction false} ResetFromClears(t: DateTime, model: CronModel, i: nat)
    requires Valid(t) && 1 <= i <= |DateUnitList|
    ensures ResetFrom(t, model, i) == ClearedFrom(t, i)
    decreases |DateUnitList| - i
  {
    if i < |DateUnitList| {
      var unit := DateUnitList[i];
      var v := ValueRange(CronFieldByUnit(unit, model)).min - SetDelta(unit);
      assert v == UnitMin(unit);
      SetInRange(t, unit, v);
      ResetFromClears(Set(t, unit, v), model, i + 1);
    }
  }

  /** Clearing the lower units moves the date back, never forward, within the unit above. */
  lemma ClearedNotLater(t: DateTime, i: nat)
    requires Valid(t) && 1 <= i
    ensures Valid(ClearedFrom(t, i))
    ensures Instant(ClearedFrom(t, i)) <= Instant(t)
  {
    var c := ClearedFrom(t, i);
    if (c.year, c.month, c.day) != (t.year, t.month, t.day) {
      DayNumberOrder(c.year, c.month, c.day, t.year, t.month, t.day);
    }
  }

  /** The unit above a unit, in `DATE_UNIT_LIST`. */
  function HigherUnit(unit: DateUnit): DateUnit
    requires unit != YearUnit
  {
    DateUnitList[UnitIndex(unit) - 1]
  }

  /** The date `resetBelowDate` leaves for `field`. */
  function ResetBelow(t: DateTime, model: CronModel, field: CronField): DateTime {
    ResetFrom(t, model, UnitIndex(FieldUnit(field)) + 1)
  }

  /** The date `resetSelfDate` leaves: the field's unit at the field's least value. */
  function ResetSelf(t: DateTime, field: CronField): DateTime {
    Set(t, FieldUnit(field), ValueRange(field).min - SetDelta(FieldUnit(field)))
  }

  /** The date `advanceHigherUnitDate` leaves: the unit above `u` moved on by one. */
  function AdvanceHigher(t: DateTime, u: DateUnit): DateTime
    requires u != YearUnit
  {
    Set(t, HigherUnit(u), Get(t, HigherUnit(u)) + 1)
  }

  /** The date `setToNextValidDate(next)` leaves. */
  function SetNextValid(t: DateTime, model: CronModel, field: CronField, next: Option<int>): DateTime
    requires 0 <= t.month < 12
  {
    var n := if next.Some? then next else FirstValidValue(model.Get(field), ValueRange(field).min, t.year, t.month);
    if n.Some? then Set(t, FieldUnit(field), n.value - SetDelta(FieldUnit(field))) else t
  }

  /** One field's matcher; every matcher of a schedule shares the same cursor. */
  class Matcher {
    const date: Cursor
    const cronModel: CronModel
    const cronField: CronField

    constructor (date: Cursor, cronModel: CronModel, cronField: CronField)
      ensures this.date == date && this.cronModel == cronModel && this.cronField == cronField
    {
      this.date := date;
      this.cronModel := cronModel;
      this.cronField := cronField;
    }

    /** `unit`: the date unit the field moves. */
    function Unit(): DateUnit {
      FieldUnit(cronField)
    }

    /** `match()`: whether the cursor's date satisfies the field. */
    method Match() returns (r: bool)
      requires date.Valid()
      ensures r == MatchAt(cronField, cronModel, date.Value())
    {
      var t := date.Value();
      var fm := cronModel.Get(cronField);
      var value := FieldValue(cronField, t);
      if cronField != DayOfMonth && cronField != DayOfWeek {
        return CommonMatch(value, fm);
      }
      if CommonMatch(value, fm) {
        return true;
      }
      if cronField == DayOfMonth {
        match fm
        case LastDay => r := t.day == GetLastDay(t.year, t.month);
        case LastDayOffset(offset) => r := t.day == GetLastDay(t.year, t.month) - offset;
        case NearestWeekday(d) => r := t.day == GetNearestWeekday(t.year, t.month, d);
        case _ => r := false;
      } else {
        match fm
        case NthWeekOfMonth(n, w) => r := GetNthWeekdayOfMonth(t.year, t.month, n, w) == Some(t.day);
        case LastWeekdayOfMonth(w) =>
          var d := GetLastWeekdayOfMonth(t.year, t.month, w);
          r := t.day == d;
        case _ => r := false;
      }
    }

    /** `next()`: the field's next value after the cursor's, or `None` for `null`. */
    method Next() returns (r: Option<int>)
      requires date.Valid() && NextEnds(cronField, cronModel, date.Value())
      ensures r == NextAt(cronField, cronModel, date.Value())
    {
      var t := date.Value();
      var fm := cronModel.Get(cronField);
      var max := NextMax(cronField, t);
      if cronField != DayOfMonth && cronField != DayOfWeek {
        r := CommonNext(FieldValue(cronField, t), fm, max, None);
        return;
      }
      if cronField == DayOfMonth {
        r := CommonNext(t.day, fm, max, None);
        if r.Some? {
          return;
        }
        match fm
        case LastDay =>
          var last := GetLastDay(t.year, t.month);
          r := if last <= t.day then None else Some(last);
        case LastDayOffset(offset) =>
          var v := GetLastDay(t.year, t.month) - offset;
          r := if v <= t.day then None else Some(v);
        case NearestWeekday(d) =>
          var v := GetNearestWeekday(t.year, t.month, d);
          r := if v <= t.day then None else Some(v);
        case _ => r := None;
      } else {
        match fm
        case Every => r := NextWeekday(t, fm);
        case Range(_, _) => r := NextWeekday(t, fm);
        case List(_) => r := NextWeekday(t, fm);
        case NthWeekOfMonth(n, w) =>
          var d := GetNthWeekdayOfMonth(t.year, t.month, n, w);
          r := if d.None? || d.value <= t.day then None else d;
        case LastWeekdayOfMonth(w) =>
          var d := GetLastWeekdayOfMonth(t.year, t.month, w);
          r := if d <= t.day then None else Some(d);
        case _ => r := None;
      }
    }

    /** The day of week's next day in a common mode. */
    static method NextWeekday(t: DateTime, fm: FieldModel) returns (r: Option<int>)
      requires Valid(t) && (fm.Every? || fm.Range? || fm.List?)
      ensures r == WeekdayNext(t, fm)
    {
      var current := WeekDay(t.year, t.month, t.day) + 1;
      var nextWeek := CommonNext(current, fm, ValueRange(DayOfWeek).max, Some(ValueRange(DayOfWeek).min));
      if nextWeek.None? {
        return None;
      }
      var nextDate := t.day + WeekGap(nextWeek.value - current);
      if nextDate > GetLastDay(t.year, t.month) || nextDate <= t.day {
        return None;
      }
      return Some(nextDate);
    }

    /** `resetSelfDate()`: the field's unit set to the field's least value. */
    method ResetSelfDate()
      modifies date
      ensures date.Value() == ResetSelf(old(date.Value()), cronField)
      ensures date.Valid()
    {
      date.SetUnit(Unit(), ValueRange(cronField).min - SetDelta(Unit()));
    }

    /** `resetBelowDate()`: every unit below the field's set, in turn, to its least value. */
    method ResetBelowDate()
      requires date.Valid()
      modifies date
      ensures date.Value() == ResetBelow(old(date.Value()), cronModel, cronField)
      ensures date.Valid()
    {
      ghost var start := date.Value();
      var i := UnitIndex(Unit()) + 1;
      while i < |DateUnitList|
        invariant UnitIndex(Unit()) + 1 <= i <= |DateUnitList|
        invariant date.Valid()
        invariant ResetFrom(date.Value(), cronModel, i) == ResetFrom(start, cronModel, UnitIndex(Unit()) + 1)
        decreases |DateUnitList| - i
      {
        ResetUnitAt(i);
        i := i + 1;
      }
    }

    /** One round of `resetBelowDate`: the unit at index `i` set to its field's least value. */
    method ResetUnitAt(i: nat)
      requires 1 <= i < |DateUnitList| && date.Valid()
      modifies date
      ensures date.Valid() && ResetFrom(date.Value(), cronModel, i + 1) == ResetFrom(old(date.Value()), cronModel, i)
    {
      var lowerUnit := DateUnitList[i];
      var lowerField := CronFieldByUnit(lowerUnit, cronModel);
      var firstValidValue := ValueRange(lowerField).min;
      ghost var before := date.Value();
      var v := firstValidValue - SetDelta(lowerUnit);
      date.SetUnit(lowerUnit, v);
      ResetFromStep(before, lowerUnit, v, date.Value(), cronModel, i);
    }

    /**
     * `advanceHigherUnitDate()`: the unit above the field's moved on by one. For the year there
     * is none and the source throws; the schedule never asks for it.
     */
    method AdvanceHigherUnitDate()
      requires cronField != Year
      modifies date
      ensures date.Value() == AdvanceHigher(old(date.Value()), Unit())
      ensures date.Valid()
    {
      var higherUnit := HigherUnit(Unit());
      var value := date.GetUnit(higherUnit) + 1;
      date.SetUnit(higherUnit, value);
    }

    /**
     * `setToNextValidDate(nextValue)`: the field's unit set to the given value, or without one to
     * the field's first valid value in the cursor's month; without either, nothing changes.
     */
    method SetToNextValidDate(nextValue: Option<int>)
      requires date.Valid()
      modifies date
      ensures date.Value() == SetNextValid(old(date.Value()), cronModel, cronField, nextValue)
      ensures date.Valid()
    {
      var next := nextValue;
      if next.None? {
        next := GetFirstValidValue(cronModel.Get(cronField), ValueRange(cronField).min, date.year, date.month);
      }
      if next.Some? {
        date.SetUnit(Unit(), next.value - SetDelta(Unit()));
      }
    }
  }
}
