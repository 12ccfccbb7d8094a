/** `getNextNTimes` and `formatDate`: the schedule of a cron model after a date. */
module Schedule {
  import opened Wrappers
  import opened JsValues
  import opened CronTypes
  import opened CronConstants
  import opened CronValidate
  import opened Calendar
  import opened DateCursor
  import opened MatcherRules
  import opened FieldMatcher

  // ---------------------------------------------------------------------------
  // One mismatch: what the first failing matcher does to the cursor

  /** A field's matcher takes part unless it is a day field holding `?`. */
  predicate Active(field: CronField, model: CronModel) {
    !(field == DayOfMonth && model.dayOfMonth.Unspecified?) && !(field == DayOfWeek && model.dayOfWeek.Unspecified?)
  }

  /** Where the loop ends its search: a year with no next value. */
  predicate YearExhausted(field: CronField, model: CronModel, t: DateTime)
    requires Valid(t) && NextEnds(field, model, t)
  {
    field == Year && NextAt(field, model, t).None?
  }

  /**
   * The cursor after a mismatch of `field` whose `next()` gave `next`: the units below reset;
   * then either the field set to its next value, or the field reset, the unit above moved on
   * and the field set to its first valid value there.
   */
  function MoveAfter(field: CronField, model: CronModel, t: DateTime, next: Option<int>): DateTime
    requires Valid(t) && (next.None? ==> field != Year)
  {
    var t1 := ResetBelow(t, model, field);
    if next.Some? then SetNextValid(t1, model, field, next)
    else SetNextValid(AdvanceHigher(ResetSelf(t1, field), FieldUnit(field)), model, field, None)
  }

  /** The cursor after a mismatch of `field` at `t`. */
  function MismatchMove(field: CronField, model: CronModel, t: DateTime): DateTime
    requires Valid(t) && NextEnds(field, model, t) && !YearExhausted(field, model, t)
  {
    MoveAfter(field, model, t, NextAt(field, model, t))
  }

  // ---------------------------------------------------------------------------
  // Every mismatch moves the cursor strictly forward

  /** The start of the next period of the unit above `u`, from a date whose unit `u` and those below are reset. */
  function PeriodAfter(t: DateTime, u: DateUnit): DateTime
    requires u != YearUnit
  {
    AdvanceHigher(ClearedFrom(t, UnitIndex(u)), u)
  }

  /** The seconds of the time of day. */
  lemma TimeOfDay(t: DateTime)
    requires Valid(t)
    ensures DayNumber(t.year, t.month, t.day) * 86400 <= Instant(t) < (DayNumber(t.year, t.month, t.day) + 1) * 86400
  {
  }

  /** Setting a time unit or the day to a larger value, once the units below are reset, is later. */
  lemma RaiseTimeUnit(t: DateTime, u: DateUnit, v: int)
    requires Valid(t) && u in {DayUnit, HoursUnit, MinutesUnit, SecondsUnit} && v > Get(t, u)
    ensures Instant(Set(ClearedFrom(t, UnitIndex(u) + 1), u, v)) > Instant(t)
  {
    var c := ClearedFrom(t, UnitIndex(u) + 1);
    ClearedNotLater(t, UnitIndex(u) + 1);
    SetMovesInstant(c, u, v);
    assert Get(c, u) == Get(t, u);
    match u
    case DayUnit =>
      assert Instant(t) - Instant(c) < 86400;
    case HoursUnit =>
      assert Instant(t) - Instant(c) < 3600;
    case MinutesUnit =>
      assert Instant(t) - Instant(c) < 60;
    case SecondsUnit =>
  }

  /** Setting a later month index, once the days and times are reset, is later. */
  lemma RaiseMonth(t: DateTime, k: int)
    requires Valid(t) && k > t.month
    ensures Instant(Set(ClearedFrom(t, 2), MonthUnit, k)) > Instant(t)
  {
    NormalizeInstant(t.year, k, 1, 0, 0, 0);
    DayBeforeLaterMonth(t.year, t.month, t.day, k);
    TimeOfDay(t);
  }

  /** Setting a later year, once the rest is reset, is later. */
  lemma RaiseYear(t: DateTime, v: int)
    requires Valid(t) && v > t.year
    ensures Instant(Set(ClearedFrom(t, 1), YearUnit, v)) > Instant(t)
  {
    NormalizeInstant(v, 0, 1, 0, 0, 0);
    DayNumberOrder(t.year, t.month, t.day, v, 0, 1);
    TimeOfDay(t);
  }

  /** Resetting the units below and then the unit itself leaves the start of the unit above's period. */
  lemma ResetSelfClears(t: DateTime, model: CronModel, field: CronField)
    requires Valid(t) && field != Year
    ensures ResetSelf(ResetBelow(t, model, field), field) == ClearedFrom(t, UnitIndex(FieldUnit(field)))
  {
    var u := FieldUnit(field);
    var c := ResetBelow(t, model, field);
    assert ValueRange(field).min - SetDelta(u) == UnitMin(u);
    assert ResetSelf(c, field) == Set(c, u, UnitMin(u));
    ResetFromClears(t, model, UnitIndex(u) + 1);
    ClearUnit(t, u);
  }

  /** Setting unit `u` of a date cleared below `u` to its least value clears `u` as well. */
  lemma ClearUnit(t: DateTime, u: DateUnit)
    requires Valid(t) && u != YearUnit
    ensures Set(ClearedFrom(t, UnitIndex(u) + 1), u, UnitMin(u)) == ClearedFrom(t, UnitIndex(u))
  {
    var c := ClearedFrom(t, UnitIndex(u) + 1);
    ClearedNotLater(t, UnitIndex(u) + 1);
    match u
    case MonthUnit => SetInRange(c, MonthUnit, 0);
    case DayUnit => SetInRange(c, DayUnit, 1);
    case HoursUnit => SetInRange(c, HoursUnit, 0);
    case MinutesUnit => SetInRange(c, MinutesUnit, 0);
    case SecondsUnit => SetInRange(c, SecondsUnit, 0);
  }

  /** From the start of a period of the unit above, moving that unit on reaches the next period, after `t`. */
  lemma NextPeriod(t: DateTime, u: DateUnit)
    requires Valid(t) && u != YearUnit
    ensures Valid(PeriodAfter(t, u))
    ensures Instant(PeriodAfter(t, u)) > Instant(t)
    ensures ClearedFrom(PeriodAfter(t, u), UnitIndex(u)) == PeriodAfter(t, u)
  {
    match u
    case MonthUnit =>
      assert PeriodAfter(t, u) == Set(ClearedFrom(t, 1), YearUnit, t.year + 1);
      NextYear(t);
    case DayUnit =>
      assert PeriodAfter(t, u) == Set(ClearedFrom(t, 2), MonthUnit, t.month + 1);
      NextMonthPeriod(t);
    case HoursUnit =>
      assert PeriodAfter(t, u) == Set(ClearedFrom(t, 3), DayUnit, t.day + 1);
      NextTimePeriod(t, DayUnit);
    case MinutesUnit =>
      assert PeriodAfter(t, u) == Set(ClearedFrom(t, 4), HoursUnit, t.hours + 1);
      NextTimePeriod(t, HoursUnit);
    case SecondsUnit =>
      assert PeriodAfter(t, u) == Set(ClearedFrom(t, 5), MinutesUnit, t.minutes + 1);
      NextTimePeriod(t, MinutesUnit);
  }

  lemma NextYear(t: DateTime)
    requires Valid(t)
    ensures var t3 := Set(ClearedFrom(t, 1), YearUnit, t.year + 1);
      Instant(t3) > Instant(t) && ClearedFrom(t3, 1) == t3
  {
    RaiseYear(t, t.year + 1);
    SetInRange(ClearedFrom(t, 1), YearUnit, t.year + 1);
  }

  lemma NextMonthPeriod(t: DateTime)
    requires Valid(t)
    ensures var t3 := Set(ClearedFrom(t, 2), MonthUnit, t.month + 1);
      Instant(t3) > Instant(t) && ClearedFrom(t3, 2) == t3
  {
    RaiseMonth(t, t.month + 1);
    var k := t.month + 1;
    assert ValidDay(t.year + k / 12, k % 12, 1);
  }

  lemma NextTimePeriod(t: DateTime, h: DateUnit)
    requires Valid(t) && h in {DayUnit, HoursUnit, MinutesUnit}
    ensures var t3 := Set(ClearedFrom(t, UnitIndex(h) + 1), h, Get(t, h) + 1);
      Instant(t3) > Instant(t) && ClearedFrom(t3, UnitIndex(h) + 1) == t3
  {
    var i := UnitIndex(h) + 1;
    var c := ClearedFrom(t, i);
    var v := Get(t, h) + 1;
    RaiseTimeUnit(t, h, v);
    SetKeepsCleared(c, h, v);
  }

  /** Setting the day or a time unit keeps the units below it cleared. */
  lemma SetKeepsCleared(c: DateTime, h: DateUnit, v: int)
    requires h in {DayUnit, HoursUnit, MinutesUnit}
    ensures ClearedFrom(Set(ClearedFrom(c, UnitIndex(h) + 1), h, v), UnitIndex(h) + 1) == Set(ClearedFrom(c, UnitIndex(h) + 1), h, v)
  {
    match h
    case DayUnit =>
      var r := Set(ClearedFrom(c, 3), DayUnit, v);
      assert r.hours == 0 && r.minutes == 0 && r.seconds == 0;
    case HoursUnit =>
      var r := Set(ClearedFrom(c, 4), HoursUnit, v);
      assert r.minutes == 0 && r.seconds == 0;
    case MinutesUnit =>
      var r := Set(ClearedFrom(c, 5), MinutesUnit, v);
      assert r.seconds == 0;
  }

  /** From the start of a unit's period, setting the unit to at least its least value is not earlier. */
  lemma SetFromStart(t: DateTime, u: DateUnit, w: int)
    requires Valid(t) && u != YearUnit && ClearedFrom(t, UnitIndex(u)) == t && w >= UnitMin(u)
    ensures Instant(Set(t, u, w)) >= Instant(t)
  {
    if u == MonthUnit {
      NormalizeInstant(t.year, w, 1, 0, 0, 0);
      MonthFirstGrows(t.year, 0, w);
    } else {
      SetMovesInstant(t, u, w);
      assert Get(t, u) == UnitMin(u);
    }
  }

  /**
   * The models whose first valid values never fall below the field's least value: every field
   * but the year, which never wraps. `L-n` needs `n` below 28, so that it names a day of every month.
   */
  predicate FirstValueNotBelowMin(field: CronField, fm: FieldModel) {
    var min := ValueRange(field).min;
    match fm
    case Range(start, _) => start >= min
    case Step(from, _) => from >= min
    case List(values) => forall x :: x in values ==> x >= min
    case LastDayOffset(offset) => offset <= 27
    case NearestWeekday(day) => day >= 1
    case NthWeekOfMonth(weekNth, weekdayNth) => weekNth >= 1 && 1 <= weekdayNth <= 7
    case LastWeekdayOfMonth(weekday) => 1 <= weekday <= 7
    case _ => true
  }

  /** The nearest weekday of a day of the month is a day of the month. */
  lemma NearestWeekdayPositive(y: int, m: int, day: int)
    requires 0 <= m < 12 && day >= 1
    ensures GetNearestWeekday(y, m, day) >= 1
  {
    LastDayIsMonthLength(y, m);
  }

  lemma FirstValueFloor(field: CronField, fm: FieldModel, y: int, mo: int)
    requires 0 <= mo < 12 && field != Year && FirstValueNotBelowMin(field, fm)
    ensures var r := FirstValidValue(fm, ValueRange(field).min, y, mo);
      r.Some? ==> r.value >= ValueRange(field).min
  {
    LastDayIsMonthLength(y, mo);
    match fm
    case NearestWeekday(day) => NearestWeekdayPositive(y, mo, day);
    case LastWeekdayOfMonth(w) => LastWeekdayFacts(y, mo, w);
    case NthWeekOfMonth(n, w) => NthWeekdayFacts(y, mo, n, w);
    case List(values) =>
      if values != [] {
        assert MinOf(values) in values;
      }
    case _ =>
  }

  /** Setting any unit to a larger value, once the units below are reset, is later. */
  lemma RaiseUnit(t: DateTime, u: DateUnit, w: int)
    requires Valid(t) && w > Get(t, u)
    ensures Instant(Set(ClearedFrom(t, UnitIndex(u) + 1), u, w)) > Instant(t)
  {
    match u
    case YearUnit => RaiseYear(t, w);
    case MonthUnit => RaiseMonth(t, w);
    case _ => RaiseTimeUnit(t, u, w);
  }

  /** A mismatch with a next value sets the field to it, which is later. */
  lemma MoveToNextIsLater(field: CronField, model: CronModel, t: DateTime, v: int)
    requires Valid(t) && v - SetDelta(FieldUnit(field)) > Get(t, FieldUnit(field))
    ensures Instant(MoveAfter(field, model, t, Some(v))) > Instant(t)
  {
    var u, w := MoveShape(field, model, t, v);
    RaiseUnit(t, u, w);
  }

  /** A field value above the date's is, less the setter's offset, above the unit's value. */
  lemma UnitOfField(field: CronField, t: DateTime, v: int)
    requires Valid(t)
    requires field != DayOfWeek ==> v > FieldValue(field, t)
    requires field == DayOfWeek ==> v > t.day
    ensures v - SetDelta(FieldUnit(field)) > Get(t, FieldUnit(field))
  {
  }

  /** With a next value, the move resets the units below and sets the field's unit `u` to `w`. */
  lemma MoveShape(field: CronField, model: CronModel, t: DateTime, v: int) returns (u: DateUnit, w: int)
    requires Valid(t)
    ensures u == FieldUnit(field) && w == v - SetDelta(u)
    ensures MoveAfter(field, model, t, Some(v)) == Set(ClearedFrom(t, UnitIndex(u) + 1), u, w)
  {
    u := FieldUnit(field);
    w := v - SetDelta(u);
    var c := ResetBelowClears(t, model, field);
    assert SetNextValid(c, model, field, Some(v)) == Set(c, u, w);
  }

  /** `resetBelowDate` leaves the date with the units below the field's cleared. */
  lemma ResetBelowClears(t: DateTime, model: CronModel, field: CronField) returns (c: DateTime)
    requires Valid(t)
    ensures c == ResetBelow(t, model, field) == ClearedFrom(t, UnitIndex(FieldUnit(field)) + 1)
  {
    ResetFromClears(t, model, UnitIndex(FieldUnit(field)) + 1);
    c := ResetBelow(t, model, field);
  }

  /** A mismatch without a next value moves into the next period of the unit above, which is later. */
  lemma WrapIsLater(field: CronField, model: CronModel, t: DateTime)
    requires Valid(t) && field != Year && FirstValueNotBelowMin(field, model.Get(field))
    ensures Instant(MoveAfter(field, model, t, None)) > Instant(t)
  {
    var u := FieldUnit(field);
    ResetSelfClears(t, model, field);
    assert MoveAfter(field, model, t, None) == SetNextValid(PeriodAfter(t, u), model, field, None);
    NextPeriod(t, u);
    LandAfter(t, PeriodAfter(t, u), model, field);
  }

  /** Setting the field to its first valid value from the start of a later period stays later. */
  lemma LandAfter(t: DateTime, t3: DateTime, model: CronModel, field: CronField)
    requires Valid(t) && Valid(t3) && field != Year && Instant(t3) > Instant(t)
    requires ClearedFrom(t3, UnitIndex(FieldUnit(field))) == t3
    requires FirstValueNotBelowMin(field, model.Get(field))
    ensures Instant(SetNextValid(t3, model, field, None)) > Instant(t)
  {
    var first, u, w := LandShape(t3, model, field);
    if first.Some? {
      FirstValueFloor(field, model.Get(field), t3.year, t3.month);
      assert ValueRange(field).min - SetDelta(u) == UnitMin(u);
      SetFromStart(t3, u, w);
    }
  }

  /** Without a next value the field's unit `u` is set to the first valid value less the offset, `w`, if there is one. */
  lemma LandShape(t3: DateTime, model: CronModel, field: CronField) returns (first: Option<int>, u: DateUnit, w: int)
    requires Valid(t3)
    ensures first == FirstValidValue(model.Get(field), ValueRange(field).min, t3.year, t3.month)
    ensures u == FieldUnit(field)
    ensures first.Some? ==> w == first.value - SetDelta(u) && SetNextValid(t3, model, field, None) == Set(t3, u, w)
    ensures first.None? ==> SetNextValid(t3, model, field, None) == t3
  {
    u := FieldUnit(field);
    first := FirstValidValue(model.Get(field), ValueRange(field).min, t3.year, t3.month);
    w := if first.Some? then first.value - SetDelta(u) else 0;
  }

  /**
   * Every mismatch moves the cursor strictly forward: to the field's next value, or past the
   * current period of the unit above.
   */
  lemma MismatchMovesForward(field: CronField, model: CronModel, t: DateTime)
    requires Valid(t) && NextEnds(field, model, t) && !YearExhausted(field, model, t)
    requires field != Year ==> FirstValueNotBelowMin(field, model.Get(field))
    ensures Instant(MismatchMove(field, model, t)) > Instant(t)
  {
    var next := NextAt(field, model, t);
    NextMovesForward(field, model, t);
    if next.Some? {
      UnitOfField(field, t, next.value);
      MoveToNextIsLater(field, model, t, next.value);
    } else {
      WrapIsLater(field, model, t);
    }
  }

  // ---------------------------------------------------------------------------
  // The search loop of `getNextNTimes`

  /** The order in which the matchers are consulted. */
  const FieldOrder: seq<CronField> := [Year, Month, DayOfMonth, DayOfWeek, Hours, Minutes, Seconds]

  /** The first active field, from position `j` of the order on, that the date does not satisfy. */
  function FirstMismatch(model: CronModel, t: DateTime, j: nat): (r: Option<CronField>)
    requires Valid(t) && j <= |FieldOrder|
    ensures r.Some? ==> Active(r.value, model) && !MatchAt(r.value, model, t)
    decreases |FieldOrder| - j
  {
    if j == |FieldOrder| then None
    else
      var f := FieldOrder[j];
      if Active(f, model) && !MatchAt(f, model, t) then Some(f) else FirstMismatch(model, t, j + 1)
  }

  /** How a search ends. */
  datatype Ending =
    | Complete     // `n` dates found
    | NoMoreYears  // the year matcher had no next value
    | StepHangs    // a `next()` whose step loop never ends (a step below 1)
    | FuelOut      // the model's bound on rounds ran out

  /** What one round of the outer loop does: take the date and go on from `next`, move the cursor, or end the search. */
  datatype Round = Hit(next: DateTime) | Moved(to: DateTime) | Halt(ending: Ending)

  /** The round once field `field` has failed to match at cursor `t`. */
  function MismatchRound(field: CronField, model: CronModel, t: DateTime): (r: Round)
    requires Valid(t)
    ensures !r.Hit? && (r.Moved? ==> Valid(r.to)) && (r.Halt? ==> r.ending != Complete)
  {
    if !NextEnds(field, model, t) then Halt(StepHangs)
    else if YearExhausted(field, model, t) then Halt(NoMoreYears)
    else Moved(MismatchMove(field, model, t))
  }

  /** The round at cursor `t` that consults the fields from position `j` of the order on. */
  function RoundFrom(model: CronModel, t: DateTime, j: nat): (r: Round)
    requires Valid(t) && j <= |FieldOrder|
    ensures (r.Hit? ==> Valid(r.next)) && (r.Moved? ==> Valid(r.to)) && (r.Halt? ==> r.ending != Complete)
    decreases |FieldOrder| - j
  {
    if j == |FieldOrder| then Hit(NextSecond(t))
    else
      var f := FieldOrder[j];
      if Active(f, model) && !MatchAt(f, model, t) then MismatchRound(f, model, t) else RoundFrom(model, t, j + 1)
  }

  /** The round from position `j` is decided by the first mismatch from there on. */
  lemma {:induction false} RoundFromMismatch(model: CronModel, t: DateTime, j: nat)
    requires Valid(t) && j <= |FieldOrder|
    ensures FirstMismatch(model, t, j).None? ==> RoundFrom(model, t, j) == Hit(NextSecond(t))
    ensures FirstMismatch(model, t, j).Some? ==>
      RoundFrom(model, t, j) == MismatchRound(FirstMismatch(model, t, j).value, model, t)
    decreases |FieldOrder| - j
  {
    if j < |FieldOrder| {
      RoundFromMismatch(model, t, j + 1);
    }
  }

  /** The round at cursor `t`: every field in order. */
  function RoundAt(model: CronModel, t: DateTime): (r: Round)
    requires Valid(t)
    ensures (r.Hit? ==> Valid(r.next)) && (r.Moved? ==> Valid(r.to)) && (r.Halt? ==> r.ending != Complete)
  {
    RoundFrom(model, t, 0)
  }

  /** A round that takes the date goes on from the next second. */
  lemma HitNext(model: CronModel, t: DateTime)
    requires Valid(t) && RoundAt(model, t).Hit?
    ensures RoundAt(model, t).next == NextSecond(t)
  {
    RoundFromMismatch(model, t, 0);
  }

  /** The dates found and how the search ended. */
  datatype Run = Run(times: seq<DateTime>, ending: Ending)

  /** The date one second later: `setSeconds(getSeconds() + 1)`. */
  function NextSecond(t: DateTime): DateTime {
    Set(t, SecondsUnit, t.seconds + 1)
  }

  /**
   * The search driven by `round`, the round at each cursor, from cursor `t` for `need` more
   * dates within `fuel` rounds of the outer loop: a round that takes the date goes on from its
   * `next`, one that moves the cursor goes on from there, one that halts ends the search.
   */
  function Explore(round: DateTime -> Round, t: DateTime, need: int, fuel: nat): Run
    decreases fuel
  {
    if need <= 0 then Run([], Complete)
    else if fuel == 0 then Run([], FuelOut)
    else
      match round(t)
      case Hit(t1) =>
        var rest := Explore(round, t1, need - 1, fuel - 1);
        Run([t] + rest.times, rest.ending)
      case Moved(t2) => Explore(round, t2, need, fuel - 1)
      case Halt(e) => Run([], e)
  }

  /** The rounds of `model`; the search only ever asks about valid dates. */
  function Rounds(model: CronModel): DateTime -> Round {
    t => if Valid(t) then RoundAt(model, t) else Halt(FuelOut)
  }

  /**
   * The search of `getNextNTimes` from cursor `t`: a matching date is taken and the cursor moves
   * one second on; otherwise the first mismatching field moves the cursor.
   */
  function Search(model: CronModel, t: DateTime, need: int, fuel: nat): Run {
    Explore(Rounds(model), t, need, fuel)
  }

  /** The dates `found` so far, followed by the rest of a search. */
  function Prefixed(found: seq<DateTime>, rest: Run): Run {
    Run(found + rest.times, rest.ending)
  }

  /** The dates found after round `r` at cursor `t`. */
  function FoundAfter(found: seq<DateTime>, t: DateTime, r: Round): seq<DateTime> {
    if r.Hit? then found + [t] else found
  }

  /** The cursor after round `r` at cursor `t`. */
  function CursorAfter(t: DateTime, r: Round): DateTime {
    match r
    case Hit(t1) => t1
    case Moved(t2) => t2
    case Halt(_) => t
  }

  /** A round that does not end the search keeps the dates found and the search from the new cursor the whole search. */
  lemma RoundContinues(total: Run, found: seq<DateTime>, round: DateTime -> Round, t: DateTime, need: int, fuel: nat,
                        r: Round, found2: seq<DateTime>, t2: DateTime, need2: int, fuel2: nat)
    requires need > 0 && fuel > 0 && r == round(t) && !r.Halt?
    requires total == Prefixed(found, Explore(round, t, need, fuel))
    requires found2 == FoundAfter(found, t, r) && t2 == CursorAfter(t, r)
    requires need2 == (if r.Hit? then need - 1 else need) && fuel2 == fuel - 1
    ensures total == Prefixed(found2, Explore(round, t2, need2, fuel2))
  {
    if r.Hit? {
      var later := Explore(round, r.next, need - 1, fuel - 1);
      assert found + Explore(round, t, need, fuel).times == (found + [t]) + later.times;
    }
  }

  /** A round that ends the search ends it with the dates found. */
  lemma HaltEnds(total: Run, found: seq<DateTime>, round: DateTime -> Round, t: DateTime, need: int, fuel: nat)
    requires need > 0 && fuel > 0 && round(t).Halt?
    requires total == Prefixed(found, Explore(round, t, need, fuel))
    ensures total == Run(found, round(t).ending)
  {
    assert found + [] == found;
  }

  /** With no rounds left, or no dates needed, the search ends with the dates found. */
  lemma SearchEnds(total: Run, found: seq<DateTime>, round: DateTime -> Round, t: DateTime, need: int, fuel: nat)
    requires need <= 0 || fuel == 0
    requires total == Prefixed(found, Explore(round, t, need, fuel))
    ensures total == Run(found, if need <= 0 then Complete else FuelOut)
  {
    assert found + [] == found;
  }

  // ---------------------------------------------------------------------------
  // What the search finds

  /** A date every active field of the model accepts. */
  predicate Matches(model: CronModel, t: DateTime)
    requires Valid(t)
  {
    forall f: CronField :: Active(f, model) ==> MatchAt(f, model, t)
  }

  /** No mismatch from position `j` on means every active field from there on matches. */
  lemma {:induction false} NoMismatchFrom(model: CronModel, t: DateTime, j: nat)
    requires Valid(t) && j <= |FieldOrder| && FirstMismatch(model, t, j).None?
    ensures forall k :: j <= k < |FieldOrder| && Active(FieldOrder[k], model) ==> MatchAt(FieldOrder[k], model, t)
    decreases |FieldOrder| - j
  {
    if j < |FieldOrder| {
      NoMismatchFrom(model, t, j + 1);
    }
  }

  /** A round takes the date exactly when every active field accepts it. */
  lemma HitIffMatches(model: CronModel, t: DateTime)
    requires Valid(t)
    ensures RoundAt(model, t).Hit? <==> Matches(model, t)
  {
    RoundFromMismatch(model, t, 0);
    var mis := FirstMismatch(model, t, 0);
    if mis.None? {
      NoMismatchFrom(model, t, 0);
      forall f: CronField | Active(f, model)
        ensures MatchAt(f, model, t)
      {
        var k := match f
          case Year => 0 case Month => 1 case DayOfMonth => 2 case DayOfWeek => 3
          case Hours => 4 case Minutes => 5 case Seconds => 6;
        assert FieldOrder[k] == f;
      }
    }
  }

  /** Every date of a sequence is a valid date that the model matches. */
  predicate AllMatch(model: CronModel, ts: seq<DateTime>) {
    forall i :: 0 <= i < |ts| ==> Valid(ts[i]) && Matches(model, ts[i])
  }

  /** A search takes only dates its rounds take. */
  lemma {:induction false} ExploreTakesHits(round: DateTime -> Round, t: DateTime, need: int, fuel: nat, i: int)
    requires 0 <= i < |Explore(round, t, need, fuel).times|
    ensures round(Explore(round, t, need, fuel).times[i]).Hit?
    decreases fuel
  {
    match round(t)
    case Hit(t1) =>
      if i > 0 {
        ExploreTakesHits(round, t1, need - 1, fuel - 1, i - 1);
      }
    case Moved(t2) => ExploreTakesHits(round, t2, need, fuel - 1, i);
    case Halt(_) =>
  }

  /** Every date the search finds matches the model. */
  lemma SearchFindsMatches(model: CronModel, t: DateTime, need: int, fuel: nat)
    ensures AllMatch(model, Search(model, t, need, fuel).times)
  {
    var ts := Search(model, t, need, fuel).times;
    forall i | 0 <= i < |ts|
      ensures Valid(ts[i]) && Matches(model, ts[i])
    {
      ExploreTakesHits(Rounds(model), t, need, fuel, i);
      HitIffMatches(model, ts[i]);
    }
  }

  /** At most the dates asked for, and all of them exactly when the search completes. */
  predicate CountFits(r: Run, need: int) {
    var wanted := if need > 0 then need else 0;
    |r.times| <= wanted && (r.ending == Complete <==> |r.times| == wanted)
  }

  /** No round halts the search as complete. */
  ghost predicate HaltsIncomplete(round: DateTime -> Round) {
    forall t :: round(t).Halt? ==> round(t).ending != Complete
  }

  /** The search finds at most the dates asked for, and all of them exactly when it completes. */
  lemma {:induction false} SearchCount(round: DateTime -> Round, t: DateTime, need: int, fuel: nat)
    requires HaltsIncomplete(round)
    ensures CountFits(Explore(round, t, need, fuel), need)
    decreases fuel
  {
    if need > 0 && fuel > 0 {
      match round(t)
      case Hit(t1) => SearchCount(round, t1, need - 1, fuel - 1);
      case Moved(t2) => SearchCount(round, t2, need, fuel - 1);
      case Halt(_) =>
    }
  }

  /** Every field but the year keeps its first valid value at or above the field's least value. */
  predicate Progresses(model: CronModel) {
    forall f: CronField :: f != Year ==> FirstValueNotBelowMin(f, model.Get(f))
  }

  /** A round that moves the cursor moves it strictly forward. */
  lemma RoundMovesForward(model: CronModel, t: DateTime)
    requires Valid(t) && Progresses(model) && RoundAt(model, t).Moved?
    ensures Instant(RoundAt(model, t).to) > Instant(t)
  {
    RoundFromMismatch(model, t, 0);
    var f := FirstMismatch(model, t, 0).value;
    MismatchMovesForward(f, model, t);
  }

  /** The next second is one second later. */
  lemma NextSecondLater(t: DateTime)
    requires Valid(t)
    ensures Instant(NextSecond(t)) == Instant(t) + 1
  {
    SetMovesInstant(t, SecondsUnit, t.seconds + 1);
  }

  /** A round at a valid cursor that does not halt goes on from a valid, strictly later cursor. */
  predicate Advances(t: DateTime, r: Round)
    requires Valid(t)
  {
    && (r.Hit? ==> Valid(r.next) && Instant(r.next) > Instant(t))
    && (r.Moved? ==> Valid(r.to) && Instant(r.to) > Instant(t))
  }

  /** Every round at a valid cursor advances. */
  ghost predicate Forward(round: DateTime -> Round) {
    forall t :: Valid(t) ==> Advances(t, round(t))
  }

  /** The rounds of a model whose fields progress always advance. */
  lemma RoundsForward(model: CronModel)
    requires Progresses(model)
    ensures Forward(Rounds(model))
  {
    forall t | Valid(t)
      ensures Advances(t, Rounds(model)(t))
    {
      var r := RoundAt(model, t);
      if r.Hit? {
        HitNext(model, t);
        NextSecondLater(t);
      } else if r.Moved? {
        RoundMovesForward(model, t);
      }
    }
  }

  /** The dates are in strictly increasing order, none before instant `lo`. */
  predicate IncreasingFrom(ts: seq<DateTime>, lo: int) {
    (forall i :: 0 <= i < |ts| ==> Valid(ts[i]) && Instant(ts[i]) >= lo)
    && (forall i, j :: 0 <= i < j < |ts| ==> Valid(ts[i]) && Valid(ts[j]) && Instant(ts[i]) < Instant(ts[j]))
  }

  /** The dates are valid, none before instant `lo`, and each at least a second after the one before. */
  predicate Ascending(ts: seq<DateTime>, lo: int) {
    ts == [] || (Valid(ts[0]) && Instant(ts[0]) >= lo && Ascending(ts[1..], Instant(ts[0]) + 1))
  }

  /** A lower bound can always be lowered. */
  lemma AscendingLower(ts: seq<DateTime>, lo: int, lo2: int)
    requires Ascending(ts, lo) && lo2 <= lo
    ensures Ascending(ts, lo2)
  {
  }

  /** Ascending dates are in strictly increasing order. */
  lemma {:induction false} AscendingIncreasing(ts: seq<DateTime>, lo: int)
    requires Ascending(ts, lo)
    ensures IncreasingFrom(ts, lo)
    decreases |ts|
  {
    if ts != [] {
      var rest := ts[1..];
      AscendingIncreasing(rest, Instant(ts[0]) + 1);
      forall i | 0 < i < |ts|
        ensures ts[i] == rest[i - 1]
      {
      }
    }
  }

  /** A search whose rounds advance finds ascending dates, none before its cursor. */
  lemma {:induction false} ExploreAscending(round: DateTime -> Round, t: DateTime, need: int, fuel: nat)
    requires Valid(t) && Forward(round)
    ensures Ascending(Explore(round, t, need, fuel).times, Instant(t))
    decreases fuel
  {
    if need > 0 && fuel > 0 {
      assert Advances(t, round(t));
      match round(t)
      case Hit(t1) =>
        var rest := Explore(round, t1, need - 1, fuel - 1).times;
        ExploreAscending(round, t1, need - 1, fuel - 1);
        AscendingLower(rest, Instant(t1), Instant(t) + 1);
        assert ([t] + rest)[1..] == rest;
      case Moved(t2) => ExploreAscending(round, t2, need, fuel - 1);
      case Halt(_) =>
    }
  }

  /** When the fields progress, the search finds dates in strictly increasing order, none before its cursor. */
  lemma SearchIncreasing(model: CronModel, t: DateTime, need: int, fuel: nat)
    requires Valid(t) && Progresses(model)
    ensures IncreasingFrom(Search(model, t, need, fuel).times, Instant(t))
  {
    RoundsForward(model);
    ExploreAscending(Rounds(model), t, need, fuel);
    AscendingIncreasing(Search(model, t, need, fuel).times, Instant(t));
  }

  /** The first cursor: `afterDate` plus one second. */
  function StartAfter(afterDate: DateTime): DateTime {
    NextSecond(afterDate)
  }

  /** Matchers over one cursor for the model's fields, in the order of the search. */
  ghost predicate Consults(matchers: seq<Matcher>, cursor: Cursor, model: CronModel) {
    |matchers| == |FieldOrder| &&
    forall i :: 0 <= i < |FieldOrder| ==>
      matchers[i].date == cursor && matchers[i].cronModel == model && matchers[i].cronField == FieldOrder[i]
  }

  /** `cronFields.map(...)`: one matcher per field, all over the same cursor. */
  method NewMatchers(cursor: Cursor, model: CronModel) returns (matchers: seq<Matcher>)
    ensures Consults(matchers, cursor, model)
  {
    matchers := [];
    var k := 0;
    while k < |FieldOrder|
      invariant 0 <= k <= |FieldOrder| && |matchers| == k
      invariant forall i :: 0 <= i < k ==>
        matchers[i].date == cursor && matchers[i].cronModel == model && matchers[i].cronField == FieldOrder[i]
    {
      var m := new Matcher(cursor, model, FieldOrder[k]);
      matchers := matchers + [m];
      k := k + 1;
    }
  }

  /**
   * The body of the inner loop after a failed `match()`: `next()`, then the end of the search
   * if the year has no next value, otherwise the resets and the set to the next valid value.
   */
  method MoveOnMismatch(m: Matcher) returns (exhausted: bool)
    requires m.date.Valid() && NextEnds(m.cronField, m.cronModel, m.date.Value())
    modifies m.date
    ensures exhausted == YearExhausted(m.cronField, m.cronModel, old(m.date.Value()))
    ensures m.date.Valid()
    ensures exhausted ==> m.date.Value() == old(m.date.Value())
    ensures !exhausted ==> m.date.Value() == MismatchMove(m.cronField, m.cronModel, old(m.date.Value()))
  {
    var nextValue := m.Next();
    if nextValue.None? && m.cronField == Year {
      return true;
    }
    m.ResetBelowDate();
    if nextValue.None? {
      m.ResetSelfDate();
      m.AdvanceHigherUnitDate();
    }
    m.SetToNextValidDate(nextValue);
    return false;
  }

  /** One round of the outer loop: the matchers in order, up to the first mismatch. */
  method SearchRound(matchers: seq<Matcher>, cursor: Cursor, model: CronModel) returns (r: Round)
    requires Consults(matchers, cursor, model) && cursor.Valid()
    modifies cursor
    ensures cursor.Valid() && r == Rounds(model)(old(cursor.Value()))
    ensures cursor.Value() == if r.Moved? then r.to else old(cursor.Value())
    ensures r.Hit? ==> r.next == NextSecond(old(cursor.Value()))
  {
    ghost var t := cursor.Value();
    var j := 0;
    while j < |matchers|
      invariant 0 <= j <= |FieldOrder| && cursor.Value() == t && cursor.Valid()
      invariant RoundFrom(model, t, j) == RoundFrom(model, t, 0)
    {
      var m := matchers[j];
      if Active(m.cronField, model) {
        var ok := m.Match();
        if !ok {
          if !NextEnds(m.cronField, model, cursor.Value()) {
            return Halt(StepHangs);
          }
          var exhausted := MoveOnMismatch(m);
          if exhausted {
            return Halt(NoMoreYears);
          }
          return Moved(cursor.Value());
        }
      }
      j := j + 1;
    }
    return Hit(NextSecond(cursor.Value()));
  }

  /** `dateCursor.setSeconds(dateCursor.getSeconds() + 1)` */
  method AdvanceSecond(cursor: Cursor)
    modifies cursor
    ensures cursor.Value() == NextSecond(old(cursor.Value())) && cursor.Valid()
  {
    cursor.SetUnit(SecondsUnit, cursor.GetUnit(SecondsUnit) + 1);
  }

  /**
   * `getNextNTimes`, with a bound on the rounds of its outer loop: the cursor starts one second
   * after `afterDate`; a round that finds every matcher satisfied takes the date and moves one
   * second on.
   */
  method GetNextNTimes(afterDate: DateTime, model: CronModel, n: int, fuel: nat) returns (results: seq<DateTime>, ending: Ending)
    requires Valid(afterDate)
    ensures Run(results, ending) == Search(model, StartAfter(afterDate), n, fuel)
    ensures AllMatch(model, results)
    ensures CountFits(Run(results, ending), n)
    ensures Progresses(model) ==> IncreasingFrom(results, Instant(afterDate) + 1)
  {
    var start := StartAfter(afterDate);
    var cursor := new Cursor(start);
    var matchers := NewMatchers(cursor, model);
    ghost var total := Search(model, start, n, fuel);
    assert [] + total.times == total.times;
    results, ending := SearchLoop(matchers, cursor, model, n, fuel, total);
    SearchFindsMatches(model, start, n, fuel);
    assert HaltsIncomplete(Rounds(model));
    SearchCount(Rounds(model), start, n, fuel);
    NextSecondLater(afterDate);
    if Progresses(model) {
      SearchIncreasing(model, start, n, fuel);
    }
  }

  /** The outer loop of `getNextNTimes`, from the cursor on, for `n` dates within `fuel` rounds. */
  method SearchLoop(matchers: seq<Matcher>, cursor: Cursor, model: CronModel, n: int, fuel: nat, ghost total: Run)
      returns (results: seq<DateTime>, ending: Ending)
    requires cursor.Valid() && Consults(matchers, cursor, model)
    requires total == Prefixed([], Search(model, cursor.Value(), n, fuel))
    modifies cursor
    ensures Run(results, ending) == total
  {
    ghost var need := n;
    results := [];
    var rounds := fuel;
    while |results| < n
      invariant cursor.Valid()
      invariant need == n - |results| && total == Prefixed(results, Search(model, cursor.Value(), need, rounds))
      decreases rounds
    {
      if rounds == 0 {
        SearchEnds(total, results, Rounds(model), cursor.Value(), need, rounds);
        return results, FuelOut;
      }
      var r;
      results, r, need, rounds := OuterRound(matchers, cursor, model, total, results, need, rounds);
      if r.Halt? {
        return results, r.ending;
      }
    }
    SearchEnds(total, results, Rounds(model), cursor.Value(), need, rounds);
    ending := Complete;
  }

  /**
   * One pass of the outer loop: the round at the cursor; a date every matcher accepts is added
   * to the results and the cursor moves one second on. `rounds2` is the rounds left after it.
   */
  method OuterRound(matchers: seq<Matcher>, cursor: Cursor, model: CronModel, ghost total: Run,
                    results: seq<DateTime>, ghost need: int, rounds: nat)
      returns (results2: seq<DateTime>, r: Round, ghost need2: int, rounds2: nat)
    requires cursor.Valid() && Consults(matchers, cursor, model) && need > 0 && rounds > 0
    requires total == Prefixed(results, Search(model, cursor.Value(), need, rounds))
    modifies cursor
    ensures cursor.Valid() && rounds2 == rounds - 1
    ensures r.Halt? ==> total == Run(results, r.ending) && results2 == results
    ensures !r.Halt? ==> results2 == FoundAfter(results, old(cursor.Value()), r)
    ensures !r.Halt? ==> need2 == (if r.Hit? then need - 1 else need)
    ensures !r.Halt? ==> total == Prefixed(results2, Search(model, cursor.Value(), need2, rounds2))
  {
    ghost var cur := cursor.Value();
    var date := cursor.Value();
    r := SearchRound(matchers, cursor, model);
    results2, need2, rounds2 := results, need, rounds - 1;
    if r.Halt? {
      HaltEnds(total, results, Rounds(model), cur, need, rounds);
    } else {
      if r.Hit? {
        results2 := results + [date];
        AdvanceSecond(cursor);
        need2 := need - 1;
      }
      RoundContinues(total, results, Rounds(model), cur, need, rounds, r, results2, cursor.Value(), need2, rounds2);
    }
  }
}
