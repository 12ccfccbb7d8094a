/** The day rules and value searches of the field matcher, on values. */
module MatcherRules {
  import opened Wrappers
  import opened JsValues
  import opened CronTypes
  import opened CronValidate
  import opened CronSerialize
  import opened CronConstants
  import opened Calendar

  // ---------------------------------------------------------------------------
  // Days of a month

  /** `getLastDay`: the date of day 0 of the next month. */
  function GetLastDay(y: int, m: int): int
    requires 0 <= m < 12
  {
    MakeDay(y, m + 1, 0).2
  }

  /** `getLastDay` is the Gregorian length of the month. */
  lemma LastDayIsMonthLength(y: int, m: int)
    requires 0 <= m < 12
    ensures GetLastDay(y, m) == DaysInMonth(y, m)
    ensures 28 <= GetLastDay(y, m) <= 31
  {
    assert PrevMonth(y + (m + 1) / 12, (m + 1) % 12) == (y, m);
  }

  /** `new Date(y, m, d)` for a date inside the month is that date. */
  lemma MakeDayInMonth(y: int, m: int, d: int)
    requires ValidDay(y, m, d)
    ensures MakeDay(y, m, d) == (y, m, d)
  {
  }

  /** `getNearestWeekday`: a Saturday moves to Friday (Monday the 3rd for the 1st), a Sunday to Monday (Friday on the last day). */
  function GetNearestWeekday(y: int, m: int, day: int): int
    requires 0 <= m < 12
  {
    var d := MakeDay(y, m, day);
    var weekday := WeekDay(d.0, d.1, d.2);
    if weekday == 6 then (if day == 1 then 3 else day - 1)
    else if weekday == 0 then (if day == GetLastDay(y, m) then day - 2 else day + 1)
    else day
  }

  /** For a day of the month, the nearest weekday is a Monday to Friday of the same month. */
  lemma NearestWeekdayFacts(y: int, m: int, day: int)
    requires 0 <= m < 12 && 1 <= day <= GetLastDay(y, m)
    ensures var r := GetNearestWeekday(y, m, day);
      && 1 <= r <= GetLastDay(y, m)
      && 1 <= WeekDay(y, m, r) <= 5
      && -2 <= r - day <= 2
      && (1 <= WeekDay(y, m, day) <= 5 ==> r == day)
  {
    LastDayIsMonthLength(y, m);
    MakeDayInMonth(y, m, day);
    var r := GetNearestWeekday(y, m, day);
    WeekDayInMonth(y, m, day);
    WeekDayInMonth(y, m, r);
  }

  /**
   * `getNthWeekdayOfMonth`: the `weekNth`-th day of the month with Quartz weekday `weekday`
   * (1 for Sunday), or `None` when the month is too short.
   */
  function GetNthWeekdayOfMonth(y: int, m: int, weekNth: int, weekday: int): Option<int>
    requires 0 <= m < 12
  {
    var first := MakeDay(y, m, 1);
    var firstWeekday := WeekDay(first.0, first.1, first.2) + 1;
    var delta := JsRem(weekday - firstWeekday + 7, 7);
    var day := 1 + delta + (weekNth - 1) * 7;
    if day <= GetLastDay(y, m) then Some(day) else None
  }

  /** The days of week `n` of a month: `7n - 6` to `7n`. */
  predicate InWeek(d: int, n: int) {
    (d - 1) / 7 == n - 1
  }

  /**
   * The result is the day of the `weekNth`-th week of the month with the weekday, and there is
   * none exactly when that day lies beyond the month's end.
   */
  lemma NthWeekdayFacts(y: int, m: int, weekNth: int, weekday: int)
    requires 0 <= m < 12 && 1 <= weekNth && 1 <= weekday <= 7
    ensures var r := GetNthWeekdayOfMonth(y, m, weekNth, weekday);
      && (r.Some? ==> 1 <= r.value <= GetLastDay(y, m) && WeekDay(y, m, r.value) + 1 == weekday && InWeek(r.value, weekNth))
      && (r.None? <==> forall d :: 1 <= d <= GetLastDay(y, m) && InWeek(d, weekNth) ==> WeekDay(y, m, d) + 1 != weekday)
  {
    LastDayIsMonthLength(y, m);
    var day := NthDay(y, m, weekNth, weekday);
    forall d | 1 <= d <= GetLastDay(y, m) && InWeek(d, weekNth) && WeekDay(y, m, d) + 1 == weekday
      ensures d == day
    {
      WeekDayInMonth(y, m, d);
      WeekDayInMonth(y, m, day);
      SameWeekSameWeekday(d, day, weekNth, WeekDay(y, m, 1));
    }
  }

  /** The candidate day `getNthWeekdayOfMonth` computes has the weekday and lies in the week. */
  lemma NthDay(y: int, m: int, weekNth: int, weekday: int) returns (day: int)
    requires 0 <= m < 12 && 1 <= weekNth && 1 <= weekday <= 7
    ensures GetNthWeekdayOfMonth(y, m, weekNth, weekday) == if day <= GetLastDay(y, m) then Some(day) else None
    ensures 1 <= day && WeekDay(y, m, day) + 1 == weekday && InWeek(day, weekNth)
  {
    MakeDayInMonth(y, m, 1);
    var w1 := WeekDay(y, m, 1);
    day := NthDayArith(w1, weekNth, weekday);
    WeekDayInMonth(y, m, day);
  }

  /** The day `1 + (weekday - w1 - 1 + 7) % 7 + 7 (n - 1)` has weekday `weekday - 1` when day 1 has `w1`. */
  lemma NthDayArith(w1: int, n: int, weekday: int) returns (day: int)
    requires 0 <= w1 < 7 && 1 <= n && 1 <= weekday <= 7
    ensures day == 1 + JsRem(weekday - (w1 + 1) + 7, 7) + (n - 1) * 7
    ensures 1 <= day && (w1 + day - 1) % 7 == weekday - 1 && InWeek(day, n)
  {
    var delta := (weekday - (w1 + 1) + 7) % 7;
    day := 1 + delta + (n - 1) * 7;
    assert (w1 + day - 1) == (w1 + delta) + 7 * (n - 1);
    ModOfMultiple(n - 1, (w1 + delta) % 7);
    assert w1 + delta == weekday - 1 || w1 + delta == weekday + 6;
  }

  /** Two days of the same week with the same weekday are the same day. */
  lemma SameWeekSameWeekday(a: int, b: int, n: int, w1: int)
    requires InWeek(a, n) && InWeek(b, n)
    requires (w1 + a - 1) % 7 == (w1 + b - 1) % 7
    ensures a == b
  {
    assert 7 * (n - 1) + 1 <= a <= 7 * n;
    assert 7 * (n - 1) + 1 <= b <= 7 * n;
  }

  /** The last day on or before `d` with Quartz weekday `weekday`, or -1. */
  function LastWeekdayFrom(y: int, m: int, weekday: int, d: int): (r: int)
    requires 0 <= m < 12
    ensures r == -1 || 1 <= r <= d
    decreases d
  {
    if d < 1 then -1
    else
      var date := MakeDay(y, m, d);
      if WeekDay(date.0, date.1, date.2) + 1 == weekday then d else LastWeekdayFrom(y, m, weekday, d - 1)
  }

  /** What `getLastWeekdayOfMonth` returns. */
  function LastWeekdayOfMonth(y: int, m: int, weekday: int): int
    requires 0 <= m < 12
  {
    LastWeekdayFrom(y, m, weekday, GetLastDay(y, m))
  }

  /** `getLastWeekdayOfMonth`: walks back from the month's last day. */
  method GetLastWeekdayOfMonth(y: int, m: int, weekday: int) returns (r: int)
    requires 0 <= m < 12
    ensures r == LastWeekdayOfMonth(y, m, weekday)
  {
    var lastDay := GetLastDay(y, m);
    var d := lastDay;
    while d >= 1
      invariant d <= lastDay
      invariant LastWeekdayFrom(y, m, weekday, d) == LastWeekdayFrom(y, m, weekday, lastDay)
      decreases d
    {
      var date := MakeDay(y, m, d);
      if WeekDay(date.0, date.1, date.2) + 1 == weekday {
        return d;
      }
      d := d - 1;
    }
    return -1;
  }

  /**
   * For a weekday 1-7 the result lies in the last seven days of the month and has that
   * weekday, so it is never -1.
   */
  lemma LastWeekdayFacts(y: int, m: int, weekday: int)
    requires 0 <= m < 12
    ensures var r := LastWeekdayOfMonth(y, m, weekday);
      && (1 <= weekday <= 7 ==> 1 <= r <= GetLastDay(y, m) && r + 7 > GetLastDay(y, m) && WeekDay(y, m, r) + 1 == weekday)
      && (!(1 <= weekday <= 7) ==> r == -1)
  {
    var last := GetLastDay(y, m);
    LastDayIsMonthLength(y, m);
    if 1 <= weekday <= 7 {
      var target := LastWeekdayTarget(y, m, weekday);
      LastWeekdayDown(y, m, weekday, last, target);
    } else {
      LastWeekdayNone(y, m, weekday, last);
    }
  }

  /** The day of the last seven with the weekday, and no later day has it. */
  lemma LastWeekdayTarget(y: int, m: int, weekday: int) returns (target: int)
    requires 0 <= m < 12 && 1 <= weekday <= 7
    ensures 1 <= target <= DaysInMonth(y, m) < target + 7
    ensures WeekDay(y, m, target) + 1 == weekday
    ensures forall k :: target < k <= DaysInMonth(y, m) ==> WeekDay(y, m, k) + 1 != weekday
  {
    var last := DaysInMonth(y, m);
    var w := WeekDay(y, m, 1);
    var x := w + last - weekday + 7;
    var back := x % 7;
    target := last - back;
    ModOfMultiple(x / 7 - 1, weekday - 1);
    assert x == 7 * (x / 7) + back;
    assert w + target - 1 == 7 * (x / 7 - 1) + (weekday - 1);
    WeekDayInMonth(y, m, target);
    forall k | target < k <= last
      ensures WeekDay(y, m, k) + 1 != weekday
    {
      WeekDayInMonth(y, m, k);
      ModDistinct(w + target - 1, w + k - 1);
    }
  }

  lemma ModOfMultiple(q: int, r: int)
    requires 0 <= r < 7
    ensures (7 * q + r) % 7 == r
  {
  }

  lemma ModDistinct(a: int, b: int)
    requires 0 < b - a < 7
    ensures a % 7 != b % 7
  {
    assert a == 7 * (a / 7) + a % 7;
    assert b == 7 * (b / 7) + b % 7;
  }

  /** Searching back from `d` finds `target` when no day in between has the weekday. */
  lemma {:induction false} LastWeekdayDown(y: int, m: int, weekday: int, d: int, target: int)
    requires 0 <= m < 12 && 1 <= target <= d <= DaysInMonth(y, m)
    requires WeekDay(y, m, target) + 1 == weekday
    requires d - target < 7
    requires forall k :: target < k <= d ==> WeekDay(y, m, k) + 1 != weekday
    ensures LastWeekdayFrom(y, m, weekday, d) == target
    decreases d
  {
    MakeDayInMonth(y, m, d);
    if d > target {
      LastWeekdayDown(y, m, weekday, d - 1, target);
    }
  }

  lemma {:induction false} LastWeekdayNone(y: int, m: int, weekday: int, d: int)
    requires 0 <= m < 12 && d <= DaysInMonth(y, m) && !(1 <= weekday <= 7)
    ensures LastWeekdayFrom(y, m, weekday, d) == -1
    decreases d
  {
    if d >= 1 {
      MakeDayInMonth(y, m, d);
      LastWeekdayNone(y, m, weekday, d - 1);
    }
  }

  // ---------------------------------------------------------------------------
  // Matching and searching in the four common modes

  /** `commonMatch`: a remainder by a zero step is `NaN`, which equals nothing. */
  function CommonMatch(value: int, m: FieldModel): bool {
    match m
    case Every => true
    case Range(start, end) => start <= value <= end
    case Step(from, step) => value >= from && step != 0 && JsRem(value - from, step) == 0
    case List(values) => value in values
    case _ => false
  }

  /** The values `from`, `from + step`, `from + 2 * step`, ... */
  predicate OnStep(u: int, from: int, step: int)
    requires step >= 1
  {
    u >= from && (u - from) % step == 0
  }

  /** With a positive step, the values a step model matches are the values of the arithmetic progression. */
  lemma StepMatchesProgression(u: int, from: int, step: int)
    requires step >= 1
    ensures CommonMatch(u, Step(from, step)) <==> OnStep(u, from, step)
    ensures OnStep(u, from, step) <==> exists k: nat :: u == from + k * step
  {
    if OnStep(u, from, step) {
      var k: nat := (u - from) / step;
      assert u == from + k * step;
    }
    if exists k: nat :: u == from + k * step {
      var k: nat :| u == from + k * step;
      MultipleMod(k, step);
    }
  }

  lemma MultipleMod(k: int, step: int)
    requires step >= 1
    ensures (k * step) % step == 0
  {
    ModUnique(k * step, step, k, 0);
  }

  /** Euclidean division has one quotient and one remainder. */
  lemma ModUnique(x: int, step: int, q: int, r: int)
    requires step >= 1 && x == step * q + r && 0 <= r < step
    ensures x % step == r
  {
    var q2 := x / step;
    var r2 := x % step;
    assert x == step * q2 + r2;
    assert step * (q - q2) == r2 - r;
    MulBound(q - q2, step);
  }

  lemma MulBound(a: int, step: int)
    requires step >= 1 && -step < step * a < step
    ensures a == 0
  {
  }

  /** A positive multiple of the step is at least the step. */
  lemma PositiveMultiple(step: int, d: int)
    requires step >= 1 && step * d > 0
    ensures step * d >= step
  {
  }

  /** Two values of the progression differ by at least one step. */
  lemma StepGap(a: int, b: int, from: int, step: int)
    requires step >= 1 && OnStep(a, from, step) && OnStep(b, from, step) && a < b
    ensures b - a >= step
  {
    var qa := (a - from) / step;
    var qb := (b - from) / step;
    var d := qb - qa;
    assert a - from == step * qa;
    assert b - from == step * qb;
    assert step * d == step * qb - step * qa;
    PositiveMultiple(step, d);
  }

  lemma StepAdvance(a: int, from: int, step: int)
    requires step >= 1 && OnStep(a, from, step)
    ensures OnStep(a + step, from, step)
  {
    var q := (a - from) / step;
    assert a - from == step * q;
    assert a + step - from == step * (q + 1);
    MultipleMod(q + 1, step);
  }

  /** The step loop of `commonNext`, from the value `next` on. */
  function StepSearch(cur: int, step: int, max: int, next: int): (r: Option<int>)
    requires step >= 1
    ensures r.Some? ==> cur < r.value <= max && next <= r.value
    decreases max - next
  {
    if next > max then None
    else if next > cur then Some(next)
    else StepSearch(cur, step, max, next + step)
  }

  /** What the loop finds: the least value of the progression above `cur`, if it is at most `max`. */
  lemma {:induction false} StepSearchFacts(cur: int, from: int, step: int, max: int, next: int)
    requires step >= 1 && OnStep(next, from, step)
    requires forall u :: OnStep(u, from, step) && u < next ==> u <= cur
    ensures var r := StepSearch(cur, step, max, next);
      && (r.Some? ==> cur < r.value <= max && OnStep(r.value, from, step)
                      && forall u :: cur < u < r.value ==> !OnStep(u, from, step))
      && (r.None? ==> forall u :: cur < u <= max ==> !OnStep(u, from, step))
    decreases max - next
  {
    if next > max {
    } else if next > cur {
    } else {
      StepAdvance(next, from, step);
      forall u | OnStep(u, from, step) && u < next + step
        ensures u <= cur
      {
        if u > next {
          StepGap(next, u, from, step);
        }
      }
      StepSearchFacts(cur, from, step, max, next + step);
    }
  }

  /** The index of the first value above `cur` at or after `i`, or `|s|`. */
  function FirstAbove(s: seq<int>, cur: int, i: nat): (k: nat)
    requires i <= |s|
    ensures i <= k <= |s|
    ensures k < |s| ==> s[k] > cur
    ensures forall j :: i <= j < k ==> s[j] <= cur
    decreases |s| - i
  {
    if i == |s| then i
    else if s[i] > cur then i
    else FirstAbove(s, cur, i + 1)
  }

  /** `null`, or the given value when a minimum was passed in. */
  function Fallback(min: Option<int>, v: int): Option<int> {
    if min.None? then None else Some(v)
  }

  /**
   * Where the step loop of `commonNext` ends. With a step below one the loop only ends on
   * its first test; elsewhere it never ends.
   */
  predicate StepEnds(cur: int, m: FieldModel, max: int) {
    m.Step? && m.step < 1 ==> cur >= max || m.from > max || m.from > cur
  }

  /** What `commonNext` returns; `None` for an exhausted empty list, where the source has `undefined`. */
  function CommonNextValue(cur: int, m: FieldModel, max: int, min: Option<int>): Option<int>
    requires StepEnds(cur, m, max)
  {
    match m
    case Every => if cur + 1 <= max then Some(cur + 1) else min
    case Range(start, end) =>
      if cur < start then Some(start) else if cur < end then Some(cur + 1) else min
    case Step(from, step) =>
      if cur >= max then Fallback(min, from)
      else if step < 1 then (if from > max then Fallback(min, from) else Some(from))
      else
        var r := StepSearch(cur, step, max, from);
        if r.Some? then r else Fallback(min, from)
    case List(values) =>
      var sorted := SortAscending(values);
      var k := FirstAbove(sorted, cur, 0);
      if k < |sorted| then Some(sorted[k])
      else if min.None? || sorted == [] then None
      else Some(sorted[0])
    case _ => None
  }

  /** `commonNext`, with its step loop and its scan of the sorted list. */
  method CommonNext(cur: int, m: FieldModel, max: int, min: Option<int>) returns (r: Option<int>)
    requires StepEnds(cur, m, max)
    ensures r == CommonNextValue(cur, m, max, min)
  {
    match m
    case Every =>
      r := if cur + 1 <= max then Some(cur + 1) else min;
    case Range(start, end) =>
      if cur < start {
        return Some(start);
      }
      r := if cur < end then Some(cur + 1) else min;
    case Step(from, step) =>
      if cur >= max {
        return Fallback(min, from);
      }
      if step < 1 {
        // the loop's first test; a second one is never reached
        if from <= max {
          return Some(from);
        }
        return Fallback(min, from);
      }
      var next := from;
      while next <= max
        invariant StepSearch(cur, step, max, next) == StepSearch(cur, step, max, from)
        decreases max - next
      {
        if next > cur {
          return Some(next);
        }
        next := next + step;
      }
      return Fallback(min, from);
    case List(values) =>
      var sorted := SortAscending(values);
      var i := 0;
      while i < |sorted|
        invariant i <= |sorted|
        invariant FirstAbove(sorted, cur, i) == FirstAbove(sorted, cur, 0)
      {
        if sorted[i] > cur {
          return Some(sorted[i]);
        }
        i := i + 1;
      }
      if min.None? || |sorted| == 0 {
        return None;
      }
      return Some(sorted[0]);
    case _ =>
      r := None;
  }

  /** An ascending sequence is ordered between any two positions. */
  lemma {:induction false} SortedMono(s: seq<int>, i: int, j: int)
    requires SortedAsc(s) && 0 <= i <= j < |s|
    ensures s[i] <= s[j]
    decreases j - i
  {
    if i < j {
      SortedMono(s, i, j - 1);
    }
  }

  /** The first value above `cur` in an ascending sequence is the least value above `cur`. */
  lemma FirstAboveLeast(s: seq<int>, cur: int)
    requires SortedAsc(s)
    ensures var k := FirstAbove(s, cur, 0);
      && (k < |s| ==> forall x :: x in s && x > cur ==> s[k] <= x)
      && (k == |s| <==> forall x :: x in s ==> x <= cur)
  {
    var k := FirstAbove(s, cur, 0);
    forall x | x in s && x > cur && k < |s|
      ensures s[k] <= x
    {
      var j :| 0 <= j < |s| && s[j] == x;
      if j >= k {
        SortedMono(s, k, j);
      }
    }
    if k == |s| {
      forall x | x in s
        ensures x <= cur
      {
        var j :| 0 <= j < |s| && s[j] == x;
      }
    } else {
      assert s[k] in s && s[k] > cur;
    }
  }

  /** The next list value: the least value of the list above `cur`. */
  lemma ListNextLeast(cur: int, values: seq<int>, max: int)
    ensures var r := CommonNextValue(cur, List(values), max, None);
      && (r.Some? ==> r.value in values && r.value > cur && forall x :: x in values && x > cur ==> r.value <= x)
      && (r.None? <==> forall x :: x in values ==> x <= cur)
  {
    var sorted := SortAscending(values);
    SortAscendingFacts(values);
    FirstAboveLeast(sorted, cur);
    assert forall x :: x in sorted <==> x in values by {
      forall x ensures x in sorted <==> x in values {
        assert x in sorted <==> x in multiset(sorted);
        assert x in values <==> x in multiset(values);
      }
    }
  }

  /** The next step value: the least value of the progression above `cur`, at most `max`. */
  lemma StepNextLeast(cur: int, from: int, step: int, max: int)
    requires step >= 1
    ensures var r := CommonNextValue(cur, Step(from, step), max, None);
      && (r.Some? ==> cur < r.value <= max && OnStep(r.value, from, step)
                      && forall u :: cur < u < r.value ==> !OnStep(u, from, step))
      && (r.None? <==> forall u :: cur < u <= max ==> !OnStep(u, from, step))
  {
    assert OnStep(from, from, step);
    StepSearchFacts(cur, from, step, max, from);
    var r := CommonNextValue(cur, Step(from, step), max, None);
    if r.None? && cur < max {
      var w := StepSearch(cur, step, max, from);
      assert w.None?;
    }
  }

  /**
   * Without a minimum, `commonNext` returns the least matching value above the current one,
   * and `null` exactly when there is none (none up to `max` for `*` and steps, whose results
   * never exceed `max`).
   */
  lemma CommonNextLeast(cur: int, m: FieldModel, max: int)
    requires IsCommon(m) && StepEnds(cur, m, max)
    requires m.Range? ==> m.start <= m.end
    requires m.Step? ==> m.step >= 1
    ensures var r := CommonNextValue(cur, m, max, None);
      && (r.Some? ==> r.value > cur && CommonMatch(r.value, m)
                      && forall u :: cur < u < r.value ==> !CommonMatch(u, m))
      && ((m.Every? || m.Step?) && r.Some? ==> r.value <= max)
      && ((m.Every? || m.Step?) ==> (r.None? <==> forall u :: cur < u <= max ==> !CommonMatch(u, m)))
      && ((m.Range? || m.List?) ==> (r.None? <==> forall u :: u > cur ==> !CommonMatch(u, m)))
  {
    match m
    case Every =>
      var r := CommonNextValue(cur, m, max, None);
      if r.Some? {
        assert CommonMatch(cur + 1, m);
      }
    case Range(start, end) =>
      var r := CommonNextValue(cur, m, max, None);
      if r.Some? {
        assert CommonMatch(r.value, m);
      } else {
        assert cur >= end;
      }
    case Step(from, step) =>
      StepNextLeast(cur, from, step, max);
      forall u ensures CommonMatch(u, m) <==> OnStep(u, from, step) {
        StepMatchesProgression(u, from, step);
      }
    case List(values) =>
      ListNextLeast(cur, values, max);
  }

  /**
   * With a minimum, `commonNext` wraps round instead of returning `null`: to the minimum for
   * `*` and ranges, to `from` for steps and to the least value of a non-empty list.
   */
  lemma CommonNextWrap(cur: int, m: FieldModel, max: int, min: int)
    requires IsCommon(m) && StepEnds(cur, m, max)
    ensures var plain := CommonNextValue(cur, m, max, None);
      var wrapped := CommonNextValue(cur, m, max, Some(min));
      && (plain.Some? ==> wrapped == plain)
      && (plain.None? && (m.Every? || m.Range?) ==> wrapped == Some(min))
      && (plain.None? && m.Step? ==> wrapped == Some(m.from))
      && (plain.None? && m.List? && m.values != [] ==> wrapped == Some(MinOf(m.values)))
      && (m.List? && m.values == [] ==> wrapped == None)
  {
    if m.List? && m.values != [] {
      var sorted := SortAscending(m.values);
      SortAscendingFacts(m.values);
      assert sorted[0] in multiset(m.values);
      assert MinOf(m.values) in multiset(sorted);
      var j :| 0 <= j < |sorted| && sorted[j] == MinOf(m.values);
      SortedMono(sorted, 0, j);
      assert sorted[0] in m.values;
      assert MinOf(m.values) <= sorted[0];
    }
  }

  // ---------------------------------------------------------------------------
  // One field against one date

  /** `date[get]() + delta`: the value the field reads; Quartz months and weekdays count from one. */
  function FieldValue(field: CronField, t: DateTime): int
    requires 0 <= t.month < 12
  {
    match field
    case Seconds => t.seconds
    case Minutes => t.minutes
    case Hours => t.hours
    case DayOfMonth => t.day
    case Month => t.month + 1
    case DayOfWeek => WeekDay(t.year, t.month, t.day) + 1
    case Year => t.year
  }

  /** What `match()` decides for the field at date `t`. */
  function MatchAt(field: CronField, model: CronModel, t: DateTime): bool
    requires 0 <= t.month < 12
  {
    var fm := model.Get(field);
    var y, mo, day := t.year, t.month, t.day;
    if field != DayOfMonth && field != DayOfWeek then CommonMatch(FieldValue(field, t), fm)
    else if CommonMatch(FieldValue(field, t), fm) then true
    else if field == DayOfMonth then
      match fm
      case LastDay => day == GetLastDay(y, mo)
      case LastDayOffset(offset) => day == GetLastDay(y, mo) - offset
      case NearestWeekday(d) => day == GetNearestWeekday(y, mo, d)
      case _ => false
    else
      match fm
      case NthWeekOfMonth(n, w) => GetNthWeekdayOfMonth(y, mo, n, w) == Some(day)
      case LastWeekdayOfMonth(w) => day == LastWeekdayOfMonth(y, mo, w)
      case _ => false
  }

  /** The `max` passed to `commonNext`: the month's length for the day of month. */
  function NextMax(field: CronField, t: DateTime): int
    requires 0 <= t.month < 12
  {
    if field == DayOfMonth then GetLastDay(t.year, t.month) else ValueRange(field).max
  }

  /** Where `next()` ends: its step loop runs only for a step model outside the day of week. */
  predicate NextEnds(field: CronField, model: CronModel, t: DateTime)
    requires 0 <= t.month < 12
  {
    field != DayOfWeek ==> StepEnds(FieldValue(field, t), model.Get(field), NextMax(field, t))
  }

  /** Moves forward a weekday gap: `n <= 0 ? 7 + n : n`. */
  function WeekGap(n: int): int {
    if n <= 0 then 7 + n else n
  }

  /** What `next()` returns for the field at date `t`: the field's next value, or `None` for `null`. */
  function NextAt(field: CronField, model: CronModel, t: DateTime): Option<int>
    requires 0 <= t.month < 12 && NextEnds(field, model, t)
  {
    var fm := model.Get(field);
    var y, mo, day := t.year, t.month, t.day;
    var max := NextMax(field, t);
    if field != DayOfMonth && field != DayOfWeek then CommonNextValue(FieldValue(field, t), fm, max, None)
    else if field == DayOfMonth then
      var r := CommonNextValue(day, fm, max, None);
      if r.Some? then r
      else
        match fm
        case LastDay => var last := GetLastDay(y, mo); if last <= day then None else Some(last)
        case LastDayOffset(offset) =>
          var v := GetLastDay(y, mo) - offset; if v <= day then None else Some(v)
        case NearestWeekday(d) =>
          var v := GetNearestWeekday(y, mo, d); if v <= day then None else Some(v)
        case _ => None
    else
      match fm
      case Every => WeekdayNext(t, fm)
      case Range(_, _) => WeekdayNext(t, fm)
      case List(_) => WeekdayNext(t, fm)
      case NthWeekOfMonth(n, w) =>
        var d := GetNthWeekdayOfMonth(y, mo, n, w);
        if d.None? || d.value <= day then None else d
      case LastWeekdayOfMonth(w) =>
        var d := LastWeekdayOfMonth(y, mo, w); if d <= day then None else Some(d)
      case _ => None
  }

  /**
   * The day of week's next day in a common mode: the next weekday value, wrapping round to
   * Sunday, as a date of the same month. An exhausted empty list, `undefined` in the source, gives `None`.
   */
  function WeekdayNext(t: DateTime, fm: FieldModel): Option<int>
    requires 0 <= t.month < 12 && (fm.Every? || fm.Range? || fm.List?)
  {
    var current := WeekDay(t.year, t.month, t.day) + 1;
    var nextWeek := CommonNextValue(current, fm, ValueRange(DayOfWeek).max, Some(ValueRange(DayOfWeek).min));
    if nextWeek.None? then None
    else
      var nextDate := t.day + WeekGap(nextWeek.value - current);
      if nextDate > GetLastDay(t.year, t.month) then None
      else if nextDate <= t.day then None
      else Some(nextDate)
  }

  /** `getFirstValidValue`: the field's first value once the units above it are fixed. */
  function FirstValidValue(fm: FieldModel, min: int, y: int, mo: int): Option<int>
    requires 0 <= mo < 12
  {
    match fm
    case Every => Some(min)
    case Range(start, _) => Some(start)
    case Step(from, _) => Some(from)
    case List(values) => if values == [] then None else Some(MinOf(values))
    case LastDay => Some(GetLastDay(y, mo))
    case LastDayOffset(offset) => Some(GetLastDay(y, mo) - offset)
    case NearestWeekday(d) => Some(GetNearestWeekday(y, mo, d))
    case NthWeekOfMonth(n, w) => GetNthWeekdayOfMonth(y, mo, n, w)
    case LastWeekdayOfMonth(w) => Some(LastWeekdayOfMonth(y, mo, w))
    case Unspecified => None
  }

  // ---------------------------------------------------------------------------
  // What matching and the next value mean on the calendar

  /** The day-of-month rules: the last day, `n` days before it, the weekday nearest to a day. */
  lemma DayOfMonthMatchMeaning(model: CronModel, t: DateTime)
    requires Valid(t)
    ensures model.dayOfMonth.LastDay? ==>
      (MatchAt(DayOfMonth, model, t) <==> t.day == DaysInMonth(t.year, t.month))
    ensures model.dayOfMonth.LastDayOffset? ==>
      (MatchAt(DayOfMonth, model, t) <==> t.day == DaysInMonth(t.year, t.month) - model.dayOfMonth.offset)
    ensures model.dayOfMonth.NearestWeekday? && 1 <= model.dayOfMonth.day <= DaysInMonth(t.year, t.month) ==>
      var d := model.dayOfMonth.day;
      && (MatchAt(DayOfMonth, model, t) ==> 1 <= WeekDay(t.year, t.month, t.day) <= 5 && -2 <= t.day - d <= 2)
      && (1 <= WeekDay(t.year, t.month, d) <= 5 ==> (MatchAt(DayOfMonth, model, t) <==> t.day == d))
  {
    LastDayIsMonthLength(t.year, t.month);
    if model.dayOfMonth.NearestWeekday? && 1 <= model.dayOfMonth.day <= DaysInMonth(t.year, t.month) {
      NearestWeekdayFacts(t.year, t.month, model.dayOfMonth.day);
    }
  }

  /** The day-of-week rules: the `n`-th such weekday of the month, the last such weekday. */
  lemma DayOfWeekMatchMeaning(model: CronModel, t: DateTime)
    requires Valid(t)
    ensures model.dayOfWeek.NthWeekOfMonth? && model.dayOfWeek.weekNth >= 1 && 1 <= model.dayOfWeek.weekdayNth <= 7 ==>
      (MatchAt(DayOfWeek, model, t) <==>
        WeekDay(t.year, t.month, t.day) + 1 == model.dayOfWeek.weekdayNth && InWeek(t.day, model.dayOfWeek.weekNth))
    ensures model.dayOfWeek.LastWeekdayOfMonth? && 1 <= model.dayOfWeek.weekday <= 7 ==>
      (MatchAt(DayOfWeek, model, t) <==>
        WeekDay(t.year, t.month, t.day) + 1 == model.dayOfWeek.weekday && t.day + 7 > DaysInMonth(t.year, t.month))
  {
    var fm := model.dayOfWeek;
    LastDayIsMonthLength(t.year, t.month);
    if fm.NthWeekOfMonth? && fm.weekNth >= 1 && 1 <= fm.weekdayNth <= 7 {
      NthMatchMeaning(t, fm.weekNth, fm.weekdayNth);
    }
    if fm.LastWeekdayOfMonth? && 1 <= fm.weekday <= 7 {
      LastWeekdayMatchMeaning(t, fm.weekday);
    }
  }

  lemma NthMatchMeaning(t: DateTime, n: int, w: int)
    requires Valid(t) && n >= 1 && 1 <= w <= 7
    ensures GetNthWeekdayOfMonth(t.year, t.month, n, w) == Some(t.day) <==>
      WeekDay(t.year, t.month, t.day) + 1 == w && InWeek(t.day, n)
  {
    var y, m, d := t.year, t.month, t.day;
    LastDayIsMonthLength(y, m);
    NthWeekdayFacts(y, m, n, w);
    var r := GetNthWeekdayOfMonth(y, m, n, w);
    if WeekDay(y, m, d) + 1 == w && InWeek(d, n) {
      assert r.Some?;
      NthUnique(y, m, n, d, r.value);
    }
  }

  /** Two days of the same week of a month with the same weekday are the same day. */
  lemma NthUnique(y: int, m: int, n: int, d: int, r: int)
    requires 0 <= m < 12 && InWeek(d, n) && InWeek(r, n)
    requires WeekDay(y, m, d) == WeekDay(y, m, r)
    ensures d == r
  {
    WeekDayInMonth(y, m, d);
    WeekDayInMonth(y, m, r);
    SameWeekSameWeekday(d, r, n, WeekDay(y, m, 1));
  }

  lemma LastWeekdayMatchMeaning(t: DateTime, w: int)
    requires Valid(t) && 1 <= w <= 7
    ensures t.day == LastWeekdayOfMonth(t.year, t.month, w) <==>
      WeekDay(t.year, t.month, t.day) + 1 == w && t.day + 7 > DaysInMonth(t.year, t.month)
  {
    var y, m, d := t.year, t.month, t.day;
    LastDayIsMonthLength(y, m);
    LastWeekdayFacts(y, m, w);
    var r := LastWeekdayOfMonth(y, m, w);
    if WeekDay(y, m, d) + 1 == w && d + 7 > DaysInMonth(y, m) {
      LastWeekdayUnique(y, m, d, r);
    }
  }

  /** Two days among the last seven of a month with the same weekday are the same day. */
  lemma LastWeekdayUnique(y: int, m: int, d: int, r: int)
    requires 0 <= m < 12
    requires 1 <= d <= DaysInMonth(y, m) < d + 7 && 1 <= r <= DaysInMonth(y, m) < r + 7
    requires WeekDay(y, m, d) == WeekDay(y, m, r)
    ensures d == r
  {
    WeekDayInMonth(y, m, d);
    WeekDayInMonth(y, m, r);
    SameWeekdayClose(WeekDay(y, m, 1), d, r);
  }

  /** Two days of one month less than a week apart with the same weekday are the same day. */
  lemma SameWeekdayClose(w1: int, d1: int, d2: int)
    requires (w1 + d1 - 1) % 7 == (w1 + d2 - 1) % 7 && -7 < d1 - d2 < 7
    ensures d1 == d2
  {
    if d1 < d2 {
      ModDistinct(w1 + d1 - 1, w1 + d2 - 1);
    } else if d2 < d1 {
      ModDistinct(w1 + d2 - 1, w1 + d1 - 1);
    }
  }

  /** Without a minimum, `commonNext` only moves forward. */
  lemma CommonNextAbove(cur: int, m: FieldModel, max: int)
    requires StepEnds(cur, m, max)
    ensures var r := CommonNextValue(cur, m, max, None); r.Some? ==> r.value > cur
  {
    if m.List? {
      ListNextLeast(cur, m.values, max);
    }
  }

  /**
   * `next()` moves the field forward: a larger value for every field but the day of week, and a
   * later day of the same month for the day of week.
   */
  lemma NextMovesForward(field: CronField, model: CronModel, t: DateTime)
    requires Valid(t) && NextEnds(field, model, t)
    ensures var r := NextAt(field, model, t);
      && (r.Some? && field != DayOfWeek ==> r.value > FieldValue(field, t))
      && (r.Some? && field == DayOfWeek ==> t.day < r.value <= DaysInMonth(t.year, t.month))
  {
    LastDayIsMonthLength(t.year, t.month);
    if field != DayOfWeek {
      CommonNextAbove(FieldValue(field, t), model.Get(field), NextMax(field, t));
    }
  }

  /** Moving `j` days on moves the weekday `j` places round the week. */
  lemma WeekdayShift(y: int, m: int, d: int, j: int)
    requires 0 <= m < 12
    ensures WeekDay(y, m, d + j) == (WeekDay(y, m, d) + j) % 7
  {
    WeekDayInMonth(y, m, d);
    WeekDayInMonth(y, m, d + j);
    var a := WeekDay(y, m, 1) + d - 1;
    var q := a / 7;
    var q2 := (a % 7 + j) / 7;
    assert a == 7 * q + a % 7;
    assert a % 7 + j == 7 * q2 + (a % 7 + j) % 7;
    ModUnique(a + j, 7, q + q2, (a % 7 + j) % 7);
  }

  /** The Quartz weekday `j` days after one with Quartz weekday `cw`. */
  function WeekdayAfter(cw: int, j: int): int {
    (cw - 1 + j) % 7 + 1
  }

  /**
   * For a list of weekdays, the weekday gap `next()` moves by reaches a listed weekday and
   * passes over no listed weekday on the way.
   */
  lemma WeekGapToListed(cw: int, values: seq<int>)
    requires 1 <= cw <= 7 && values != [] && forall x :: x in values ==> 1 <= x <= 7
    ensures var nw := CommonNextValue(cw, List(values), 7, Some(1));
      && nw.Some?
      && var g := WeekGap(nw.value - cw);
      && 1 <= g <= 7
      && WeekdayAfter(cw, g) in values
      && forall j :: 0 < j < g ==> WeekdayAfter(cw, j) !in values
  {
    ListNextLeast(cw, values, 7);
    CommonNextWrap(cw, List(values), 7, 1);
    var plain := CommonNextValue(cw, List(values), 7, None);
    var nw := CommonNextValue(cw, List(values), 7, Some(1)).value;
    if plain.Some? {
      GapForward(cw, nw, values);
    } else {
      GapWrapped(cw, nw, values);
    }
  }

  /** The next listed weekday later in the week: the gap is the difference. */
  lemma GapForward(cw: int, nw: int, values: seq<int>)
    requires 1 <= cw < nw <= 7 && nw in values
    requires forall x :: x in values && x > cw ==> nw <= x
    ensures var g := WeekGap(nw - cw);
      1 <= g <= 7 && WeekdayAfter(cw, g) in values && forall j :: 0 < j < g ==> WeekdayAfter(cw, j) !in values
  {
    var g := WeekGap(nw - cw);
    assert g == nw - cw;
    assert WeekdayAfter(cw, g) == nw;
    forall j | 0 < j < g
      ensures WeekdayAfter(cw, j) !in values
    {
      assert WeekdayAfter(cw, j) == cw + j;
    }
  }

  /** No listed weekday later in the week: the gap wraps round to the least listed weekday. */
  lemma GapWrapped(cw: int, nw: int, values: seq<int>)
    requires 1 <= nw <= cw <= 7 && nw in values
    requires forall x :: x in values ==> nw <= x <= cw
    ensures var g := WeekGap(nw - cw);
      1 <= g <= 7 && WeekdayAfter(cw, g) in values && forall j :: 0 < j < g ==> WeekdayAfter(cw, j) !in values
  {
    var g := WeekGap(nw - cw);
    assert g == 7 + nw - cw;
    assert WeekdayAfter(cw, g) == nw;
    forall j | 0 < j < g
      ensures WeekdayAfter(cw, j) !in values
    {
      if cw - 1 + j <= 6 {
        assert WeekdayAfter(cw, j) == cw + j;
      } else {
        assert WeekdayAfter(cw, j) == cw + j - 7;
      }
    }
  }

  /** A list of weekdays matches the day `j` days on exactly when it lists that day's weekday. */
  lemma ListedDay(model: CronModel, t: DateTime, j: int)
    requires Valid(t) && model.dayOfWeek.List?
    ensures MatchAt(DayOfWeek, model, t.(day := t.day + j)) <==>
      WeekdayAfter(WeekDay(t.year, t.month, t.day) + 1, j) in model.dayOfWeek.values
  {
    WeekdayShift(t.year, t.month, t.day, j);
  }

  /**
   * For `*` and for a list of weekdays, the day `next()` finds is the first later day of the
   * month whose weekday matches, and `null` means the month has none.
   */
  lemma WeekdayNextIsFirstMatch(model: CronModel, t: DateTime)
    requires Valid(t)
    requires model.dayOfWeek.Every? || (model.dayOfWeek.List? && model.dayOfWeek.values != []
      && forall x :: x in model.dayOfWeek.values ==> 1 <= x <= 7)
    ensures var r := NextAt(DayOfWeek, model, t);
      && (r.Some? ==> MatchAt(DayOfWeek, model, t.(day := r.value))
                      && forall d :: t.day < d < r.value ==> !MatchAt(DayOfWeek, model, t.(day := d)))
      && (r.None? ==> forall d :: t.day < d <= DaysInMonth(t.year, t.month) ==> !MatchAt(DayOfWeek, model, t.(day := d)))
  {
    LastDayIsMonthLength(t.year, t.month);
    var fm := model.dayOfWeek;
    assert NextAt(DayOfWeek, model, t) == WeekdayNext(t, fm);
    if fm.List? {
      var cw := WeekDay(t.year, t.month, t.day) + 1;
      WeekGapToListed(cw, fm.values);
      var nw := CommonNextValue(cw, fm, 7, Some(1)).value;
      var g := WeekGap(nw - cw);
      assert WeekdayNext(t, fm) == if t.day + g > DaysInMonth(t.year, t.month) then None else Some(t.day + g);
      forall d | t.day < d < t.day + g
        ensures !MatchAt(DayOfWeek, model, t.(day := d))
      {
        ListedDay(model, t, d - t.day);
      }
      ListedDay(model, t, g);
    }
  }

  /** The modes that name particular days of the month rather than values. */
  predicate DayRule(field: CronField, fm: FieldModel) {
    || (field == DayOfMonth && (fm.LastDay? || fm.LastDayOffset? || fm.NearestWeekday?))
    || (field == DayOfWeek && (fm.NthWeekOfMonth? || fm.LastWeekdayOfMonth?))
  }

  /**
   * For a day rule, the day `next()` finds is the first later day of the month the rule
   * matches, and `null` means no later day of the month matches.
   */
  lemma DayRuleNextIsFirstMatch(field: CronField, model: CronModel, t: DateTime)
    requires Valid(t) && DayRule(field, model.Get(field))
    ensures NextEnds(field, model, t)
    ensures var r := NextAt(field, model, t);
      && (r.Some? ==> t.day < r.value && MatchAt(field, model, t.(day := r.value))
                      && forall d :: t.day < d < r.value ==> !MatchAt(field, model, t.(day := d)))
      && (r.None? ==> forall d :: t.day < d <= DaysInMonth(t.year, t.month) ==> !MatchAt(field, model, t.(day := d)))
  {
    LastDayIsMonthLength(t.year, t.month);
  }

  /** `getFirstValidValue`, with the backward search for the last weekday of the month. */
  method GetFirstValidValue(fm: FieldModel, min: int, y: int, mo: int) returns (r: Option<int>)
    requires 0 <= mo < 12
    ensures r == FirstValidValue(fm, min, y, mo)
  {
    match fm
    case LastWeekdayOfMonth(w) =>
      var d := GetLastWeekdayOfMonth(y, mo, w);
      r := Some(d);
    case _ =>
      r := FirstValidValue(fm, min, y, mo);
  }

  /**
   * The first valid value of a common mode matches and is the least value that does; `*`
   * starts from the minimum it is given.
   */
  lemma FirstValidValueLeast(fm: FieldModel, min: int, y: int, mo: int)
    requires 0 <= mo < 12 && IsCommon(fm)
    requires fm.Range? ==> fm.start <= fm.end
    requires fm.Step? ==> fm.step >= 1
    requires fm.List? ==> fm.values != []
    ensures var r := FirstValidValue(fm, min, y, mo);
      && r.Some?
      && (fm.Every? ==> r.value == min)
      && (!fm.Every? ==> CommonMatch(r.value, fm) && forall u :: CommonMatch(u, fm) ==> r.value <= u)
  {
    if fm.Step? {
      StepMatchesProgression(fm.from, fm.from, fm.step);
      forall u | CommonMatch(u, fm)
        ensures fm.from <= u
      {
      }
    }
  }


}
