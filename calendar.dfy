/**
 * The calendar behind JavaScript's `Date`: the proleptic Gregorian calendar in local time,
 * day numbers counted from 1970-01-01, and the roll-over of out-of-range months, days and
 * times that the `Date` setters perform (the MakeDay, MakeTime and MakeDate operations of
 * section 21.4.1 of ECMA-262).
 */
module Calendar {

  predicate IsLeapYear(y: int) {
    y % 4 == 0 && (y % 100 != 0 || y % 400 == 0)
  }

  function DaysInYear(y: int): int {
    if IsLeapYear(y) then 366 else 365
  }

  /** The Gregorian length of month `m` (0-11) of year `y`. */
  function DaysInMonth(y: int, m: int): (r: int)
    requires 0 <= m < 12
    ensures 28 <= r <= 31
  {
    if m == 1 then (if IsLeapYear(y) then 29 else 28)
    else if m == 3 || m == 5 || m == 8 || m == 10 then 30
    else 31
  }

  /** The day number of January 1 of `y` (DayFromYear). */
  function DayFromYear(y: int): int {
    365 * (y - 1970) + (y - 1969) / 4 - (y - 1901) / 100 + (y - 1601) / 400
  }

  /** The days of year `y` before month `m`. */
  function MonthStart(y: int, m: int): int
    requires 0 <= m <= 12
  {
    [0, 31, 59, 90, 120, 151, 181, 212, 243, 273, 304, 334, 365][m] + if IsLeapYear(y) && m >= 2 then 1 else 0
  }

  /** The day number of a calendar date. */
  function DayNumber(y: int, m: int, d: int): int
    requires 0 <= m < 12
  {
    DayFromYear(y) + MonthStart(y, m) + d - 1
  }

  // ---------------------------------------------------------------------------
  // Day numbers of consecutive months

  /** Division by 4, 100 and 400 of a number written as a multiple plus a remainder. */
  lemma DivBy4(x: int, k: int, r: int)
    requires 0 <= r < 4 && x == 4 * k + r
    ensures x / 4 == k
  {
  }

  lemma DivBy100(x: int, k: int, r: int)
    requires 0 <= r < 100 && x == 100 * k + r
    ensures x / 100 == k
  {
  }

  lemma DivBy400(x: int, k: int, r: int)
    requires 0 <= r < 400 && x == 400 * k + r
    ensures x / 400 == k
  {
  }

  /** The four-year term of DayFromYear grows by one exactly into a year divisible by 4. */
  lemma CycleStep4(y: int)
    ensures ((y + 1) - 1969) / 4 - (y - 1969) / 4 == if y % 4 == 0 then 1 else 0
  {
    var q, r := y / 4, y % 4;
    if r == 0 {
      DivBy4((y + 1) - 1969, q - 492, 0);
      DivBy4(y - 1969, q - 493, 3);
    } else {
      DivBy4((y + 1) - 1969, q - 492, r);
      DivBy4(y - 1969, q - 492, r - 1);
    }
  }

  /** The century term grows by one exactly into a year divisible by 100. */
  lemma CycleStep100(y: int)
    ensures ((y + 1) - 1901) / 100 - (y - 1901) / 100 == if y % 100 == 0 then 1 else 0
  {
    var q, r := y / 100, y % 100;
    if r == 0 {
      DivBy100((y + 1) - 1901, q - 19, 0);
      DivBy100(y - 1901, q - 20, 99);
    } else {
      DivBy100((y + 1) - 1901, q - 19, r);
      DivBy100(y - 1901, q - 19, r - 1);
    }
  }

  /** The four-century term grows by one exactly into a year divisible by 400. */
  lemma CycleStep400(y: int)
    ensures ((y + 1) - 1601) / 400 - (y - 1601) / 400 == if y % 400 == 0 then 1 else 0
  {
    var q, r := y / 400, y % 400;
    if r == 0 {
      DivBy400((y + 1) - 1601, q - 4, 0);
      DivBy400(y - 1601, q - 5, 399);
    } else {
      DivBy400((y + 1) - 1601, q - 4, r);
      DivBy400(y - 1601, q - 4, r - 1);
    }
  }

  /** Each month starts where the one before it ends, and the twelve fill the year. */
  lemma MonthLengths(y: int, m: int)
    requires 0 <= m < 12
    ensures MonthStart(y, m + 1) == MonthStart(y, m) + DaysInMonth(y, m)
    ensures MonthStart(y, 0) == 0 && MonthStart(y, 12) == DaysInYear(y)
  {
  }

  /** A year's January 1 follows the previous year's days. */
  lemma DayFromNextYear(y: int)
    ensures DayFromYear(y + 1) == DayFromYear(y) + DaysInYear(y)
  {
    CycleStep4(y);
    CycleStep100(y);
    CycleStep400(y);
    var a := if y % 4 == 0 then 1 else 0;
    var b := if y % 100 == 0 then 1 else 0;
    var c := if y % 400 == 0 then 1 else 0;
    assert DayFromYear(y + 1) == DayFromYear(y) + 365 + a - b + c;
    CenturyDivisible(y);
    assert DaysInYear(y) == 365 + a - b + c;
  }

  /** A multiple of 400 is a multiple of 100, and a multiple of 100 a multiple of 4. */
  lemma CenturyDivisible(y: int)
    ensures y % 400 == 0 ==> y % 100 == 0
    ensures y % 100 == 0 ==> y % 4 == 0
  {
    if y % 400 == 0 {
      var k := y / 400;
      DivBy100(y, 4 * k, 0);
    }
    if y % 100 == 0 {
      var k := y / 100;
      DivBy4(y, 25 * k, 0);
    }
  }

  /** The first of the month after `m` (0-11) of `y`. */
  function NextMonth(y: int, m: int): (r: (int, int))
    requires 0 <= m < 12
    ensures 0 <= r.1 < 12
  {
    if m == 11 then (y + 1, 0) else (y, m + 1)
  }

  function PrevMonth(y: int, m: int): (r: (int, int))
    requires 0 <= m < 12
    ensures 0 <= r.1 < 12
  {
    if m == 0 then (y - 1, 11) else (y, m - 1)
  }

  /** The first of the next month is the day after the last of this one. */
  lemma NextMonthStart(y: int, m: int)
    requires 0 <= m < 12
    ensures var (ny, nm) := NextMonth(y, m);
      DayNumber(ny, nm, 1) == DayNumber(y, m, 1) + DaysInMonth(y, m)
  {
    MonthLengths(y, m);
    if m == 11 {
      DayFromNextYear(y);
    }
  }

  lemma PrevNext(y: int, m: int)
    requires 0 <= m < 12
    ensures NextMonth(PrevMonth(y, m).0, PrevMonth(y, m).1) == (y, m)
  {
  }

  // ---------------------------------------------------------------------------
  // Normalising a date

  /** A calendar date with its month index 0-11. */
  predicate ValidDay(y: int, m: int, d: int) {
    0 <= m < 12 && 1 <= d <= DaysInMonth(y, m)
  }

  /** Day `d` of month `m`, carried month by month into the month it falls in. */
  function NormDay(y: int, m: int, d: int): (r: (int, int, int))
    requires 0 <= m < 12
    ensures ValidDay(r.0, r.1, r.2)
    decreases if d < 1 then 1 else 0, if d < 1 then -d else d
  {
    if d < 1 then
      var (py, pm) := PrevMonth(y, m);
      NormDay(py, pm, d + DaysInMonth(py, pm))
    else if d > DaysInMonth(y, m) then
      var (ny, nm) := NextMonth(y, m);
      NormDay(ny, nm, d - DaysInMonth(y, m))
    else (y, m, d)
  }

  /** Normalising keeps the day number: it is day `d - 1` after the first of the month. */
  lemma {:induction false} NormDayNumber(y: int, m: int, d: int)
    requires 0 <= m < 12
    ensures var r := NormDay(y, m, d); DayNumber(r.0, r.1, r.2) == DayNumber(y, m, 1) + d - 1
    decreases if d < 1 then 1 else 0, if d < 1 then -d else d
  {
    if d < 1 {
      var (py, pm) := PrevMonth(y, m);
      NormDayNumber(py, pm, d + DaysInMonth(py, pm));
      PrevNext(y, m);
      NextMonthStart(py, pm);
    } else if d > DaysInMonth(y, m) {
      var (ny, nm) := NextMonth(y, m);
      NormDayNumber(ny, nm, d - DaysInMonth(y, m));
      NextMonthStart(y, m);
    }
  }

  /** The date with month `m` of year `y`, day `d`: MakeDay, months carried into years first. */
  function MakeDay(y: int, m: int, d: int): (r: (int, int, int))
    ensures ValidDay(r.0, r.1, r.2)
  {
    NormDay(y + m / 12, m % 12, d)
  }

  /** The date and time of the cursor; month 0-11, as `Date` keeps it. */
  datatype DateTime = DateTime(year: int, month: int, day: int, hours: int, minutes: int, seconds: int)

  predicate Valid(t: DateTime) {
    && ValidDay(t.year, t.month, t.day)
    && 0 <= t.hours < 24 && 0 <= t.minutes < 60 && 0 <= t.seconds < 60
  }

  /** The seconds since 1970-01-01 00:00:00. */
  function Instant(t: DateTime): int
    requires 0 <= t.month < 12
  {
    DayNumber(t.year, t.month, t.day) * 86400 + t.hours * 3600 + t.minutes * 60 + t.seconds
  }

  /** The date any combination of components denotes, seconds carried up to the year. */
  function Normalize(y: int, mo: int, d: int, h: int, mi: int, s: int): (r: DateTime)
    ensures Valid(r)
  {
    var mi1 := mi + s / 60;
    var h1 := h + mi1 / 60;
    var date := MakeDay(y, mo, d + h1 / 24);
    DateTime(date.0, date.1, date.2, h1 % 24, mi1 % 60, s % 60)
  }

  /** The first of month `m % 12` of year `y + m / 12`: the day MakeDay counts from. */
  function MonthFirst(y: int, m: int): int {
    DayNumber(y + m / 12, m % 12, 1)
  }

  /** Each month starts after the one before: a month has at least 28 days. */
  lemma MonthFirstNext(y: int, k: int)
    ensures MonthFirst(y, k + 1) >= MonthFirst(y, k) + 28
  {
    var y1, m1 := y + k / 12, k % 12;
    NextMonthStart(y1, m1);
    assert NextMonth(y1, m1) == (y + (k + 1) / 12, (k + 1) % 12);
  }

  /** Later month indexes start later. */
  lemma {:induction false} MonthFirstGrows(y: int, a: int, b: int)
    requires a <= b
    ensures MonthFirst(y, a) + 28 * (b - a) <= MonthFirst(y, b)
    decreases b - a
  {
    if a < b {
      MonthFirstGrows(y, a, b - 1);
      MonthFirstNext(y, b - 1);
    }
  }

  /** A day of month `m` comes before the first of any later month index. */
  lemma DayBeforeLaterMonth(y: int, m: int, d: int, k: int)
    requires ValidDay(y, m, d) && m < k
    ensures DayNumber(y, m, d) < MonthFirst(y, k)
  {
    NextMonthStart(y, m);
    assert MonthFirst(y, m + 1) == DayNumber(NextMonth(y, m).0, NextMonth(y, m).1, 1);
    MonthFirstGrows(y, m + 1, k);
  }

  /** Normalising keeps the instant the components denote. */
  lemma NormalizeInstant(y: int, mo: int, d: int, h: int, mi: int, s: int)
    ensures Instant(Normalize(y, mo, d, h, mi, s)) == (MonthFirst(y, mo) + d - 1) * 86400 + h * 3600 + mi * 60 + s
  {
    var mi1 := mi + s / 60;
    var h1 := h + mi1 / 60;
    NormDayNumber(y + mo / 12, mo % 12, d + h1 / 24);
    CarryTime(h, mi, s);
  }

  /** Carrying seconds into minutes, minutes into hours and hours into days keeps the total. */
  lemma CarryTime(h: int, mi: int, s: int)
    ensures var mi1 := mi + s / 60; var h1 := h + mi1 / 60;
      (h1 / 24) * 86400 + (h1 % 24) * 3600 + (mi1 % 60) * 60 + s % 60 == h * 3600 + mi * 60 + s
  {
    var mi1 := mi + s / 60;
    var h1 := h + mi1 / 60;
    assert s == (s / 60) * 60 + s % 60;
    assert mi1 == (mi1 / 60) * 60 + mi1 % 60;
    assert h1 == (h1 / 24) * 24 + h1 % 24;
  }

  /** Distinct valid dates have distinct instants, so the instant identifies the date. */
  lemma DayNumberInjective(y1: int, m1: int, d1: int, y2: int, m2: int, d2: int)
    requires ValidDay(y1, m1, d1) && ValidDay(y2, m2, d2)
    requires DayNumber(y1, m1, d1) == DayNumber(y2, m2, d2)
    ensures y1 == y2 && m1 == m2 && d1 == d2
  {
    if y1 < y2 || (y1 == y2 && (m1 < m2 || (m1 == m2 && d1 < d2))) {
      DayNumberOrder(y1, m1, d1, y2, m2, d2);
    } else if (y1, m1, d1) != (y2, m2, d2) {
      DayNumberOrder(y2, m2, d2, y1, m1, d1);
    }
  }

  /** Valid dates in calendar order have increasing day numbers. */
  lemma DayNumberOrder(y1: int, m1: int, d1: int, y2: int, m2: int, d2: int)
    requires ValidDay(y1, m1, d1) && ValidDay(y2, m2, d2)
    requires (y1, m1, d1) != (y2, m2, d2)
    requires y1 < y2 || (y1 == y2 && (m1 < m2 || (m1 == m2 && d1 < d2)))
    ensures DayNumber(y1, m1, d1) < DayNumber(y2, m2, d2)
  {
    if y1 < y2 {
      YearEndBefore(y1, m1, d1);
      YearStartsGrow(y1 + 1, y2);
      MonthStartGrows(y2, 0, m2);
    } else if m1 < m2 {
      MonthEndBefore(y1, m1, d1, m2);
    }
  }

  lemma MonthStartGrows(y: int, a: int, b: int)
    requires 0 <= a <= b <= 12
    ensures MonthStart(y, a) <= MonthStart(y, b)
  {
  }

  lemma MonthEndBefore(y: int, m: int, d: int, m2: int)
    requires ValidDay(y, m, d) && m < m2 < 12
    ensures DayNumber(y, m, d) < DayNumber(y, m2, 1)
  {
    MonthStartGrows(y, m + 1, m2);
    MonthLengths(y, m);
  }

  lemma YearEndBefore(y: int, m: int, d: int)
    requires ValidDay(y, m, d)
    ensures DayNumber(y, m, d) < DayFromYear(y + 1)
  {
    MonthStartGrows(y, m + 1, 12);
    MonthLengths(y, m);
    DayFromNextYear(y);
  }

  lemma {:induction false} YearStartsGrow(a: int, b: int)
    requires a <= b
    ensures DayFromYear(a) <= DayFromYear(b)
    decreases b - a
  {
    if a < b {
      YearStartsGrow(a, b - 1);
      DayFromNextYear(b - 1);
    }
  }

  /** `getDay()`: 0 for Sunday to 6 for Saturday; 1970-01-01 was a Thursday. */
  function WeekDay(y: int, m: int, d: int): (r: int)
    requires 0 <= m < 12
    ensures 0 <= r < 7
  {
    (DayNumber(y, m, d) + 4) % 7
  }

  /** Within a month the weekday advances by one a day. */
  lemma WeekDayInMonth(y: int, m: int, d: int)
    requires 0 <= m < 12
    ensures WeekDay(y, m, d) == (WeekDay(y, m, 1) + d - 1) % 7
  {
    var a := DayNumber(y, m, 1) + 4;
    assert DayNumber(y, m, d) + 4 == a + (d - 1);
    ModSevenShift(a, d - 1);
  }

  /** Adding to a number or to its remainder leaves the same remainder modulo 7. */
  lemma ModSevenShift(a: int, b: int)
    ensures (a + b) % 7 == (a % 7 + b) % 7
  {
    var q := a / 7;
    assert a == 7 * q + a % 7;
    assert a + b == 7 * q + (a % 7 + b);
  }

  /** A valid date is its own normalisation. */
  lemma NormalizeValid(t: DateTime)
    requires Valid(t)
    ensures Normalize(t.year, t.month, t.day, t.hours, t.minutes, t.seconds) == t
  {
  }
}
