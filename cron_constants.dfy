/** The fixed tables of the cron engine. */
module CronConstants {
  import opened Wrappers
  import opened CronTypes

  /** A field's admissible values, and the lower bound for its step when it differs. */
  datatype Bounds = Bounds(min: int, max: int, stepMin: Option<int>)

  /** `VALUE_RANGE_MAP` */
  function ValueRange(field: CronField): Bounds {
    match field
    case Seconds => Bounds(0, 59, None)
    case Minutes => Bounds(0, 59, None)
    case Hours => Bounds(0, 23, None)
    case DayOfMonth => Bounds(1, 31, None)
    case Month => Bounds(1, 12, None)
    case DayOfWeek => Bounds(1, 7, None)
    case Year => Bounds(1970, 2099, Some(1))
  }

  /** The lower bound a step is validated against: `stepMin` when present, else `min`. */
  function StepLowerBound(field: CronField): int {
    ValueRange(field).stepMin.GetOr(ValueRange(field).min)
  }

  /** `WEEK_EN_MAP` */
  const WeekEnMap: map<string, int> :=
    map["SUN" := 1, "MON" := 2, "TUE" := 3, "WED" := 4, "THU" := 5, "FRI" := 6, "SAT" := 7]

  /** `MONTH_EN_MAP` */
  const MonthEnMap: map<string, int> :=
    map["JAN" := 1, "FEB" := 2, "MAR" := 3, "APR" := 4, "MAY" := 5, "JUN" := 6,
        "JUL" := 7, "AUG" := 8, "SEP" := 9, "OCT" := 10, "NOV" := 11, "DEC" := 12]

  /** `CRON_FIELD_LIST`: the fields in expression order, with their labels. */
  const CronFieldList: seq<(CronField, string)> :=
    [(Seconds, "秒"), (Minutes, "分"), (Hours, "时"), (DayOfMonth, "日"),
     (Month, "月"), (DayOfWeek, "周"), (Year, "年")]

  /** The fields alone, in expression order. */
  function FieldOrder(): (r: seq<CronField>)
    ensures |r| == |CronFieldList| && forall i :: 0 <= i < |r| ==> r[i] == CronFieldList[i].0
  {
    seq(|CronFieldList|, i requires 0 <= i < |CronFieldList| => CronFieldList[i].0)
  }

  /** The position of a field in expression order. */
  function FieldIndex(f: CronField): (i: nat)
    ensures i < |CronFieldList| && CronFieldList[i].0 == f
  {
    match f
    case Seconds => 0
    case Minutes => 1
    case Hours => 2
    case DayOfMonth => 3
    case Month => 4
    case DayOfWeek => 5
    case Year => 6
  }

  /** Positions and fields correspond one to one. */
  lemma FieldIndexOf(i: nat)
    requires i < |CronFieldList|
    ensures FieldIndex(CronFieldList[i].0) == i
  {
  }

  /** `VALUE_LIST_COUNT_MAP`: folds the range table into `max - min + 1` per field. */
  function ListCountFrom(fields: seq<CronField>): map<CronField, int> {
    if fields == [] then map[]
    else
      var prev := ListCountFrom(fields[..|fields| - 1]);
      var f := fields[|fields| - 1];
      prev[f := ValueRange(f).max - ValueRange(f).min + 1]
  }

  const ValueListCountMap: map<CronField, int> := ListCountFrom(FieldOrder())

  /** `DEFAULT_MODEL()`: folds the field list, `?` for dayOfWeek and `*` elsewhere. */
  function DefaultModelFrom(fields: seq<CronField>): map<CronField, FieldModel> {
    if fields == [] then map[]
    else
      var prev := DefaultModelFrom(fields[..|fields| - 1]);
      var f := fields[|fields| - 1];
      prev[f := if f == DayOfWeek then Unspecified else Every]
  }

  function DefaultModel(): map<CronField, FieldModel> {
    DefaultModelFrom(FieldOrder())
  }

  /** `VALIDATE_ERROR_CODE_MAP`: each code and the string it stands for. */
  function ErrorCodeName(c: ErrorCode): string {
    match c
    case NotString => "NOT_STRING"
    case Empty => "EMPTY"
    case LengthError => "LENGTH_ERROR"
    case InvalidValue => "INVALID_VALUE"
    case NotInteger => "NOT_INTEGER"
    case OutOfRange => "OUT_OF_RANGE"
    case StartGreaterThanEnd => "START_GREATER_THAN_END"
    case NotList => "NOT_LIST"
    case ListLengthExceeded => "LIST_LENGTH_EXCEEDED"
    case ListEmpty => "LIST_EMPTY"
    case ListNotSorted => "LIST_NOT_SORTED"
    case DayWeekConflict => "DAY_WEEK_CONFLICT"
  }

  const AllErrorCodes: set<ErrorCode> :=
    {NotString, Empty, LengthError, InvalidValue, NotInteger, OutOfRange, StartGreaterThanEnd,
     NotList, ListLengthExceeded, ListEmpty, ListNotSorted, DayWeekConflict}

  // ---------------------------------------------------------------------------
  // Properties of the tables

  /** The field ranges, and the year's step lower bound of 1. */
  lemma FieldBounds()
    ensures ValueRange(Seconds).min == 0 && ValueRange(Seconds).max == 59
    ensures ValueRange(Minutes).min == 0 && ValueRange(Minutes).max == 59
    ensures ValueRange(Hours).min == 0 && ValueRange(Hours).max == 23
    ensures ValueRange(DayOfMonth).min == 1 && ValueRange(DayOfMonth).max == 31
    ensures ValueRange(Month).min == 1 && ValueRange(Month).max == 12
    ensures ValueRange(DayOfWeek).min == 1 && ValueRange(DayOfWeek).max == 7
    ensures ValueRange(Year).min == 1970 && ValueRange(Year).max == 2099
    ensures StepLowerBound(Year) == 1
    ensures forall f: CronField :: f != Year ==> StepLowerBound(f) == ValueRange(f).min
    ensures forall f: CronField :: ValueRange(f).min < ValueRange(f).max
  {
  }

  /** The integers from `lo` to `hi`. */
  function IntervalSet(lo: int, hi: int): (r: set<int>)
    ensures forall v :: v in r <==> lo <= v <= hi
    decreases hi - lo
  {
    if hi < lo then {} else IntervalSet(lo, hi - 1) + {hi}
  }

  lemma {:induction false} IntervalSize(lo: int, hi: int)
    requires lo <= hi + 1
    ensures |IntervalSet(lo, hi)| == hi - lo + 1
    decreases hi - lo
  {
    if lo <= hi {
      IntervalSize(lo, hi - 1);
    }
  }

  lemma {:induction false} ListCountFromKeys(fields: seq<CronField>)
    ensures forall f :: f in ListCountFrom(fields) <==> f in fields
    ensures forall f :: f in ListCountFrom(fields) ==>
      ListCountFrom(fields)[f] == ValueRange(f).max - ValueRange(f).min + 1
  {
    if fields != [] {
      ListCountFromKeys(fields[..|fields| - 1]);
      assert fields == fields[..|fields| - 1] + [fields[|fields| - 1]];
    }
  }

  /**
   * Every field has a list-length limit, and it is the number of distinct values the
   * field admits, so a strictly increasing list can never exceed it.
   */
  lemma ListCountIsNumberOfValues(f: CronField)
    ensures f in ValueListCountMap
    ensures ValueListCountMap[f] == |IntervalSet(ValueRange(f).min, ValueRange(f).max)|
  {
    var fs := FieldOrder();
    ListCountFromKeys(fs);
    FieldOrderIsFixed();
    IntervalSize(ValueRange(f).min, ValueRange(f).max);
  }

  const WeekNames: seq<string> := ["SUN", "MON", "TUE", "WED", "THU", "FRI", "SAT"]
  const MonthNames: seq<string> :=
    ["JAN", "FEB", "MAR", "APR", "MAY", "JUN", "JUL", "AUG", "SEP", "OCT", "NOV", "DEC"]

  /** SUN..SAT name 1..7 in order, and nothing else is a weekday abbreviation. */
  lemma WeekAbbreviations()
    ensures forall k :: k in WeekEnMap <==> k in WeekNames
    ensures forall i :: 0 <= i < |WeekNames| ==> WeekEnMap[WeekNames[i]] == i + 1
  {
  }

  /** JAN..DEC name 1..12 in order, and nothing else is a month abbreviation. */
  lemma MonthAbbreviations()
    ensures forall k :: k in MonthEnMap <==> k in MonthNames
    ensures forall i :: 0 <= i < |MonthNames| ==> MonthEnMap[MonthNames[i]] == i + 1
  {
  }

  /** The field order is seconds, minutes, hours, dayOfMonth, month, dayOfWeek, year. */
  lemma FieldOrderIsFixed()
    ensures FieldOrder() == [Seconds, Minutes, Hours, DayOfMonth, Month, DayOfWeek, Year]
    ensures forall f: CronField :: f in FieldOrder()
  {
    forall f: CronField ensures f in FieldOrder() {
      FieldCases(f);
    }
  }

  lemma {:induction false} DefaultModelFromEntries(fields: seq<CronField>)
    ensures forall f :: f in DefaultModelFrom(fields) <==> f in fields
    ensures forall f :: f in DefaultModelFrom(fields) ==>
      DefaultModelFrom(fields)[f] == if f == DayOfWeek then Unspecified else Every
  {
    if fields != [] {
      DefaultModelFromEntries(fields[..|fields| - 1]);
      assert fields == fields[..|fields| - 1] + [fields[|fields| - 1]];
    }
  }

  /** The default model has every field, `?` for dayOfWeek and `*` for the others. */
  lemma DefaultModelShape()
    ensures forall f: CronField :: f in DefaultModel()
    ensures DefaultModel()[DayOfWeek] == Unspecified
    ensures forall f: CronField :: f != DayOfWeek ==> DefaultModel()[f] == Every
  {
    DefaultModelFromEntries(FieldOrder());
    FieldOrderIsFixed();
  }

  /** There are exactly twelve error codes, with distinct names. */
  lemma ErrorCodesClosed()
    ensures |AllErrorCodes| == 12
    ensures forall c: ErrorCode :: c in AllErrorCodes
    ensures forall c, d :: c in AllErrorCodes && d in AllErrorCodes && c != d ==> ErrorCodeName(c) != ErrorCodeName(d)
  {
    forall c: ErrorCode ensures c in AllErrorCodes {
      match c
      case NotString =>
      case Empty =>
      case LengthError =>
      case InvalidValue =>
      case NotInteger =>
      case OutOfRange =>
      case StartGreaterThanEnd =>
      case NotList =>
      case ListLengthExceeded =>
      case ListEmpty =>
      case ListNotSorted =>
      case DayWeekConflict =>
    }
  }
}
