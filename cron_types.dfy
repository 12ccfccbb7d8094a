/** The cron field model: fields, modes, the whole model and the result shapes. */
module CronTypes {
  import opened Wrappers

  /** One of the seven fields of a Quartz expression. */
  datatype CronField = Seconds | Minutes | Hours | DayOfMonth | Month | DayOfWeek | Year

  /**
   * The model of one field, one constructor per mode:
   * `*`, `a-b`, `f/s`, `a,b,c`, `?`, `L`, `L-n`, `dW`, `w#n`, `wL`.
   */
  datatype FieldModel =
    | Every
    | Range(start: int, end: int)
    | Step(from: int, step: int)
    | List(values: seq<int>)
    | Unspecified
    | LastDay
    | LastDayOffset(offset: int)
    | NearestWeekday(day: int)
    | NthWeekOfMonth(weekNth: int, weekdayNth: int)
    | LastWeekdayOfMonth(weekday: int)

  /** The four modes every field understands. */
  predicate IsCommon(m: FieldModel) {
    m.Every? || m.Range? || m.Step? || m.List?
  }

  /** The seven fields; with `FieldCases`, lets quantifiers over fields be instantiated. */
  predicate AllFields(f: CronField) {
    f in {Seconds, Minutes, Hours, DayOfMonth, Month, DayOfWeek, Year}
  }

  lemma FieldCases(f: CronField)
    ensures AllFields(f)
  {
    match f
    case Seconds =>
    case Minutes =>
    case Hours =>
    case DayOfMonth =>
    case Month =>
    case DayOfWeek =>
    case Year =>
  }

  /**
   * The modes a field may hold. Year also admits `?`, which the parser accepts for it
   * although the typed model only lists the common modes.
   */
  predicate AllowedFor(field: CronField, m: FieldModel) {
    match field
    case DayOfMonth =>
      IsCommon(m) || m.Unspecified? || m.LastDay? || m.LastDayOffset? || m.NearestWeekday?
    case DayOfWeek =>
      m.Every? || m.Range? || m.List? || m.Unspecified? || m.LastWeekdayOfMonth? || m.NthWeekOfMonth?
    case Year => IsCommon(m) || m.Unspecified?
    case _ => IsCommon(m)
  }

  /** A complete model, one field model per field. */
  datatype CronModel = CronModel(
    seconds: FieldModel,
    minutes: FieldModel,
    hours: FieldModel,
    dayOfMonth: FieldModel,
    month: FieldModel,
    dayOfWeek: FieldModel,
    year: FieldModel)
  {
    /** `model[field]` */
    function Get(field: CronField): FieldModel {
      match field
      case Seconds => seconds
      case Minutes => minutes
      case Hours => hours
      case DayOfMonth => dayOfMonth
      case Month => month
      case DayOfWeek => dayOfWeek
      case Year => year
    }

    /** Every field holds a mode its type admits. */
    predicate WellShaped() {
      forall f: CronField :: AllowedFor(f, Get(f))
    }

    /** The model as a record keyed by field. */
    function ToMap(): (r: map<CronField, FieldModel>)
      ensures forall f: CronField :: AllFields(f) ==> f in r && r[f] == Get(f)
    {
      map[Seconds := seconds, Minutes := minutes, Hours := hours, DayOfMonth := dayOfMonth,
          Month := month, DayOfWeek := dayOfWeek, Year := year]
    }
  }

  /** The closed set of validation error codes. */
  datatype ErrorCode =
    | NotString
    | Empty
    | LengthError
    | InvalidValue
    | NotInteger
    | OutOfRange
    | StartGreaterThanEnd
    | NotList
    | ListLengthExceeded
    | ListEmpty
    | ListNotSorted
    | DayWeekConflict

  /** A value check: plain success, or failure with exactly one code. */
  datatype ValidateResult = Pass | Fail(code: ErrorCode)

  /** The result of parsing one field's token. */
  datatype FieldParseResult = Parsed(data: FieldModel) | Failed(code: ErrorCode)

  /** The keys of the parse error record: a field, or `global`. */
  datatype ErrorKey = Global | FieldKey(field: CronField)

  /** The result of parsing a whole expression: an optional partial model and the errors. */
  datatype ParseResult = ParseResult(
    data: Option<map<CronField, FieldModel>>,
    errors: map<ErrorKey, ErrorCode>)

  /** The result of serialising one field model. */
  datatype FieldExprResult = FieldExprResult(
    success: bool,
    data: string,
    errors: Option<seq<ErrorCode>>)
}
