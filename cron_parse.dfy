/** `expression2Model`: from a Quartz expression to a field model, with per-field errors. */
module CronParse {
  import opened Wrappers
  import opened JsValues
  import opened CronTypes
  import opened CronConstants
  import opened CronValidate

  /** `transformEnToNumber`: a month or weekday abbreviation becomes its number's text. */
  function TransformEnToNumber(value: string, field: CronField): string {
    if field == Month && value in MonthEnMap then IntToString(MonthEnMap[value])
    else if field == DayOfWeek && value in WeekEnMap then IntToString(WeekEnMap[value])
    else value
  }

  /** The strings of a list of texts, as the values handed to a validator. */
  function Texts(values: seq<string>): (r: seq<JsValue>)
    ensures |r| == |values| && forall i :: 0 <= i < |r| ==> r[i] == Str(values[i])
  {
    seq(|values|, i requires 0 <= i < |values| => Str(values[i]))
  }

  /** `parseCommonExpression` for the field, with the field's bounds. */
  function ParseCommon(expr: string, field: CronField): FieldParseResult {
    if expr == "?" && field in {DayOfMonth, DayOfWeek, Year} then Parsed(Unspecified)
    else if expr == "*" then Parsed(Every)
    else if '-' in expr then ParseRangeExpr(expr, field)
    else if '/' in expr && field != DayOfWeek then ParseStepExpr(expr, field)
    else if ',' in expr then ParseListExpr(expr, field)
    else ParseSingle(expr, field)
  }

  /** The `a-b` branch: the first two pieces around `-`, abbreviations translated. */
  function ParseRangeExpr(expr: string, field: CronField): FieldParseResult {
    var b := ValueRange(field);
    var parts := Split(expr, '-');
    var start := Str(TransformEnToNumber(parts[0], field));
    var end := if |parts| > 1 then Str(TransformEnToNumber(parts[1], field)) else Undefined;
    var v := ValidateRange(start, end, b.min, b.max);
    if v.Fail? then Failed(v.code)
    else Parsed(Range(NumberValue(start), NumberValue(end)))
  }

  /** The `f/s` branch: a `*` start is checked as the field's minimum but stored as 0. */
  function ParseStepExpr(expr: string, field: CronField): FieldParseResult {
    var b := ValueRange(field);
    var parts := Split(expr, '/');
    var from := parts[0];
    var step := if |parts| > 1 then Str(parts[1]) else Undefined;
    var v := ValidateStep(if from == "*" then Num(b.min as real) else Str(from), step,
                          b.stepMin.GetOr(b.min), b.max);
    if v.Fail? then Failed(v.code)
    else Parsed(Step(if from == "*" then 0 else NumberValue(Str(from)), NumberValue(step)))
  }

  /** The pieces around `,`, abbreviations translated. */
  function ListTexts(expr: string, field: CronField): seq<JsValue> {
    var pieces := Split(expr, ',');
    Texts(seq(|pieces|, i requires 0 <= i < |pieces| => TransformEnToNumber(pieces[i], field)))
  }

  /** The `a,b,c` branch. */
  function ParseListExpr(expr: string, field: CronField): FieldParseResult {
    var b := ValueRange(field);
    var values := ListTexts(expr, field);
    var v := ListValidation(Some(values), b.min, b.max);
    if v.Fail? then Failed(v.code)
    else Parsed(List(Numbers(values)))
  }

  /** A single integer becomes a one-element list; anything else is an invalid value. */
  function ParseSingle(expr: string, field: CronField): FieldParseResult {
    var b := ValueRange(field);
    if IsInteger(Str(expr)) then
      if !IsInRange(ToNumber(Str(expr)), b.min, b.max) then Failed(OutOfRange)
      else Parsed(List([NumberValue(Str(expr))]))
    else Failed(InvalidValue)
  }

  /** `/^L-\d+$/` */
  predicate IsLastDayOffsetForm(expr: string) {
    |expr| >= 3 && expr[0] == 'L' && expr[1] == '-' && IsDigits(expr[2..])
  }

  /** `/^\d+X$/` for the suffix letter `x` */
  predicate IsDigitsThen(expr: string, x: char) {
    |expr| >= 2 && expr[|expr| - 1] == x && IsDigits(expr[..|expr| - 1])
  }

  /** `/^\d+#\d+$/` */
  predicate IsNthForm(expr: string) {
    var pieces := Split(expr, '#');
    |pieces| == 2 && IsDigits(pieces[0]) && IsDigits(pieces[1])
  }

  /** `parseDayOfMonthExpression`: `L`, `L-n`, `dW`, then the common forms. */
  function ParseDayOfMonth(expr: string): FieldParseResult {
    if expr == "L" then Parsed(LastDay)
    else if IsLastDayOffsetForm(expr) then
      var offset := DigitsValue(expr[2..]);
      var v := ValidateDayOffset(Num(offset as real));
      if v.Fail? then Failed(v.code) else Parsed(LastDayOffset(offset))
    else if IsDigitsThen(expr, 'W') then
      var day := DigitsValue(expr[..|expr| - 1]);
      var v := ValidateDay(Num(day as real));
      if v.Fail? then Failed(v.code) else Parsed(NearestWeekday(day))
    else ParseCommon(expr, DayOfMonth)
  }

  /** `parseDayOfWeekExpression`: `wL`, `w#n` (week number checked first), then the common forms. */
  function ParseDayOfWeek(expr: string): FieldParseResult {
    if IsDigitsThen(expr, 'L') then
      var weekday := DigitsValue(expr[..|expr| - 1]);
      var v := ValidateWeekday(Num(weekday as real));
      if v.Fail? then Failed(v.code) else Parsed(LastWeekdayOfMonth(weekday))
    else if IsNthForm(expr) then
      var pieces := Split(expr, '#');
      var weekdayNth, weekNth := DigitsValue(pieces[0]), DigitsValue(pieces[1]);
      var v := ValidateWeekNth(Num(weekNth as real));
      if v.Fail? then Failed(v.code)
      else
        var v2 := ValidateWeekday(Num(weekdayNth as real));
        if v2.Fail? then Failed(v2.code)
        else Parsed(NthWeekOfMonth(weekNth, weekdayNth))
    else ParseCommon(expr, DayOfWeek)
  }

  /** The parser a field's token goes to. */
  function ParseToken(field: CronField, token: string): FieldParseResult {
    if field == DayOfMonth then ParseDayOfMonth(token)
    else if field == DayOfWeek then ParseDayOfWeek(token)
    else ParseCommon(token, field)
  }

  // ---------------------------------------------------------------------------
  // Splitting the expression into tokens

  predicate NoSpace(s: string) {
    forall i :: 0 <= i < |s| ==> !IsSpace(s[i])
  }

  /** The leading run of non-space characters. */
  function WordPrefix(t: string): (w: string)
    ensures |w| <= |t| && w == t[..|w|]
    ensures NoSpace(w)
    ensures |w| < |t| ==> IsSpace(t[|w|])
  {
    if t == [] || IsSpace(t[0]) then [] else [t[0]] + WordPrefix(t[1..])
  }

  /** `t.split(/\s+/)` of a trimmed non-empty `t`: its maximal runs of non-space characters. */
  function Words(t: string): (r: seq<string>)
    ensures forall i :: 0 <= i < |r| ==> r[i] != [] && NoSpace(r[i])
    decreases |t|
  {
    var u := TrimStart(t);
    if u == [] then []
    else
      var w := WordPrefix(u);
      [w] + Words(u[|w|..])
  }

  // ---------------------------------------------------------------------------
  // The expression

  /** The model and the errors gathered so far. */
  datatype ParseState = ParseState(model: map<CronField, FieldModel>, errors: map<ErrorKey, ErrorCode>)

  /** Records a field's parse result: its model, or its error. */
  function Record(st: ParseState, field: CronField, res: FieldParseResult): ParseState {
    if res.Failed? then st.(errors := st.errors[FieldKey(field) := res.code])
    else st.(model := st.model[field := res.data])
  }

  /** One round of the loop of `expression2Model`, on the token at `index`. */
  function ParseField(parts: seq<string>, index: nat, st: ParseState): ParseState
    requires |parts| == |CronFieldList| && index < |CronFieldList|
  {
    var item := parts[index];
    var field := CronFieldList[index].0;
    if item == "" then st.(errors := st.errors[FieldKey(field) := Empty])
    else if field == DayOfWeek && DayOfMonth in st.model && st.model[DayOfMonth] != Unspecified && item != "?" then
      st.(errors := st.errors[FieldKey(field) := DayWeekConflict])
    else Record(st, field, ParseToken(field, item))
  }

  /** The state after the first `n` rounds. */
  function ParseFields(parts: seq<string>, n: nat): ParseState
    requires |parts| == |CronFieldList| && n <= |CronFieldList|
  {
    if n == 0 then ParseState(map[], map[]) else ParseField(parts, n - 1, ParseFields(parts, n - 1))
  }

  /** What `expression2Model` returns; `None` stands for a missing `data`. */
  function ExpressionModel(expr: JsValue): ParseResult {
    if !expr.Str? then ParseResult(None, map[Global := NotString])
    else if Trim(expr.s) == "" then ParseResult(None, map[Global := Empty])
    else
      var parts := Words(Trim(expr.s));
      if |parts| < 6 || |parts| > 7 then ParseResult(None, map[Global := LengthError])
      else
        var all := if |parts| == 6 then parts + ["*"] else parts;
        var st := ParseFields(all, |CronFieldList|);
        ParseResult(Some(st.model), st.errors)
  }

  /** `expression2Model`, with its loop over the fields. */
  method Expression2Model(expr: JsValue) returns (r: ParseResult)
    ensures r == ExpressionModel(expr)
  {
    if !expr.Str? {
      return ParseResult(None, map[Global := NotString]);
    }
    var trimmed := Trim(expr.s);
    if trimmed == "" {
      return ParseResult(None, map[Global := Empty]);
    }
    var parts := Words(trimmed);
    if |parts| < 6 || |parts| > 7 {
      return ParseResult(None, map[Global := LengthError]);
    }
    if |parts| == 6 {
      parts := parts + ["*"];
    }
    var model, errors := ParseAllFields(parts);
    return ParseResult(Some(model), errors);
  }

  /** The loop of `expression2Model` over the seven tokens. */
  method ParseAllFields(parts: seq<string>) returns (model: map<CronField, FieldModel>, errors: map<ErrorKey, ErrorCode>)
    requires |parts| == |CronFieldList|
    ensures ParseState(model, errors) == ParseFields(parts, |CronFieldList|)
  {
    errors := map[];
    model := map[];
    for index := 0 to |CronFieldList|
      invariant ParseState(model, errors) == ParseFields(parts, index)
    {
      var item := parts[index];
      var field := CronFieldList[index].0;
      if item == "" {
        errors := errors[FieldKey(field) := Empty];
        continue;
      }
      if field == DayOfMonth {
        var result := ParseDayOfMonth(item);
        if result.Failed? {
          errors := errors[FieldKey(field) := result.code];
          continue;
        }
        model := model[field := result.data];
        continue;
      }
      if field == DayOfWeek {
        if DayOfMonth in model && model[DayOfMonth] != Unspecified && item != "?" {
          errors := errors[FieldKey(field) := DayWeekConflict];
          continue;
        }
        var result := ParseDayOfWeek(item);
        if result.Failed? {
          errors := errors[FieldKey(field) := result.code];
          continue;
        }
        model := model[field := result.data];
        continue;
      }
      var result := ParseCommon(item, field);
      if result.Failed? {
        errors := errors[FieldKey(field) := result.code];
        continue;
      }
      model := model[field := result.data];
    }
  }
}
