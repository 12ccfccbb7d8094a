/** What the parser guarantees about the models it builds and the errors it reports. */
module CronParseFacts {
  import opened Wrappers
  import opened JsValues
  import opened CronTypes
  import opened CronConstants
  import opened CronValidate
  import opened CronParse

  /** The values a parsed field model can hold: what the validators let through. */
  predicate Admissible(field: CronField, m: FieldModel) {
    var b := ValueRange(field);
    match m
    case Every => true
    case Unspecified => true
    case LastDay => true
    case Range(s, e) => b.min <= s < e <= b.max
    // the start is checked against the step's lower bound too (1 for the year), and `*` is stored as 0
    case Step(f, s) => (f == 0 || StepLowerBound(field) <= f <= b.max) && StepLowerBound(field) <= s <= b.max
    case List(vs) =>
      && 1 <= |vs| <= b.max - b.min + 1
      && (forall i :: 0 <= i < |vs| ==> b.min <= vs[i] <= b.max)
      && (forall i, j :: 0 <= i < j < |vs| ==> vs[i] < vs[j])
    case LastDayOffset(o) => 1 <= o <= 30
    case NearestWeekday(d) => 1 <= d <= 31
    case NthWeekOfMonth(n, w) => 1 <= n <= 5 && 1 <= w <= 7
    case LastWeekdayOfMonth(w) => 1 <= w <= 7
  }

  /** Every model `parseCommonExpression` builds is a mode the field admits, within its bounds. */
  lemma ParseCommonSound(expr: string, field: CronField)
    requires ParseCommon(expr, field).Parsed?
    ensures AllowedFor(field, ParseCommon(expr, field).data)
    ensures Admissible(field, ParseCommon(expr, field).data)
    ensures IsCommon(ParseCommon(expr, field).data) || ParseCommon(expr, field).data.Unspecified?
  {
    if expr == "?" && field in {DayOfMonth, DayOfWeek, Year} {
    } else if expr == "*" {
    } else if '-' in expr {
      assert ParseCommon(expr, field) == ParseRangeExpr(expr, field);
      ParseRangeSound(expr, field);
    } else if '/' in expr && field != DayOfWeek {
      assert ParseCommon(expr, field) == ParseStepExpr(expr, field);
      ParseStepSound(expr, field);
    } else if ',' in expr {
      assert ParseCommon(expr, field) == ParseListExpr(expr, field);
      ParseListSound(expr, field);
    } else {
      assert ParseCommon(expr, field) == ParseSingle(expr, field);
      ParseSingleSound(expr, field);
    }
  }

  lemma ParseRangeSound(expr: string, field: CronField)
    requires ParseRangeExpr(expr, field).Parsed?
    ensures ParseRangeExpr(expr, field).data.Range?
    ensures Admissible(field, ParseRangeExpr(expr, field).data)
  {
  }

  lemma ParseStepSound(expr: string, field: CronField)
    requires ParseStepExpr(expr, field).Parsed?
    ensures ParseStepExpr(expr, field).data.Step?
    ensures Admissible(field, ParseStepExpr(expr, field).data)
  {
    var b := ValueRange(field);
    var parts := Split(expr, '/');
    var from := parts[0];
    var step := if |parts| > 1 then Str(parts[1]) else Undefined;
    var f := if from == "*" then Num(b.min as real) else Str(from);
    assert ValidateStep(f, step, b.stepMin.GetOr(b.min), b.max) == Pass;
    assert b.stepMin.GetOr(b.min) == StepLowerBound(field);
  }

  lemma ParseListSound(expr: string, field: CronField)
    requires ParseListExpr(expr, field).Parsed?
    ensures ParseListExpr(expr, field).data.List?
    ensures Admissible(field, ParseListExpr(expr, field).data)
  {
    var b := ValueRange(field);
    var values := ListTexts(expr, field);
    ListValidationPass(Some(values), b.min, b.max);
    ValidatedListDistinct(values, b.min, b.max);
  }

  lemma ParseSingleSound(expr: string, field: CronField)
    requires ParseSingle(expr, field).Parsed?
    ensures ParseSingle(expr, field).data.List?
    ensures Admissible(field, ParseSingle(expr, field).data)
  {
  }

  /** The same for the day-of-month parser. */
  lemma ParseDayOfMonthSound(expr: string)
    requires ParseDayOfMonth(expr).Parsed?
    ensures AllowedFor(DayOfMonth, ParseDayOfMonth(expr).data)
    ensures Admissible(DayOfMonth, ParseDayOfMonth(expr).data)
  {
    if expr != "L" && !IsLastDayOffsetForm(expr) && !IsDigitsThen(expr, 'W') {
      ParseCommonSound(expr, DayOfMonth);
    }
  }

  /** The same for the day-of-week parser. */
  lemma ParseDayOfWeekSound(expr: string)
    requires ParseDayOfWeek(expr).Parsed?
    ensures AllowedFor(DayOfWeek, ParseDayOfWeek(expr).data)
    ensures Admissible(DayOfWeek, ParseDayOfWeek(expr).data)
  {
    if !IsDigitsThen(expr, 'L') && !IsNthForm(expr) {
      ParseCommonSound(expr, DayOfWeek);
    }
  }

  lemma ParseTokenSound(field: CronField, token: string)
    requires ParseToken(field, token).Parsed?
    ensures AllowedFor(field, ParseToken(field, token).data)
    ensures Admissible(field, ParseToken(field, token).data)
  {
    if field == DayOfMonth {
      ParseDayOfMonthSound(token);
    } else if field == DayOfWeek {
      ParseDayOfWeekSound(token);
    } else {
      ParseCommonSound(token, field);
    }
  }

  // ---------------------------------------------------------------------------
  // The whole expression: each field's outcome depends on its own token only

  /** The day-of-week token is refused because a day of month is specified. */
  predicate Conflict(parts: seq<string>)
    requires |parts| == 7
  {
    && parts[3] != ""
    && ParseToken(DayOfMonth, parts[3]).Parsed?
    && ParseToken(DayOfMonth, parts[3]).data != Unspecified
    && parts[5] != "?"
  }

  /** The outcome for the token at `i`, from the tokens alone. */
  function Expected(parts: seq<string>, i: nat): FieldParseResult
    requires |parts| == 7 && i < 7
  {
    var field := CronFieldList[i].0;
    if parts[i] == "" then Failed(Empty)
    else if field == DayOfWeek && Conflict(parts) then Failed(DayWeekConflict)
    else ParseToken(field, parts[i])
  }

  /** The state holds exactly the outcome for the field: its model, or its error. */
  predicate Agrees(st: ParseState, field: CronField, res: FieldParseResult) {
    if res.Parsed? then
      field in st.model && st.model[field] == res.data && FieldKey(field) !in st.errors
    else
      FieldKey(field) in st.errors && st.errors[FieldKey(field)] == res.code && field !in st.model
  }

  /** The outcomes of all seven tokens, in field order. */
  function ExpectedAll(parts: seq<string>): (r: seq<FieldParseResult>)
    requires |parts| == 7
    ensures |r| == 7 && forall i :: 0 <= i < 7 ==> r[i] == Expected(parts, i)
  {
    seq(7, i requires 0 <= i < 7 => Expected(parts, i))
  }

  /** After `n` rounds: the first `n` fields have their outcomes and nothing else is recorded. */
  predicate Covers(st: ParseState, outcomes: seq<FieldParseResult>, n: nat)
    requires |outcomes| == 7 && n <= 7
  {
    && (forall f :: FieldIndex(f) < n ==> Agrees(st, f, outcomes[FieldIndex(f)]))
    && (forall f :: f in st.model ==> FieldIndex(f) < n)
    && (forall k :: k in st.errors ==> k.FieldKey? && FieldIndex(k.field) < n)
  }

  /** Recording the next field's outcome extends the cover by one field. */
  lemma CoverStep(st: ParseState, outcomes: seq<FieldParseResult>, n: nat)
    requires |outcomes| == 7 && 0 < n <= 7
    requires Covers(st, outcomes, n - 1)
    ensures Covers(Record(st, CronFieldList[n - 1].0, outcomes[n - 1]), outcomes, n)
  {
    var field := CronFieldList[n - 1].0;
    FieldIndexOf(n - 1);
    RecordFrames(st, field, outcomes[n - 1]);
  }

  /** A round records the token's expected outcome, given the day of month's outcome before it. */
  lemma ParseFieldRecords(parts: seq<string>, idx: nat, st: ParseState)
    requires |parts| == 7 && idx < 7
    requires idx == 5 ==> Agrees(st, DayOfMonth, Expected(parts, 3))
    ensures ParseField(parts, idx, st) == Record(st, CronFieldList[idx].0, Expected(parts, idx))
  {
    var field := CronFieldList[idx].0;
    var item := parts[idx];
    FieldIndexOf(idx);
    if item == "" {
      assert Expected(parts, idx) == Failed(Empty);
    } else if idx == 5 {
      var e3 := Expected(parts, 3);
      assert e3 == (if parts[3] == "" then Failed(Empty) else ParseToken(DayOfMonth, parts[3]));
      assert (DayOfMonth in st.model && st.model[DayOfMonth] != Unspecified) <==>
        (e3.Parsed? && e3.data != Unspecified);
    } else {
      assert field != DayOfWeek;
      assert Expected(parts, idx) == ParseToken(field, item);
    }
  }

  /** Recording one field's outcome leaves every other field's outcome as it was. */
  lemma RecordFrames(st: ParseState, field: CronField, res: FieldParseResult)
    ensures Agrees(Record(st, field, res), field, res) <==> (if res.Parsed? then FieldKey(field) !in st.errors else field !in st.model)
    ensures forall g, other :: g != field && Agrees(st, g, other) ==> Agrees(Record(st, field, res), g, other)
    ensures forall g :: g in Record(st, field, res).model ==> g in st.model || g == field
    ensures forall k :: k in Record(st, field, res).errors ==> k in st.errors || k == FieldKey(field)
  {
  }

  lemma {:induction false} ParseFieldsCover(parts: seq<string>, n: nat)
    requires |parts| == 7 && n <= 7
    ensures Covers(ParseFields(parts, n), ExpectedAll(parts), n)
  {
    if n > 0 {
      ParseFieldsCover(parts, n - 1);
      var st := ParseFields(parts, n - 1);
      var outcomes := ExpectedAll(parts);
      if n - 1 == 5 {
        assert FieldIndex(DayOfMonth) == 3;
        assert Agrees(st, DayOfMonth, outcomes[3]);
      }
      ParseFieldRecords(parts, n - 1, st);
      assert ParseFields(parts, n) == Record(st, CronFieldList[n - 1].0, outcomes[n - 1]);
      CoverStep(st, outcomes, n);
    }
  }

  /**
   * For an expression of six or seven tokens, every field has either its model or its error,
   * as its own token alone decides (the conflict rule aside), and `global` is never set.
   */
  lemma ExpressionOutcome(expr: string)
    requires Trim(expr) != ""
    requires 6 <= |Words(Trim(expr))| <= 7
    ensures var r := ExpressionModel(Str(expr));
      && r.data.Some?
      && (forall f :: Agrees(ParseState(r.data.value, r.errors), f, Expected(Tokens(expr), FieldIndex(f))))
      && Global !in r.errors
  {
    ExpressionModelFields(expr);
    var parts := Tokens(expr);
    ParseFieldsCover(parts, 7);
  }

  /** The tokens the fields are parsed from: six get a trailing `*` for the year. */
  function Tokens(expr: string): seq<string> {
    var ws := Words(Trim(expr));
    if |ws| == 6 then ws + ["*"] else ws
  }

  /** The result the seven rounds give for the tokens. */
  function FieldsResult(parts: seq<string>): ParseResult
    requires |parts| == 7
  {
    ParseResult(Some(ParseFields(parts, 7).model), ParseFields(parts, 7).errors)
  }

  lemma ExpressionModelFields(expr: string)
    requires Trim(expr) != ""
    requires 6 <= |Words(Trim(expr))| <= 7
    ensures |Tokens(expr)| == 7
    ensures ExpressionModel(Str(expr)) == FieldsResult(Tokens(expr))
  {
  }

  /** After the seven rounds every field is modelled or in error, never both; every model is admissible. */
  lemma FieldsPartition(parts: seq<string>, f: CronField)
    requires |parts| == 7
    ensures var st := ParseFields(parts, 7);
      && ((f in st.model) != (FieldKey(f) in st.errors))
      && (f in st.model ==> AllowedFor(f, st.model[f]) && Admissible(f, st.model[f]))
  {
    var st := ParseFields(parts, 7);
    ParseFieldsCover(parts, 7);
    var i := FieldIndex(f);
    var res := Expected(parts, i);
    assert Agrees(st, f, ExpectedAll(parts)[i]);
    if res.Parsed? {
      ExpectedParsed(parts, i);
      ParseTokenSound(f, parts[i]);
    }
  }

  /** Every field of a parsed expression is modelled or in error, never both; every model is admissible. */
  lemma ExpressionPartition(expr: string, f: CronField)
    requires Trim(expr) != ""
    requires 6 <= |Words(Trim(expr))| <= 7
    ensures var r := ExpressionModel(Str(expr));
      && r.data.Some?
      && ((f in r.data.value) != (FieldKey(f) in r.errors))
      && (f in r.data.value ==> AllowedFor(f, r.data.value[f]) && Admissible(f, r.data.value[f]))
  {
    ExpressionModelFields(expr);
    FieldsPartition(Tokens(expr), f);
  }

  lemma ExpectedParsed(parts: seq<string>, i: nat)
    requires |parts| == 7 && i < 7
    requires Expected(parts, i).Parsed?
    ensures Expected(parts, i) == ParseToken(CronFieldList[i].0, parts[i])
  {
  }

  /** `?` is the unspecified day of week. */
  lemma QuestionMarkDayOfWeek()
    ensures ParseDayOfWeek("?") == Parsed(Unspecified)
  {
    SplitNone("?", '#');
  }

  /** The day of month and the day of week are not both specified. */
  predicate NoDayConflict(model: map<CronField, FieldModel>) {
    DayOfMonth in model && DayOfWeek in model ==> model[DayOfMonth] == Unspecified || model[DayOfWeek] == Unspecified
  }

  /** After the seven rounds the day of month and the day of week are never both specified. */
  lemma FieldsNoDayConflict(parts: seq<string>)
    requires |parts| == 7
    ensures NoDayConflict(ParseFields(parts, 7).model)
  {
    var st := ParseFields(parts, 7);
    ParseFieldsCover(parts, 7);
    var outcomes := ExpectedAll(parts);
    assert FieldIndex(DayOfMonth) == 3 && FieldIndex(DayOfWeek) == 5;
    assert Agrees(st, DayOfMonth, outcomes[3]);
    assert Agrees(st, DayOfWeek, outcomes[5]);
    if DayOfMonth in st.model && DayOfWeek in st.model && st.model[DayOfMonth] != Unspecified {
      assert !Conflict(parts);
      assert parts[5] == "?";
      QuestionMarkDayOfWeek();
    }
  }

  /** A parsed model never specifies both the day of month and the day of week. */
  lemma ExpressionNoDayConflict(expr: string)
    requires Trim(expr) != ""
    requires 6 <= |Words(Trim(expr))| <= 7
    ensures ExpressionModel(Str(expr)).data.Some? ==> NoDayConflict(ExpressionModel(Str(expr)).data.value)
  {
    ExpressionModelFields(expr);
    FieldsNoDayConflict(Tokens(expr));
  }

  // ---------------------------------------------------------------------------
  // Tokens joined by single spaces split back into the same tokens

  /** Non-empty tokens without white space. */
  predicate ProperTokens(ws: seq<string>) {
    forall i :: 0 <= i < |ws| ==> ws[i] != [] && NoSpace(ws[i])
  }

  lemma {:induction false} WordPrefixOf(w: string, rest: string)
    requires NoSpace(w)
    requires rest == [] || IsSpace(rest[0])
    ensures WordPrefix(w + rest) == w
    decreases |w|
  {
    if w != [] {
      assert (w + rest)[1..] == w[1..] + rest;
      WordPrefixOf(w[1..], rest);
    } else {
      assert w + rest == rest;
    }
  }

  lemma JoinStartsWith(ws: seq<string>)
    requires |ws| > 0 && ProperTokens(ws)
    ensures var j := Join(ws, " "); |j| > 0 && j[0] == ws[0][0]
  {
  }

  lemma {:induction false} JoinEndsWith(ws: seq<string>)
    requires |ws| > 0 && ProperTokens(ws)
    ensures var j := Join(ws, " "); |j| > 0 && j[|j| - 1] == ws[|ws| - 1][|ws[|ws| - 1]| - 1]
  {
    if |ws| > 1 {
      JoinEndsWith(ws[1..]);
    }
  }

  /** Text that starts with a non-space is its own start-trim. */
  lemma TrimStartNonSpace(t: string)
    requires t != [] && !IsSpace(t[0])
    ensures TrimStart(t) == t
  {
  }

  /** A leading space does not change the words. */
  lemma WordsAfterSpace(rest: string)
    requires rest != [] && !IsSpace(rest[0])
    ensures Words(" " + rest) == Words(rest)
  {
    var t := " " + rest;
    assert t[1..] == rest;
    TrimStartNonSpace(rest);
    assert TrimStart(t) == rest;
  }

  /** A word, a space and more text: the word comes first, then the words of the rest. */
  lemma WordsStep(w: string, rest: string)
    requires w != [] && NoSpace(w) && rest != [] && !IsSpace(rest[0])
    ensures Words(w + (" " + rest)) == [w] + Words(rest)
  {
    var j := w + (" " + rest);
    assert j[0] == w[0];
    TrimStartNonSpace(j);
    WordPrefixOf(w, " " + rest);
    assert j[|w|..] == " " + rest;
    WordsAfterSpace(rest);
  }

  /** A single proper token is its only word. */
  lemma WordsOfOne(w: string)
    requires w != [] && NoSpace(w)
    ensures Words(w) == [w]
  {
    assert w[0] == w[0];
    TrimStartNonSpace(w);
    WordPrefixOf(w, []);
    assert w + [] == w;
    assert w[|w|..] == [];
  }

  lemma {:induction false} WordsOfJoin(ws: seq<string>)
    requires ProperTokens(ws)
    ensures Words(Join(ws, " ")) == ws
    decreases |ws|
  {
    if |ws| == 1 {
      WordsOfOne(ws[0]);
    } else if |ws| > 1 {
      var rest := Join(ws[1..], " ");
      assert Join(ws, " ") == ws[0] + (" " + rest);
      JoinStartsWith(ws[1..]);
      WordsOfJoin(ws[1..]);
      WordsStep(ws[0], rest);
      HeadTail(ws);
    }
  }

  /** Joining proper tokens with spaces gives text that trims to itself and splits back. */
  lemma JoinedTokens(ws: seq<string>)
    requires |ws| > 0 && ProperTokens(ws)
    ensures Trim(Join(ws, " ")) == Join(ws, " ") != ""
    ensures Words(Trim(Join(ws, " "))) == ws
  {
    JoinStartsWith(ws);
    JoinEndsWith(ws);
    var j := Join(ws, " ");
    assert TrimStart(j) == j;
    assert TrimEnd(j) == j;
    WordsOfJoin(ws);
  }

  /** Two expressions with the same tokens parse alike. */
  lemma SameTokensSameResult(e1: string, e2: string)
    requires Trim(e1) != "" && 6 <= |Words(Trim(e1))| <= 7
    requires Trim(e2) != "" && 6 <= |Words(Trim(e2))| <= 7
    requires Tokens(e1) == Tokens(e2)
    ensures ExpressionModel(Str(e1)) == ExpressionModel(Str(e2))
    ensures ExpressionModel(Str(e1)).data.Some?
  {
    ExpressionModelFields(e1);
    ExpressionModelFields(e2);
  }

  /** A six-token expression parses exactly like the same seven tokens ending in `*`. */
  lemma SixTokensAddEveryYear(ws: seq<string>)
    requires |ws| == 6 && ProperTokens(ws)
    ensures ExpressionModel(Str(Join(ws, " "))) == ExpressionModel(Str(Join(ws + ["*"], " ")))
    ensures ExpressionModel(Str(Join(ws, " "))).data.Some?
  {
    assert ProperTokens(ws + ["*"]);
    var j6, j7 := Join(ws, " "), Join(ws + ["*"], " ");
    JoinedTokens(ws);
    JoinedTokens(ws + ["*"]);
    assert Tokens(j6) == ws + ["*"] == Tokens(j7);
    SameTokensSameResult(j6, j7);
  }

  /** A seven-token expression is parsed from exactly its tokens. */
  lemma SevenTokens(ws: seq<string>)
    requires |ws| == 7 && ProperTokens(ws)
    ensures ExpressionModel(Str(Join(ws, " "))) == FieldsResult(ws)
  {
    JoinedTokens(ws);
    ExpressionModelFields(Join(ws, " "));
  }

  // ---------------------------------------------------------------------------
  // Structural errors and the syntax of single tokens

  /** A non-string, a blank string or a wrong token count gives one `global` error and no data. */
  lemma StructuralErrors(v: JsValue)
    ensures !v.Str? ==> ExpressionModel(v) == ParseResult(None, map[Global := NotString])
    ensures v.Str? && Trim(v.s) == "" ==> ExpressionModel(v) == ParseResult(None, map[Global := Empty])
    ensures v.Str? && Trim(v.s) != "" && !(6 <= |Words(Trim(v.s))| <= 7) ==>
      ExpressionModel(v) == ParseResult(None, map[Global := LengthError])
    ensures ExpressionModel(v).data.None? <==> Global in ExpressionModel(v).errors
  {
    if v.Str? && Trim(v.s) != "" && 6 <= |Words(Trim(v.s))| <= 7 {
      ExpressionOutcome(v.s);
    }
  }

  lemma NoDigitText(s: string)
    requires |s| > 0 && !IsDigit(s[0]) && !IsSpace(s[0])
    ensures ToNumber(Str(s)).NaN?
  {
    assert TrimStart(s) == s;
    assert Trim(s) != "";
  }

  /** `?` is unspecified only for the two day fields and the year; elsewhere it is invalid. */
  lemma QuestionMark(field: CronField)
    ensures field in {DayOfMonth, DayOfWeek, Year} ==> ParseToken(field, "?") == Parsed(Unspecified)
    ensures field !in {DayOfMonth, DayOfWeek, Year} ==> ParseToken(field, "?") == Failed(InvalidValue)
  {
    QuestionMarkDayOfWeek();
    NoDigitText("?");
  }

  /** Digit text holds none of the separators. */
  lemma DigitsNoSeparator(t: string)
    requires IsDigits(t)
    ensures '-' !in t && '/' !in t && ',' !in t && '#' !in t && '*' !in t
  {
    assert forall c :: c in t ==> IsDigit(c);
  }

  /** The step branch on a star and the text of `n`. */
  lemma StarStepExpr(field: CronField, n: nat)
    requires StepLowerBound(field) <= n <= ValueRange(field).max
    ensures ParseStepExpr("*" + ['/'] + NatToString(n), field) == Parsed(Step(0, n))
  {
    var t := NatToString(n);
    var e := "*" + ['/'] + t;
    DigitsNoSeparator(t);
    SplitAtFirst("*", t, '/');
    SplitNone(t, '/');
    assert Split(e, '/') == ["*", t];
    NatTextLikeNumber(n);
    var b := ValueRange(field);
    assert ValidateStep(Num(b.min as real), Str(t), b.stepMin.GetOr(b.min), b.max) == Pass;
  }

  // A star followed by a slash and n keeps 0 as its start in every field that has steps.
  lemma StarStepStartsAtZero(field: CronField, n: nat)
    requires field != DayOfWeek
    requires StepLowerBound(field) <= n <= ValueRange(field).max
    ensures ParseCommon("*" + ['/'] + NatToString(n), field) == Parsed(Step(0, n))
  {
    var t := NatToString(n);
    var e := "*" + ['/'] + t;
    DigitsNoSeparator(t);
    assert e[0] == '*' && e[1] == '/' && |e| >= 3;
    assert '-' !in e by {
      assert forall i :: 2 <= i < |e| ==> e[i] == t[i - 2];
    }
    assert '/' in e;
    assert ParseCommon(e, field) == ParseStepExpr(e, field);
    StarStepExpr(field, n);
  }

  /** Text holding a dash, other than the two one-letter forms, takes the range branch. */
  lemma CommonIsRange(e: string, k: int, field: CronField)
    requires 0 <= k < |e| && e[k] == '-'
    ensures ParseCommon(e, field) == ParseRangeExpr(e, field)
  {
  }

  /** The range branch reads only the first two pieces around `-`. */
  lemma RangeByTwoPieces(e1: string, e2: string, field: CronField)
    requires |Split(e1, '-')| >= 2 && |Split(e2, '-')| >= 2
    requires Split(e1, '-')[0] == Split(e2, '-')[0] && Split(e1, '-')[1] == Split(e2, '-')[1]
    ensures ParseRangeExpr(e1, field) == ParseRangeExpr(e2, field)
  {
  }

  /** Extra separators are ignored: `a-b-rest` parses like `a-b`. */
  lemma RangeKeepsFirstTwoPieces(a: string, b: string, rest: string, field: CronField)
    requires '-' !in a && '-' !in b
    ensures ParseCommon(a + "-" + b + "-" + rest, field) == ParseCommon(a + "-" + b, field)
  {
    var long, short := a + "-" + b + "-" + rest, a + "-" + b;
    assert long == a + ['-'] + (b + ['-'] + rest);
    assert short == a + ['-'] + b;
    SplitAtFirst(a, b + ['-'] + rest, '-');
    SplitAtFirst(b, rest, '-');
    SplitAtFirst(a, b, '-');
    SplitNone(b, '-');
    CommonIsRange(long, |a|, field);
    CommonIsRange(short, |a|, field);
    RangeByTwoPieces(long, short, field);
  }

  /** A month abbreviation is not a value by itself. */
  lemma MonthNameAlone(i: nat)
    requires i < 12
    ensures ParseCommon(MonthNames[i], Month) == Failed(InvalidValue)
  {
    var name := MonthNames[i];
    assert |name| == 3 && !IsDigit(name[0]) && !IsSpace(name[0]);
    assert '-' !in name && '/' !in name && ',' !in name;
    NoDigitText(name);
    assert ParseCommon(name, Month) == ParseSingle(name, Month);
  }

  /** A range of two texts that translate to the decimal text of two numbers in order. */
  lemma RangeOfTexts(a: string, b: string, field: CronField, x: nat, y: nat)
    requires '-' !in a && '-' !in b
    requires TransformEnToNumber(a, field) == NatToString(x)
    requires TransformEnToNumber(b, field) == NatToString(y)
    requires ValueRange(field).min <= x < y <= ValueRange(field).max
    ensures ParseCommon(a + "-" + b, field) == Parsed(Range(x, y))
  {
    var e := a + "-" + b;
    assert e == a + ['-'] + b;
    SplitAtFirst(a, b, '-');
    SplitNone(b, '-');
    CommonIsRange(e, |a|, field);
    RangeOfNumberTexts(e, field, x, y);
  }

  /** The range branch on pieces that translate to the decimal text of two numbers in order. */
  lemma RangeOfNumberTexts(e: string, field: CronField, x: nat, y: nat)
    requires |Split(e, '-')| >= 2
    requires TransformEnToNumber(Split(e, '-')[0], field) == NatToString(x)
    requires TransformEnToNumber(Split(e, '-')[1], field) == NatToString(y)
    requires ValueRange(field).min <= x < y <= ValueRange(field).max
    ensures ParseRangeExpr(e, field) == Parsed(Range(x, y))
  {
    NatTextLikeNumber(x);
    NatTextLikeNumber(y);
  }

  /** Inside a range, month abbreviations are read as their numbers: `JAN-MAR` is 1-3. */
  lemma MonthNamesInRange(i: nat, j: nat)
    requires i < j < 12
    ensures ParseCommon(MonthNames[i] + "-" + MonthNames[j], Month) == Parsed(Range(i + 1, j + 1))
  {
    MonthNameText(i);
    MonthNameText(j);
    RangeOfTexts(MonthNames[i], MonthNames[j], Month, i + 1, j + 1);
  }

  /** A month abbreviation has no dash and translates to the text of its month number. */
  lemma MonthNameText(i: nat)
    requires i < 12
    ensures '-' !in MonthNames[i]
    ensures TransformEnToNumber(MonthNames[i], Month) == NatToString(i + 1)
  {
    MonthAbbreviations();
  }

  /** A bare integer is a one-element list, or out of range. */
  lemma BareInteger(field: CronField, n: nat)
    ensures var b := ValueRange(field);
      ParseCommon(NatToString(n), field) ==
        if b.min <= n <= b.max then Parsed(List([n])) else Failed(OutOfRange)
  {
    NatTextLikeNumber(n);
    var s := NatToString(n);
    DigitsNoSeparator(s);
    assert s != "?" && s != "*";
    assert ParseCommon(s, field) == ParseSingle(s, field);
  }
}
