/** Serialising a model and parsing the text back. */
module CronRoundTrip {
  import opened Wrappers
  import opened JsValues
  import opened CronTypes
  import opened CronConstants
  import opened CronValidate
  import opened CronParse
  import opened CronParseFacts
  import opened CronSerialize
  import opened CronSerializeFacts

  // ---------------------------------------------------------------------------
  // The model the parser gives back

  /** A field model as the parser rebuilds it from its token: list values come back sorted. */
  function CanonicalField(m: FieldModel): FieldModel {
    if m.List? then List(SortAscending(m.values)) else m
  }

  function Canonical(m: CronModel): CronModel {
    CronModel(CanonicalField(m.seconds), CanonicalField(m.minutes), CanonicalField(m.hours),
              CanonicalField(m.dayOfMonth), CanonicalField(m.month), CanonicalField(m.dayOfWeek),
              CanonicalField(m.year))
  }

  // ---------------------------------------------------------------------------
  // Token text

  /** The characters of a token of a common mode other than `*`. */
  predicate NumericChar(c: char) {
    IsDigit(c) || c == '-' || c == '/' || c == ','
  }

  predicate NumericText(t: string) {
    t != [] && forall i :: 0 <= i < |t| ==> NumericChar(t[i])
  }

  lemma NumericTextChars(t: string)
    requires NumericText(t)
    ensures NoSpace(t) && '#' !in t && '*' !in t
    ensures t[0] != 'L' && t[|t| - 1] != 'W' && t[|t| - 1] != 'L'
  {
    assert forall c :: c in t ==> NumericChar(c);
  }

  lemma NumericConcat(a: string, b: string)
    requires NumericText(a) && NumericText(b)
    ensures NumericText(a + b)
  {
    assert forall i :: 0 <= i < |a + b| ==> (a + b)[i] == if i < |a| then a[i] else b[i - |a|];
  }

  lemma {:induction false} NumericJoin(ps: seq<string>, sep: string)
    requires |ps| >= 1 && NumericText(sep)
    requires forall i :: 0 <= i < |ps| ==> NumericText(ps[i])
    ensures NumericText(Join(ps, sep))
    decreases |ps|
  {
    if |ps| > 1 {
      NumericJoin(ps[1..], sep);
      NumericConcat(ps[0], sep);
      NumericConcat(ps[0] + sep, Join(ps[1..], sep));
    }
  }

  /** Digit text is the same after the translation of abbreviations. */
  lemma DigitsUntranslated(t: string, field: CronField)
    requires IsDigits(t)
    ensures TransformEnToNumber(t, field) == t
  {
    WeekAbbreviations();
    MonthAbbreviations();
    assert forall i :: 0 <= i < |WeekNames| ==> !IsDigit(WeekNames[i][0]);
    assert forall i :: 0 <= i < |MonthNames| ==> !IsDigit(MonthNames[i][0]);
    assert t !in WeekNames && t !in MonthNames;
  }

  /** The day fields hand a numeric token to the common parser. */
  lemma NumericDispatch(t: string, field: CronField)
    requires NumericText(t)
    ensures ParseToken(field, t) == ParseCommon(t, field)
  {
    NumericTextChars(t);
    SplitNone(t, '#');
  }

  lemma EveryToken(field: CronField)
    ensures ParseToken(field, "*") == Parsed(Every)
  {
    SplitNone("*", '#');
  }

  lemma DigitsNumeric(n: nat)
    ensures NumericText(NatToString(n))
  {
  }

  // ---------------------------------------------------------------------------
  // One field at a time

  lemma RangeRoundTrip(field: CronField, s: int, e: int)
    requires FieldModel2Expression(field, Range(s, e)).success
    ensures var t := FieldModel2Expression(field, Range(s, e)).data;
      NumericText(t) && ParseToken(field, t) == Parsed(Range(s, e))
  {
    var b := ValueRange(field);
    ValidateRangeOnIntegers(s, e, b.min, b.max);
    LowerBoundsNatural(field);
    var a, c := NatToString(s), NatToString(e);
    var t := a + "-" + c;
    assert FieldModel2Expression(field, Range(s, e)).data == t;
    DigitsNoSeparator(a);
    DigitsNoSeparator(c);
    DigitsUntranslated(a, field);
    DigitsUntranslated(c, field);
    RangeOfTexts(a, c, field, s, e);
    NumericConcat(a, "-");
    NumericConcat(a + "-", c);
    NumericDispatch(t, field);
  }

  /** Every field's lower bounds are natural numbers. */
  lemma LowerBoundsNatural(field: CronField)
    ensures ValueRange(field).min >= 0 && StepLowerBound(field) >= 0
  {
  }

  /** `f/s` of two digit texts in bounds is a step. */
  lemma StepText(field: CronField, f: nat, s: nat)
    requires StepLowerBound(field) <= f <= ValueRange(field).max
    requires StepLowerBound(field) <= s <= ValueRange(field).max
    ensures ParseStepExpr(NatToString(f) + "/" + NatToString(s), field) == Parsed(Step(f, s))
  {
    var a, c := NatToString(f), NatToString(s);
    var t := a + "/" + c;
    DigitsNoSeparator(a);
    DigitsNoSeparator(c);
    assert t == a + ['/'] + c;
    SplitAtFirst(a, c, '/');
    SplitNone(c, '/');
    assert Split(t, '/') == [a, c];
    NatTextLikeNumber(f);
    NatTextLikeNumber(s);
    assert a != "*";
  }

  lemma StepRoundTrip(field: CronField, f: int, s: int)
    requires field != DayOfWeek
    requires FieldModel2Expression(field, Step(f, s)).success
    ensures var t := FieldModel2Expression(field, Step(f, s)).data;
      NumericText(t) && ParseToken(field, t) == Parsed(Step(f, s))
  {
    var b := ValueRange(field);
    ValidateStepOnIntegers(f, s, StepLowerBound(field), b.max);
    LowerBoundsNatural(field);
    var a, c := NatToString(f), NatToString(s);
    var t := a + "/" + c;
    assert FieldModel2Expression(field, Step(f, s)).data == t;
    DigitsNoSeparator(a);
    DigitsNoSeparator(c);
    NumericConcat(a, "/");
    NumericConcat(a + "/", c);
    assert t[|a|] == '/';
    assert '-' !in t by {
      assert forall i :: 0 <= i < |t| ==> t[i] == if i < |a| then a[i] else if i == |a| then '/' else c[i - |a| - 1];
    }
    NumericTextChars(t);
    assert ParseCommon(t, field) == ParseStepExpr(t, field);
    StepText(field, f, s);
    NumericDispatch(t, field);
  }

  lemma {:induction false} JoinAvoids(ps: seq<string>, sep: string, c: char)
    requires c !in sep && forall i :: 0 <= i < |ps| ==> c !in ps[i]
    ensures c !in Join(ps, sep)
    decreases |ps|
  {
    if |ps| > 1 {
      JoinAvoids(ps[1..], sep, c);
    }
  }

  /** Two lists whose elements read as the same numbers validate alike. */
  lemma ListValidationLike(l1: seq<JsValue>, l2: seq<JsValue>, min: int, max: int)
    requires |l1| == |l2|
    requires forall i :: 0 <= i < |l1| ==>
      ToNumber(l1[i]) == ToNumber(l2[i]) && TrimmedTextIsNullish(l1[i]) == TrimmedTextIsNullish(l2[i])
    ensures ListValidation(Some(l1), min, max) == ListValidation(Some(l2), min, max)
    ensures Numbers(l1) == Numbers(l2)
  {
    assert ItemChecks(l1) == ItemChecks(l2);
    assert Numbers(l1) == Numbers(l2);
  }

  /** The decimal texts of natural values. */
  function NatTexts(vs: seq<int>): (r: seq<string>)
    requires forall i :: 0 <= i < |vs| ==> vs[i] >= 0
    ensures |r| == |vs| && forall i :: 0 <= i < |vs| ==> r[i] == NatToString(vs[i])
  {
    seq(|vs|, i requires 0 <= i < |vs| => NatToString(vs[i]))
  }

  /** Two or more digit texts joined by `,`: numeric text, split back into the texts. */
  lemma JoinedDigitTexts(texts: seq<string>)
    requires |texts| >= 2 && forall i :: 0 <= i < |texts| ==> IsDigits(texts[i])
    ensures var t := Join(texts, ",");
      && NumericText(t) && '-' !in t && '/' !in t && ',' in t && t != "?" && t != "*"
      && Split(t, ',') == texts
  {
    var t := Join(texts, ",");
    forall i | 0 <= i < |texts| ensures NumericText(texts[i]) && '-' !in texts[i] && '/' !in texts[i] && ',' !in texts[i] {
      DigitsNoSeparator(texts[i]);
    }
    NumericJoin(texts, ",");
    JoinAvoids(texts, ",", '-');
    JoinAvoids(texts, ",", '/');
    assert t == texts[0] + "," + Join(texts[1..], ",");
    assert t[|texts[0]|] == ',';
    NumericTextChars(t);
    SplitOfJoin(texts, ',');
  }

  /** Text with a `,` and neither `-` nor `/` goes to the list branch. */
  lemma ListDispatch(t: string, field: CronField)
    requires '-' !in t && '/' !in t && ',' in t && t != "?" && t != "*"
    ensures ParseCommon(t, field) == ParseListExpr(t, field)
  {
  }

  /** The list branch reads digit pieces as they are. */
  lemma ListTextsOfDigits(t: string, field: CronField, texts: seq<string>)
    requires Split(t, ',') == texts && forall i :: 0 <= i < |texts| ==> IsDigits(texts[i])
    ensures ListTexts(t, field) == Texts(texts)
  {
    forall i | 0 <= i < |texts| ensures TransformEnToNumber(texts[i], field) == texts[i] {
      DigitsUntranslated(texts[i], field);
    }
  }

  /** Decimal texts read as the numbers they came from. */
  lemma TextsLikeNumbers(vs: seq<int>, min: int, max: int)
    requires forall i :: 0 <= i < |vs| ==> vs[i] >= 0
    ensures ListValidation(Some(Texts(NatTexts(vs))), min, max) == ListValidation(Some(NumValues(vs)), min, max)
    ensures Numbers(Texts(NatTexts(vs))) == vs
  {
    var values := Texts(NatTexts(vs));
    forall i | 0 <= i < |vs|
      ensures ToNumber(values[i]) == ToNumber(NumValues(vs)[i])
      ensures TrimmedTextIsNullish(values[i]) == TrimmedTextIsNullish(NumValues(vs)[i])
    {
      NatTextLikeNumber(vs[i]);
    }
    ListValidationLike(values, NumValues(vs), min, max);
    assert Numbers(NumValues(vs)) == vs;
  }

  /** A list of two or more validated values is read back through the list branch. */
  lemma ListText(field: CronField, vs: seq<int>)
    requires |vs| >= 2 && forall i :: 0 <= i < |vs| ==> vs[i] >= 0
    requires ListValidation(Some(NumValues(vs)), ValueRange(field).min, ValueRange(field).max) == Pass
    ensures var t := Join(NatTexts(vs), ",");
      NumericText(t) && ParseCommon(t, field) == Parsed(List(vs))
  {
    var b := ValueRange(field);
    var texts := NatTexts(vs);
    var t := Join(texts, ",");
    JoinedDigitTexts(texts);
    ListDispatch(t, field);
    ListTextsOfDigits(t, field, texts);
    TextsLikeNumbers(vs, b.min, b.max);
  }

  lemma ListRoundTrip(field: CronField, vs: seq<int>)
    requires FieldModel2Expression(field, List(vs)).success
    ensures var t := FieldModel2Expression(field, List(vs)).data;
      NumericText(t) && ParseToken(field, t) == Parsed(List(SortAscending(vs)))
  {
    var b := ValueRange(field);
    var sorted := SortAscending(vs);
    var nv := NumValues(sorted);
    ListValidationPass(Some(nv), b.min, b.max);
    LowerBoundsNatural(field);
    assert forall i :: 0 <= i < |sorted| ==> NumberValue(nv[i]) == sorted[i];
    var texts := NatTexts(sorted);
    assert seq(|sorted|, i requires 0 <= i < |sorted| => IntToString(sorted[i])) == texts;
    var t := Join(texts, ",");
    assert FieldModel2Expression(field, List(vs)).data == t;
    if |sorted| == 1 {
      assert t == NatToString(sorted[0]);
      BareInteger(field, sorted[0]);
      assert [sorted[0]] == sorted;
    } else {
      ListText(field, sorted);
    }
    NumericDispatch(t, field);
  }

  lemma NearestWeekdayRoundTrip(d: int)
    requires FieldModel2Expression(DayOfMonth, NearestWeekday(d)).success
    ensures var t := FieldModel2Expression(DayOfMonth, NearestWeekday(d)).data;
      t != [] && NoSpace(t) && ParseToken(DayOfMonth, t) == Parsed(NearestWeekday(d))
  {
    IntegerValidatorRanges(d);
    var a := NatToString(d);
    var t := a + "W";
    assert FieldModel2Expression(DayOfMonth, NearestWeekday(d)).data == t;
    NatToStringValue(d);
    assert t[..|t| - 1] == a;
    assert IsDigitsThen(t, 'W') && t[0] != 'L';
    NoSpaceConcat(a, "W");
  }

  lemma LastDayOffsetRoundTrip(o: int)
    requires FieldModel2Expression(DayOfMonth, LastDayOffset(o)).success
    ensures var t := FieldModel2Expression(DayOfMonth, LastDayOffset(o)).data;
      t != [] && NoSpace(t) && ParseToken(DayOfMonth, t) == Parsed(LastDayOffset(o))
  {
    IntegerValidatorRanges(o);
    var a := NatToString(o);
    var t := "L-" + a;
    assert FieldModel2Expression(DayOfMonth, LastDayOffset(o)).data == t;
    NatToStringValue(o);
    assert t[2..] == a;
    assert IsLastDayOffsetForm(t) && t != "L";
    NoSpaceConcat("L-", a);
  }

  lemma LastWeekdayOfMonthRoundTrip(w: int)
    requires FieldModel2Expression(DayOfWeek, LastWeekdayOfMonth(w)).success
    ensures var t := FieldModel2Expression(DayOfWeek, LastWeekdayOfMonth(w)).data;
      t != [] && NoSpace(t) && ParseToken(DayOfWeek, t) == Parsed(LastWeekdayOfMonth(w))
  {
    IntegerValidatorRanges(w);
    var a := NatToString(w);
    var t := a + "L";
    assert FieldModel2Expression(DayOfWeek, LastWeekdayOfMonth(w)).data == t;
    NatToStringValue(w);
    assert t[..|t| - 1] == a;
    assert IsDigitsThen(t, 'L');
    NoSpaceConcat(a, "L");
  }

  /** `w#n` splits into its two digit texts. */
  lemma NthText(w: nat, n: nat)
    ensures var t := NatToString(w) + "#" + NatToString(n);
      && Split(t, '#') == [NatToString(w), NatToString(n)]
      && t[|t| - 1] != 'L' && NoSpace(t)
  {
    NthTextOf(NatToString(w), NatToString(n));
  }

  lemma NthTextOf(a: string, c: string)
    requires IsDigits(a) && IsDigits(c)
    ensures var t := a + "#" + c;
      && Split(t, '#') == [a, c]
      && t[|t| - 1] != 'L' && NoSpace(t)
  {
    var t := a + "#" + c;
    assert t == a + ['#'] + c;
    DigitsNoSeparator(a);
    DigitsNoSeparator(c);
    SplitAtFirst(a, c, '#');
    SplitNone(c, '#');
    assert t[|t| - 1] == c[|c| - 1];
    DigitsNoSpace(a);
    DigitsNoSpace(c);
    assert !IsSpace('#');
    NoSpaceConcat(a, "#");
    NoSpaceConcat(a + "#", c);
  }

  lemma DigitsNoSpace(s: string)
    requires IsDigits(s)
    ensures NoSpace(s)
  {
    forall i | 0 <= i < |s|
      ensures !IsSpace(s[i])
    {
      assert IsDigit(s[i]);
    }
  }

  lemma NthWeekOfMonthRoundTrip(n: int, w: int)
    requires FieldModel2Expression(DayOfWeek, NthWeekOfMonth(n, w)).success
    ensures var t := FieldModel2Expression(DayOfWeek, NthWeekOfMonth(n, w)).data;
      t != [] && NoSpace(t) && ParseToken(DayOfWeek, t) == Parsed(NthWeekOfMonth(n, w))
  {
    IntegerValidatorRanges(n);
    IntegerValidatorRanges(w);
    assert ValidateWeekNth(N(n)).Pass? && ValidateWeekday(N(w)).Pass?;
    var t := NatToString(w) + "#" + NatToString(n);
    assert FieldModel2Expression(DayOfWeek, NthWeekOfMonth(n, w)).data == t;
    NthText(w, n);
    NatToStringValue(w);
    NatToStringValue(n);
    assert IsNthForm(t) && !IsDigitsThen(t, 'L');
  }

  /**
   * A field model of the field's type that serialises successfully gives a proper token,
   * from which the field's parser rebuilds it (lists sorted).
   */
  lemma FieldRoundTrip(field: CronField, m: FieldModel)
    requires AllowedFor(field, m)
    requires FieldModel2Expression(field, m).success
    ensures var t := FieldModel2Expression(field, m).data;
      t != [] && NoSpace(t) && ParseToken(field, t) == Parsed(CanonicalField(m))
  {
    var t := FieldModel2Expression(field, m).data;
    match m
    case Every =>
      EveryToken(field);
    case Unspecified =>
      QuestionMark(field);
    case LastDay =>
    case Range(s, e) =>
      RangeRoundTrip(field, s, e);
      NumericTextChars(t);
    case Step(f, s) =>
      StepRoundTrip(field, f, s);
      NumericTextChars(t);
    case List(vs) =>
      ListRoundTrip(field, vs);
      NumericTextChars(t);
    case NearestWeekday(d) =>
      NearestWeekdayRoundTrip(d);
    case LastDayOffset(o) =>
      LastDayOffsetRoundTrip(o);
    case NthWeekOfMonth(n, w) =>
      NthWeekOfMonthRoundTrip(n, w);
    case LastWeekdayOfMonth(w) =>
      LastWeekdayOfMonthRoundTrip(w);
  }

  /** The conditions of the round trip: every field validates, and one day field is unspecified. */
  predicate Serialisable(m: CronModel) {
    && m.WellShaped()
    && (forall f: CronField :: FieldModel2Expression(f, m.Get(f)).success)
    && (m.dayOfMonth.Unspecified? || m.dayOfWeek.Unspecified?)
  }

  /** Each token of a serialisable model parses, on its own, to its field's canonical model. */
  lemma TokensRoundTrip(m: CronModel, i: nat)
    requires Serialisable(m) && i < 7
    ensures var ws := ModelTokens(m);
      ws[i] != [] && NoSpace(ws[i]) && Expected(ws, i) == Parsed(CanonicalField(m.Get(CronFieldList[i].0)))
  {
    var ws := ModelTokens(m);
    var field := CronFieldList[i].0;
    FieldRoundTrip(field, m.Get(field));
    if field == DayOfWeek {
      FieldRoundTrip(DayOfMonth, m.dayOfMonth);
      assert CronFieldList[3].0 == DayOfMonth && CronFieldList[5].0 == DayOfWeek;
      if m.dayOfMonth.Unspecified? {
        assert ws[3] == "?";
      } else {
        assert ws[5] == "?";
      }
      assert !Conflict(ws);
    }
  }

  lemma CanonicalGet(m: CronModel, f: CronField)
    ensures Canonical(m).Get(f) == CanonicalField(m.Get(f))
  {
  }

  /** Seven tokens each parsing to the target's field model give the target and no errors. */
  lemma FieldsBack(ws: seq<string>, target: CronModel)
    requires |ws| == 7
    requires forall i :: 0 <= i < 7 ==> Expected(ws, i) == Parsed(target.Get(CronFieldList[i].0))
    ensures FieldsResult(ws) == ParseResult(Some(target.ToMap()), map[])
  {
    ParseFieldsCover(ws, 7);
    var st := ParseFields(ws, 7);
    var outcomes := ExpectedAll(ws);
    forall f: CronField
      ensures f in st.model && st.model[f] == target.Get(f) && FieldKey(f) !in st.errors
      ensures f in target.ToMap()
    {
      FieldCases(f);
      var i := FieldIndex(f);
      assert Agrees(st, f, outcomes[i]);
    }
    assert st.model == target.ToMap();
    assert st.errors == map[];
  }

  /**
   * Round trip: parsing the text of a serialisable model gives back the model, lists sorted,
   * with no errors at all.
   */
  lemma RoundTrip(m: CronModel)
    requires Serialisable(m)
    ensures ExpressionModel(Str(Model2Expression(m))) == ParseResult(Some(Canonical(m).ToMap()), map[])
  {
    var ws := ModelTokens(m);
    forall i | 0 <= i < 7
      ensures ws[i] != [] && NoSpace(ws[i])
      ensures Expected(ws, i) == Parsed(Canonical(m).Get(CronFieldList[i].0))
    {
      TokensRoundTrip(m, i);
      CanonicalGet(m, CronFieldList[i].0);
    }
    assert ProperTokens(ws);
    SevenTokens(ws);
    FieldsBack(ws, Canonical(m));
  }

  /** Without empty lists, the expression is the seven tokens in field order, one space apart. */
  lemma ExpressionTokens(m: CronModel)
    requires forall f: CronField :: m.Get(f) != List([])
    ensures Trim(Model2Expression(m)) == Model2Expression(m)
    ensures Words(Model2Expression(m)) == ModelTokens(m)
  {
    var ws := ModelTokens(m);
    forall i | 0 <= i < 7 ensures ws[i] != [] && NoSpace(ws[i]) {
      TokenProper(CronFieldList[i].0, m.Get(CronFieldList[i].0));
    }
    JoinedTokens(ws);
  }

  /** A parsed list is strictly increasing, so it is sorted and free of repeats. */
  lemma AdmissibleListValid(field: CronField, vs: seq<int>)
    requires Admissible(field, List(vs))
    ensures Valid(field, List(vs))
  {
    assert SortedAsc(vs);
    assert StrictlyAscending(vs);
    SortedDistinct(vs);
    var b := ValueRange(field);
    forall x | x in multiset(vs) ensures b.min <= x <= b.max {
      assert x in vs;
    }
  }

  /**
   * Every field model the parser builds serialises successfully, except a step whose start lies
   * below the field's step bound: the `*` of a 1-based field, stored as 0.
   */
  lemma ParsedSerialises(field: CronField, token: string)
    requires ParseToken(field, token).Parsed?
    requires var d := ParseToken(field, token).data; !(d.Step? && d.from < StepLowerBound(field))
    ensures FieldModel2Expression(field, ParseToken(field, token).data).success
  {
    var d := ParseToken(field, token).data;
    ParseTokenSound(field, token);
    SerialiseSuccess(field, d);
    if d.List? {
      AdmissibleListValid(field, d.values);
    }
  }

  // A star step in the day of month parses to a step from 0, which does not serialise.
  lemma StarStepDayOfMonth(n: nat)
    requires 1 <= n <= 31
    ensures ParseToken(DayOfMonth, "*" + ['/'] + NatToString(n)) == Parsed(Step(0, n))
    ensures !FieldModel2Expression(DayOfMonth, Step(0, n)).success
  {
    var t := "*" + ['/'] + NatToString(n);
    StarStepStartsAtZero(DayOfMonth, n);
    assert t[0] == '*' && t[|t| - 1] == NatToString(n)[|NatToString(n)| - 1];
    assert !IsDigitsThen(t, 'W') && !IsLastDayOffsetForm(t) && t != "L";
    SerialiseSuccess(DayOfMonth, Step(0, n));
  }
}
