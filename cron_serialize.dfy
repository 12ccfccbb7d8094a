/** `model2Expression`: from a field model back to Quartz tokens, re-validating each field. */
module CronSerialize {
  import opened Wrappers
  import opened JsValues
  import opened CronTypes
  import opened CronConstants
  import opened CronValidate

  // ---------------------------------------------------------------------------
  // Ascending numeric sort, `[...values].sort((a, b) => a - b)`

  /** Each value is at least the one before it. */
  predicate SortedAsc(s: seq<int>) {
    forall i :: 0 < i < |s| ==> s[i - 1] <= s[i]
  }

  lemma SortedTail(s: seq<int>)
    requires SortedAsc(s) && s != []
    ensures SortedAsc(s[1..])
  {
    forall i | 0 < i < |s[1..]| ensures s[1..][i - 1] <= s[1..][i] {
      assert s[1..][i - 1] == s[i] && s[1..][i] == s[i + 1];
    }
  }

  /** The first value of a sorted sequence is its least. */
  lemma {:induction false} SortedHeadLeast(s: seq<int>, k: int)
    requires SortedAsc(s) && 0 <= k < |s|
    ensures s[0] <= s[k]
    decreases k
  {
    if k > 0 {
      SortedHeadLeast(s, k - 1);
    }
  }

  /** Inserts `x` before the first larger element. */
  function Insert(x: int, s: seq<int>): (r: seq<int>)
    ensures |r| == |s| + 1
  {
    if s == [] || x <= s[0] then [x] + s else [s[0]] + Insert(x, s[1..])
  }

  /** A value no larger than a sorted sequence's head can go in front of it. */
  lemma ConsSorted(h: int, r: seq<int>)
    requires SortedAsc(r) && (r != [] ==> h <= r[0])
    ensures SortedAsc([h] + r)
  {
    var t := [h] + r;
    forall i | 0 < i < |t| ensures t[i - 1] <= t[i] {
      assert t[i] == r[i - 1];
      if i > 1 {
        assert t[i - 1] == r[i - 2];
      }
    }
  }

  lemma {:induction false} InsertFacts(x: int, s: seq<int>)
    requires SortedAsc(s)
    ensures SortedAsc(Insert(x, s))
    ensures multiset(Insert(x, s)) == multiset(s) + multiset{x}
    ensures Insert(x, s)[0] == if s == [] || x <= s[0] then x else s[0]
  {
    if s == [] || x <= s[0] {
      ConsSorted(x, s);
    } else {
      var tail := s[1..];
      SortedTail(s);
      InsertFacts(x, tail);
      assert s == [s[0]] + tail;
      assert tail != [] ==> tail[0] == s[1];
      ConsSorted(s[0], Insert(x, tail));
    }
  }

  /** The values in ascending order (insertion sort). */
  function SortAscending(s: seq<int>): (r: seq<int>)
    ensures |r| == |s|
  {
    if s == [] then [] else Insert(s[0], SortAscending(s[1..]))
  }

  /** The sort returns an ascending permutation of its input. */
  lemma {:induction false} SortAscendingFacts(s: seq<int>)
    ensures SortedAsc(SortAscending(s))
    ensures multiset(SortAscending(s)) == multiset(s)
  {
    if s != [] {
      SortAscendingFacts(s[1..]);
      InsertFacts(s[0], SortAscending(s[1..]));
      assert s == [s[0]] + s[1..];
    }
  }

  /** Two sorted arrangements of one multiset start with the same value. */
  lemma SameHeads(a: seq<int>, b: seq<int>)
    requires SortedAsc(a) && SortedAsc(b) && multiset(a) == multiset(b) && a != []
    ensures b != [] && a[0] == b[0]
  {
    assert a[0] in multiset(b);
    assert b[0] in multiset(a);
    var i :| 0 <= i < |b| && b[i] == a[0];
    var j :| 0 <= j < |a| && a[j] == b[0];
    SortedHeadLeast(a, j);
    SortedHeadLeast(b, i);
  }

  /** The tail holds the values of the sequence less its head. */
  lemma DropHead(s: seq<int>)
    requires s != []
    ensures multiset(s[1..]) == multiset(s) - multiset{s[0]}
  {
    assert s == [s[0]] + s[1..];
  }

  /** A sorted arrangement of a multiset is unique. */
  lemma {:induction false} SortedUnique(a: seq<int>, b: seq<int>)
    requires SortedAsc(a) && SortedAsc(b) && multiset(a) == multiset(b)
    ensures a == b
    decreases |a|
  {
    if a != [] {
      SameHeads(a, b);
      DropHead(a);
      DropHead(b);
      SortedTail(a);
      SortedTail(b);
      SortedUnique(a[1..], b[1..]);
      assert a == [a[0]] + a[1..];
      assert b == [b[0]] + b[1..];
    }
  }

  /** Sorting is idempotent and depends on the values only, not their order. */
  lemma SortCanonical(a: seq<int>, b: seq<int>)
    ensures SortedAsc(a) ==> SortAscending(a) == a
    ensures multiset(a) == multiset(b) ==> SortAscending(a) == SortAscending(b)
  {
    SortAscendingFacts(a);
    SortAscendingFacts(b);
    if SortedAsc(a) {
      SortedUnique(SortAscending(a), a);
    }
    if multiset(a) == multiset(b) {
      SortedUnique(SortAscending(a), SortAscending(b));
    }
  }

  // ---------------------------------------------------------------------------
  // One field

  /** The codes a validation pushes: none on success, its one code on failure. */
  function CodesOf(v: ValidateResult): (codes: seq<ErrorCode>)
    ensures v.Pass? <==> codes == []
    ensures v.Fail? ==> codes == [v.code]
  {
    if v.Fail? then [v.code] else []
  }

  /** The result of a validated mode: the text always, success iff no code was pushed. */
  function Checked(data: string, codes: seq<ErrorCode>): FieldExprResult {
    FieldExprResult(|codes| == 0, data, Some(codes))
  }

  /** A number value for a model's integer. */
  function N(x: int): JsValue {
    Num(x as real)
  }

  /** The decimal texts of the values joined by `,`. */
  function JoinInts(vs: seq<int>): string {
    Join(seq(|vs|, i requires 0 <= i < |vs| => IntToString(vs[i])), ",")
  }

  /** The values as number values, for `validateList`. */
  function NumValues(vs: seq<int>): (r: seq<JsValue>)
    ensures |r| == |vs| && forall i :: 0 <= i < |vs| ==> r[i] == N(vs[i])
  {
    seq(|vs|, i requires 0 <= i < |vs| => N(vs[i]))
  }

  /** `fieldModel2Expression` */
  function FieldModel2Expression(field: CronField, m: FieldModel): FieldExprResult {
    var b := ValueRange(field);
    match m
    case Unspecified => FieldExprResult(true, "?", None)
    case Every => FieldExprResult(true, "*", None)
    case Range(s, e) =>
      Checked(IntToString(s) + "-" + IntToString(e), CodesOf(ValidateRange(N(s), N(e), b.min, b.max)))
    case Step(f, s) =>
      Checked(IntToString(f) + "/" + IntToString(s), CodesOf(ValidateStep(N(f), N(s), StepLowerBound(field), b.max)))
    case List(vs) =>
      var sorted := SortAscending(vs);
      Checked(JoinInts(sorted), CodesOf(ListValidation(Some(NumValues(sorted)), b.min, b.max)))
    case NearestWeekday(d) =>
      Checked(IntToString(d) + "W", CodesOf(ValidateDay(N(d))))
    case LastDayOffset(o) =>
      Checked("L-" + IntToString(o), CodesOf(ValidateDayOffset(N(o))))
    case NthWeekOfMonth(n, w) =>
      var first := CodesOf(ValidateWeekNth(N(n)));
      var second := ValidateWeekday(N(w));
      var codes := if second.Fail? && second.code !in first then first + [second.code] else first;
      Checked(IntToString(w) + "#" + IntToString(n), codes)
    case LastDay => FieldExprResult(true, "L", None)
    case LastWeekdayOfMonth(w) =>
      Checked(IntToString(w) + "L", CodesOf(ValidateWeekday(N(w))))
  }

  /** One entry of `model2Expressions`: the field's result with the field and its label. */
  datatype FieldExpression = FieldExpression(
    success: bool,
    data: string,
    errors: Option<seq<ErrorCode>>,
    cronField: CronField,
    cronFieldLabel: string)

  /** `model2Expressions`: one entry per field, in expression order. */
  function Model2Expressions(m: CronModel): (r: seq<FieldExpression>)
    ensures |r| == |CronFieldList|
    ensures forall i :: 0 <= i < |r| ==> r[i].cronField == CronFieldList[i].0 && r[i].cronFieldLabel == CronFieldList[i].1
  {
    seq(|CronFieldList|, i requires 0 <= i < |CronFieldList| =>
      var field := CronFieldList[i].0;
      var res := FieldModel2Expression(field, m.Get(field));
      FieldExpression(res.success, res.data, res.errors, field, CronFieldList[i].1))
  }

  /** The seven tokens, in expression order. */
  function ModelTokens(m: CronModel): (r: seq<string>)
    ensures |r| == |CronFieldList|
    ensures forall i :: 0 <= i < |r| ==> r[i] == FieldModel2Expression(CronFieldList[i].0, m.Get(CronFieldList[i].0)).data
  {
    var entries := Model2Expressions(m);
    seq(|entries|, i requires 0 <= i < |entries| => entries[i].data)
  }

  /** `model2Expression`: the tokens joined by single spaces. */
  function Model2Expression(m: CronModel): string {
    Join(ModelTokens(m), " ")
  }
}
