/** What `model2Expression` promises about its tokens and its verdicts. */
module CronSerializeFacts {
  import opened Wrappers
  import opened JsValues
  import opened CronTypes
  import opened CronConstants
  import opened CronValidate
  import opened CronParse
  import opened CronSerialize

  /** The field models the serialiser accepts, stated on their values. */
  predicate Valid(field: CronField, m: FieldModel) {
    var b := ValueRange(field);
    match m
    case Every => true
    case Unspecified => true
    case LastDay => true
    case Range(s, e) => b.min <= s < e <= b.max
    case Step(f, s) => StepLowerBound(field) <= f <= b.max && StepLowerBound(field) <= s <= b.max
    case List(vs) =>
      && 1 <= |vs| <= b.max - b.min + 1
      && (forall x :: x in multiset(vs) ==> b.min <= x <= b.max)
      && Distinct(vs)
    case NearestWeekday(d) => 1 <= d <= 31
    case LastDayOffset(o) => 1 <= o <= 30
    case NthWeekOfMonth(n, w) => 1 <= n <= 5 && 1 <= w <= 7
    case LastWeekdayOfMonth(w) => 1 <= w <= 7
  }

  predicate StrictlyAscending(s: seq<int>) {
    forall i :: 0 < i < |s| ==> s[i - 1] < s[i]
  }

  /** No value occurs twice. */
  predicate Distinct(s: seq<int>) {
    forall x :: x in multiset(s) ==> multiset(s)[x] == 1
  }

  lemma StrictCons(s: seq<int>)
    requires |s| >= 2
    ensures StrictlyAscending(s) <==> s[0] < s[1] && StrictlyAscending(s[1..])
  {
    var t := s[1..];
    if StrictlyAscending(s) {
      forall i | 0 < i < |t| ensures t[i - 1] < t[i] {
        assert t[i - 1] == s[i] && t[i] == s[i + 1];
      }
    }
    if s[0] < s[1] && StrictlyAscending(t) {
      forall i | 0 < i < |s| ensures s[i - 1] < s[i] {
        if i > 1 {
          assert s[i - 1] == t[i - 2] && s[i] == t[i - 1];
        }
      }
    }
  }

  lemma HeadInTail(s: seq<int>)
    requires SortedAsc(s) && |s| >= 2
    ensures s[0] in s[1..] <==> s[0] == s[1]
  {
    var t := s[1..];
    SortedTail(s);
    if s[0] in t {
      var k :| 0 <= k < |t| && t[k] == s[0];
      SortedHeadLeast(t, k);
      assert t[0] == s[1];
    }
  }

  lemma DistinctCons(s: seq<int>)
    requires s != []
    ensures Distinct(s) <==> s[0] !in s[1..] && Distinct(s[1..])
  {
    var h, t := s[0], s[1..];
    assert s == [h] + t;
    var ms, mt := multiset(s), multiset(t);
    assert ms == multiset{h} + mt;
    assert forall x :: ms[x] == (if x == h then 1 else 0) + mt[x];
    if Distinct(s) {
      assert ms[h] == 1;
      assert mt[h] == 0;
      forall x | x in mt ensures mt[x] == 1 {
        assert x in ms;
      }
    }
    if h !in t && Distinct(t) {
      assert mt[h] == 0;
      forall x | x in ms ensures ms[x] == 1 {
        if x != h {
          assert x in mt;
        }
      }
    }
  }

  /** A sorted sequence is strictly ascending exactly when no value occurs twice. */
  lemma {:induction false} SortedDistinct(s: seq<int>)
    requires SortedAsc(s)
    ensures StrictlyAscending(s) <==> Distinct(s)
    decreases |s|
  {
    if |s| == 1 {
      DistinctCons(s);
    } else if |s| >= 2 {
      SortedTail(s);
      SortedDistinct(s[1..]);
      StrictCons(s);
      HeadInTail(s);
      DistinctCons(s);
      assert s[0] <= s[1];
    }
  }

  /** Number values of integers are strictly increasing integers exactly when the integers are. */
  lemma NumValuesIncreasing(s: seq<int>)
    ensures StrictlyIncreasingIntegers(NumValues(s)) <==> StrictlyAscending(s)
    ensures forall i :: 0 <= i < |s| ==> NumberValue(NumValues(s)[i]) == s[i]
  {
  }

  /** `validateList` on the number values of a sorted list, stated on the integers. */
  lemma SortedListValidation(s: seq<int>, min: int, max: int)
    ensures ListValidation(Some(NumValues(s)), min, max) == Pass <==>
      1 <= |s| <= max - min + 1 && StrictlyAscending(s) && forall i :: 0 <= i < |s| ==> min <= s[i] <= max
  {
    ListValidationPass(Some(NumValues(s)), min, max);
    NumValuesIncreasing(s);
  }

  lemma ListSuccess(field: CronField, vs: seq<int>)
    ensures var b := ValueRange(field);
      FieldModel2Expression(field, List(vs)).success <==>
        ListValidation(Some(NumValues(SortAscending(vs))), b.min, b.max) == Pass
  {
  }

  /** Bounds on all elements carry over between permutations. */
  lemma PermutationWithin(a: seq<int>, b: seq<int>, min: int, max: int)
    requires multiset(a) == multiset(b)
    ensures (forall i :: 0 <= i < |a| ==> min <= a[i] <= max) <==> (forall x :: x in multiset(b) ==> min <= x <= max)
  {
    if forall i :: 0 <= i < |a| ==> min <= a[i] <= max {
      forall x | x in multiset(b) ensures min <= x <= max {
        assert x in multiset(a);
        var i :| 0 <= i < |a| && a[i] == x;
      }
    }
    if forall x :: x in multiset(b) ==> min <= x <= max {
      forall i | 0 <= i < |a| ensures min <= a[i] <= max {
        assert a[i] in multiset(a);
      }
    }
  }

  lemma ListValid(field: CronField, vs: seq<int>)
    ensures FieldModel2Expression(field, List(vs)).success <==> Valid(field, List(vs))
  {
    var b := ValueRange(field);
    var sorted := SortAscending(vs);
    ListSuccess(field, vs);
    SortAscendingFacts(vs);
    SortedListValidation(sorted, b.min, b.max);
    SortedDistinct(sorted);
    assert Distinct(sorted) == Distinct(vs);
    PermutationWithin(sorted, vs, b.min, b.max);
  }

  /** A field model serialises successfully exactly when it is valid for the field. */
  lemma SerialiseSuccess(field: CronField, m: FieldModel)
    ensures FieldModel2Expression(field, m).success <==> Valid(field, m)
  {
    var b := ValueRange(field);
    match m
    case Range(s, e) =>
      ValidateRangeOnIntegers(s, e, b.min, b.max);
    case Step(f, s) =>
      ValidateStepOnIntegers(f, s, StepLowerBound(field), b.max);
    case List(vs) =>
      ListValid(field, vs);
    case NearestWeekday(d) =>
      IntegerValidatorRanges(d);
    case LastDayOffset(o) =>
      IntegerValidatorRanges(o);
    case NthWeekOfMonth(n, w) =>
      IntegerValidatorRanges(n);
      IntegerValidatorRanges(w);
    case LastWeekdayOfMonth(w) =>
      IntegerValidatorRanges(w);
    case _ =>
  }

  /**
   * `success` is true exactly when no code was reported; only `?`, `*` and `L` come without an
   * error list; no code is reported twice, and only `w#n` can report two.
   */
  lemma ResultShape(field: CronField, m: FieldModel)
    ensures var r := FieldModel2Expression(field, m);
      && (r.success <==> r.errors.None? || r.errors.value == [])
      && (r.errors.None? <==> m.Every? || m.Unspecified? || m.LastDay?)
      && (r.errors.Some? ==> |r.errors.value| <= if m.NthWeekOfMonth? then 2 else 1)
      && (r.errors.Some? ==> forall i, j :: 0 <= i < j < |r.errors.value| ==> r.errors.value[i] != r.errors.value[j])
  {
  }

  /** `w#n` reports the week number's failure first, then the weekday's unless it is the same code. */
  lemma NthWeekCodes(field: CronField, n: int, w: int)
    ensures var codes := FieldModel2Expression(field, NthWeekOfMonth(n, w)).errors.value;
      && (ValidateWeekNth(N(n)).Fail? ==> codes[0] == ValidateWeekNth(N(n)).code)
      && (ValidateWeekday(N(w)).Fail? ==> ValidateWeekday(N(w)).code in codes)
      && (forall c :: c in codes ==> ValidateWeekNth(N(n)) == Fail(c) || ValidateWeekday(N(w)) == Fail(c))
      && (forall c :: c in codes ==> c in {NotInteger, OutOfRange})
  {
  }

  /** The order of a list's values does not matter: they are sorted first. */
  lemma ListOrderIrrelevant(field: CronField, a: seq<int>, b: seq<int>)
    requires multiset(a) == multiset(b)
    ensures FieldModel2Expression(field, List(a)) == FieldModel2Expression(field, List(b))
  {
    SortCanonical(a, b);
  }

  lemma IntTextProper(n: int)
    ensures IntToString(n) != [] && NoSpace(IntToString(n))
  {
    var d := NatToString(if n < 0 then -n else n);
    assert forall i :: 0 <= i < |d| ==> IsDigit(d[i]);
    if n < 0 {
      assert forall i :: 0 < i < |IntToString(n)| ==> IntToString(n)[i] == d[i - 1];
    }
  }

  lemma NoSpaceConcat(a: string, b: string)
    requires NoSpace(a) && NoSpace(b)
    ensures NoSpace(a + b)
  {
    assert forall i :: 0 <= i < |a + b| ==> (a + b)[i] == if i < |a| then a[i] else b[i - |a|];
  }

  lemma {:induction false} JoinNoSpace(ps: seq<string>, sep: string)
    requires NoSpace(sep) && forall i :: 0 <= i < |ps| ==> NoSpace(ps[i])
    ensures NoSpace(Join(ps, sep))
    decreases |ps|
  {
    if |ps| > 1 {
      JoinNoSpace(ps[1..], sep);
      NoSpaceConcat(ps[0], sep);
      NoSpaceConcat(ps[0] + sep, Join(ps[1..], sep));
    }
  }

  /** Every token the serialiser writes is free of white space and, but for an empty list, non-empty. */
  lemma TokenProper(field: CronField, m: FieldModel)
    requires m != List([])
    ensures var t := FieldModel2Expression(field, m).data; t != [] && NoSpace(t)
  {
    match m
    case Range(s, e) =>
      IntTextProper(s);
      IntTextProper(e);
      NoSpaceConcat(IntToString(s), "-");
      NoSpaceConcat(IntToString(s) + "-", IntToString(e));
    case Step(f, s) =>
      IntTextProper(f);
      IntTextProper(s);
      NoSpaceConcat(IntToString(f), "/");
      NoSpaceConcat(IntToString(f) + "/", IntToString(s));
    case List(vs) =>
      var sorted := SortAscending(vs);
      var texts := seq(|sorted|, i requires 0 <= i < |sorted| => IntToString(sorted[i]));
      forall i | 0 <= i < |texts| ensures NoSpace(texts[i]) {
        IntTextProper(sorted[i]);
      }
      JoinNoSpace(texts, ",");
      assert JoinInts(sorted) == Join(texts, ",");
      ListTokenNonEmpty(sorted);
    case NearestWeekday(d) =>
      IntTextProper(d);
      NoSpaceConcat(IntToString(d), "W");
    case LastDayOffset(o) =>
      IntTextProper(o);
      NoSpaceConcat("L-", IntToString(o));
    case NthWeekOfMonth(n, w) =>
      IntTextProper(n);
      IntTextProper(w);
      NoSpaceConcat(IntToString(w), "#");
      NoSpaceConcat(IntToString(w) + "#", IntToString(n));
    case LastWeekdayOfMonth(w) =>
      IntTextProper(w);
      NoSpaceConcat(IntToString(w), "L");
    case _ =>
  }

  lemma ListTokenNonEmpty(vs: seq<int>)
    ensures JoinInts(vs) == [] <==> vs == []
  {
    if vs != [] {
      IntTextProper(vs[0]);
      if |vs| > 1 {
        assert JoinInts(vs) == IntToString(vs[0]) + "," + Join(seq(|vs| - 1, i requires 0 <= i < |vs| - 1 => IntToString(vs[i + 1])), ",") by {
          var texts := seq(|vs|, i requires 0 <= i < |vs| => IntToString(vs[i]));
          assert texts[1..] == seq(|vs| - 1, i requires 0 <= i < |vs| - 1 => IntToString(vs[i + 1]));
        }
      }
    }
  }

  /** An empty list is written as the empty token, reported as an empty list. */
  lemma EmptyListToken(field: CronField)
    ensures FieldModel2Expression(field, List([])) == FieldExprResult(false, "", Some([ListEmpty]))
  {
  }
}
