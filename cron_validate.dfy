/** The value validators: each returns success or a single error code. */
module CronValidate {
  import opened Wrappers
  import opened JsValues
  import opened CronTypes
  import opened CronConstants

  /** The integer `Number(v)` gives, when it gives an integer. */
  function NumberValue(v: JsValue): int {
    IntOf(ToNumber(v))
  }

  /** `isInteger(v)`: its text is not 'null', 'undefined' or '', and `Number(v)` is integral. */
  function IsInteger(v: JsValue): (r: bool)
    ensures r ==> !v.Undefined? && !v.Null? && v != Str("") && !v.NaN?
    ensures v.Num? ==> (r <==> v.x.Floor as real == v.x)
    ensures r ==> ToNumber(v) == Num(NumberValue(v) as real)
  {
    !TextIsNullish(v) && IsIntegral(ToNumber(v))
  }

  /** `isInRange(v, {min, max})`, whose test is `v <= min - 1 || v >= max + 1` on the number. */
  function IsInRange(v: JsValue, min: int, max: int): (r: bool)
    ensures r <==> IsInteger(v) && min <= NumberValue(v) <= max
  {
    if !IsInteger(v) then false
    else
      var x := ToNumber(v).x;
      !(x <= (min - 1) as real || x >= (max + 1) as real)
  }

  /** Neither value coerces to a non-integral number, and neither text is empty. */
  predicate BothIntegral(a: JsValue, b: JsValue) {
    IsIntegral(ToNumber(a)) && IsIntegral(ToNumber(b))
  }

  /** `validateRange`: NOT_INTEGER, then EMPTY, then OUT_OF_RANGE, then START_GREATER_THAN_END. */
  function ValidateRange(start: JsValue, end: JsValue, min: int, max: int): (r: ValidateResult)
    ensures r == Pass <==>
      BothIntegral(start, end) && !TrimmedTextIsNullish(start) && !TrimmedTextIsNullish(end)
      && min <= NumberValue(start) < NumberValue(end) <= max
    ensures r.Fail? ==> r.code in {NotInteger, Empty, OutOfRange, StartGreaterThanEnd}
    ensures r == Fail(NotInteger) <==> !BothIntegral(start, end)
    ensures r == Fail(Empty) <==>
      BothIntegral(start, end) && (TrimmedTextIsNullish(start) || TrimmedTextIsNullish(end))
    ensures r == Fail(OutOfRange) <==>
      BothIntegral(start, end) && !TrimmedTextIsNullish(start) && !TrimmedTextIsNullish(end)
      && (NumberValue(start) < min || NumberValue(end) > max)
    ensures r == Fail(StartGreaterThanEnd) <==>
      BothIntegral(start, end) && !TrimmedTextIsNullish(start) && !TrimmedTextIsNullish(end)
      && min <= NumberValue(start) && NumberValue(end) <= max && NumberValue(start) >= NumberValue(end)
  {
    if !BothIntegral(start, end) then Fail(NotInteger)
    else if TrimmedTextIsNullish(start) || TrimmedTextIsNullish(end) then Fail(Empty)
    else if NumberValue(start) < min || NumberValue(end) > max then Fail(OutOfRange)
    else if NumberValue(start) >= NumberValue(end) then Fail(StartGreaterThanEnd)
    else Pass
  }

  /**
   * `validateStep`: NOT_INTEGER, then EMPTY, then OUT_OF_RANGE; the step's test is
   * `step <= min - 1`, so a step of 0 passes whenever `min` is 0.
   */
  function ValidateStep(from: JsValue, step: JsValue, min: int, max: int): (r: ValidateResult)
    ensures r == Pass <==>
      BothIntegral(from, step) && !TrimmedTextIsNullish(from) && !TrimmedTextIsNullish(step)
      && min <= NumberValue(from) <= max && min <= NumberValue(step) <= max
    ensures r.Fail? ==> r.code in {NotInteger, Empty, OutOfRange}
    ensures r == Fail(NotInteger) <==> !BothIntegral(from, step)
    ensures r == Fail(Empty) <==>
      BothIntegral(from, step) && (TrimmedTextIsNullish(from) || TrimmedTextIsNullish(step))
  {
    if !BothIntegral(from, step) then Fail(NotInteger)
    else if TrimmedTextIsNullish(from) || TrimmedTextIsNullish(step) then Fail(Empty)
    else
      var f, s := NumberValue(from), NumberValue(step);
      if f < min || f > max || s <= min - 1 || s > max then Fail(OutOfRange)
      else Pass
  }

  /** `a <= b` on two number values (false when either is NaN). */
  predicate NumLe(a: JsValue, b: JsValue) {
    a.Num? && b.Num? && a.x <= b.x
  }

  /** The check the loop of `validateList` makes on element `i`. */
  function ItemCheck(l: seq<JsValue>, i: nat): Option<ErrorCode>
    requires i < |l|
  {
    var n := ToNumber(l[i]);
    if !IsIntegral(n) then Some(NotInteger)
    else if TrimmedTextIsNullish(l[i]) then Some(Empty)
    else if i > 0 && NumLe(n, ToNumber(l[i - 1])) then Some(ListNotSorted)
    else None
  }

  /** The checks of all elements, in index order. */
  function ItemChecks(l: seq<JsValue>): (r: seq<Option<ErrorCode>>)
    ensures |r| == |l| && forall i :: 0 <= i < |l| ==> r[i] == ItemCheck(l, i)
  {
    seq(|l|, i requires 0 <= i < |l| => ItemCheck(l, i))
  }

  /** The first failure among checks `i..`. */
  function FirstFailure(cs: seq<Option<ErrorCode>>, i: nat): Option<ErrorCode>
    requires i <= |cs|
    decreases |cs| - i
  {
    if i == |cs| then None
    else if cs[i].Some? then cs[i]
    else FirstFailure(cs, i + 1)
  }

  /** The numbers of the elements. */
  function Numbers(l: seq<JsValue>): (r: seq<int>)
    ensures |r| == |l| && forall i :: 0 <= i < |l| ==> r[i] == NumberValue(l[i])
  {
    seq(|l|, i requires 0 <= i < |l| => NumberValue(l[i]))
  }

  /** `Math.min(...s)` */
  function MinOf(s: seq<int>): (m: int)
    requires |s| > 0
    ensures m in s && forall x :: x in s ==> m <= x
  {
    if |s| == 1 then s[0]
    else
      var rest := MinOf(s[1..]);
      assert forall x :: x in s ==> x == s[0] || x in s[1..];
      if s[0] <= rest then s[0] else rest
  }

  /** `Math.max(...s)` */
  function MaxOf(s: seq<int>): (m: int)
    requires |s| > 0
    ensures m in s && forall x :: x in s ==> x <= m
  {
    if |s| == 1 then s[0]
    else
      var rest := MaxOf(s[1..]);
      assert forall x :: x in s ==> x == s[0] || x in s[1..];
      if s[0] >= rest then s[0] else rest
  }

  /**
   * What `validateList` returns, in its order: NOT_LIST, LIST_EMPTY, LIST_LENGTH_EXCEEDED,
   * then per element NOT_INTEGER, EMPTY, LIST_NOT_SORTED, and last OUT_OF_RANGE.
   * `None` stands for an argument that is not an array.
   */
  function ListValidation(list: Option<seq<JsValue>>, min: int, max: int): ValidateResult {
    if list.None? then Fail(NotList)
    else
      var l := list.value;
      if |l| <= 0 then Fail(ListEmpty)
      else if |l| > max - min + 1 then Fail(ListLengthExceeded)
      else if FirstFailure(ItemChecks(l), 0).Some? then Fail(FirstFailure(ItemChecks(l), 0).value)
      else if MinOf(Numbers(l)) < min || MaxOf(Numbers(l)) > max then Fail(OutOfRange)
      else Pass
  }

  /** `validateList`, with its indexed loop and early returns. */
  method ValidateList(list: Option<seq<JsValue>>, min: int, max: int) returns (r: ValidateResult)
    ensures r == ListValidation(list, min, max)
  {
    if list.None? {
      return Fail(NotList);
    }
    var l := list.value;
    if |l| <= 0 {
      return Fail(ListEmpty);
    }
    if |l| > max - min + 1 {
      return Fail(ListLengthExceeded);
    }
    ghost var cs := ItemChecks(l);
    for index := 0 to |l|
      invariant FirstFailure(cs, 0) == FirstFailure(cs, index)
    {
      var n := ToNumber(l[index]);
      if !IsIntegral(n) {
        return Fail(NotInteger);
      }
      if TrimmedTextIsNullish(l[index]) {
        return Fail(Empty);
      }
      if index > 0 {
        if NumLe(n, ToNumber(l[index - 1])) {
          return Fail(ListNotSorted);
        }
      }
    }
    var nums := Numbers(l);
    if MinOf(nums) < min || MaxOf(nums) > max {
      return Fail(OutOfRange);
    }
    return Pass;
  }

  /** Every element is an integer with non-empty text, each greater than the one before. */
  predicate StrictlyIncreasingIntegers(l: seq<JsValue>) {
    && (forall i :: 0 <= i < |l| ==> IsIntegral(ToNumber(l[i])) && !TrimmedTextIsNullish(l[i]))
    && (forall i :: 0 < i < |l| ==> NumberValue(l[i - 1]) < NumberValue(l[i]))
  }

  lemma {:induction false} FirstFailureNone(cs: seq<Option<ErrorCode>>, i: nat)
    requires i <= |cs|
    ensures FirstFailure(cs, i).None? <==> (forall k :: i <= k < |cs| ==> cs[k].None?)
    decreases |cs| - i
  {
    if i < |cs| {
      FirstFailureNone(cs, i + 1);
    }
  }

  lemma ItemChecksPass(l: seq<JsValue>)
    ensures (forall k :: 0 <= k < |l| ==> ItemCheck(l, k).None?) <==> StrictlyIncreasingIntegers(l)
  {
    if forall k :: 0 <= k < |l| ==> ItemCheck(l, k).None? {
      forall i | 0 < i < |l| ensures NumberValue(l[i - 1]) < NumberValue(l[i]) {
        assert ItemCheck(l, i - 1).None? && ItemCheck(l, i).None?;
      }
      forall i | 0 <= i < |l| ensures IsIntegral(ToNumber(l[i])) && !TrimmedTextIsNullish(l[i]) {
        assert ItemCheck(l, i).None?;
      }
    }
    if StrictlyIncreasingIntegers(l) {
      forall k | 0 <= k < |l| ensures ItemCheck(l, k).None? {
        if k > 0 {
          assert NumberValue(l[k - 1]) < NumberValue(l[k]);
          assert ToNumber(l[k - 1]) == Num(NumberValue(l[k - 1]) as real);
          assert ToNumber(l[k]) == Num(NumberValue(l[k]) as real);
        }
      }
    }
  }

  /**
   * A list validates exactly when it is an array of 1 to `max - min + 1` integers, strictly
   * increasing (so free of duplicates), all between `min` and `max`.
   */
  lemma ListValidationPass(list: Option<seq<JsValue>>, min: int, max: int)
    ensures ListValidation(list, min, max) == Pass <==>
      && list.Some?
      && 1 <= |list.value| <= max - min + 1
      && StrictlyIncreasingIntegers(list.value)
      && forall i :: 0 <= i < |list.value| ==> min <= NumberValue(list.value[i]) <= max
  {
    if list.Some? && 1 <= |list.value| <= max - min + 1 {
      var l := list.value;
      FirstFailureNone(ItemChecks(l), 0);
      ItemChecksPass(l);
      MinMaxWithin(Numbers(l), min, max);
    }
  }

  lemma MinMaxWithin(nums: seq<int>, min: int, max: int)
    requires |nums| > 0
    ensures (MinOf(nums) >= min && MaxOf(nums) <= max) <==> forall i :: 0 <= i < |nums| ==> min <= nums[i] <= max
  {
    if forall i :: 0 <= i < |nums| ==> min <= nums[i] <= max {
      assert forall x :: x in nums ==> min <= x <= max;
    }
  }

  /** A validated list holds no value twice. */
  lemma ValidatedListDistinct(l: seq<JsValue>, min: int, max: int)
    requires ListValidation(Some(l), min, max) == Pass
    ensures forall i, j :: 0 <= i < j < |l| ==> NumberValue(l[i]) < NumberValue(l[j])
  {
    ListValidationPass(Some(l), min, max);
    forall i, j | 0 <= i < j < |l| ensures NumberValue(l[i]) < NumberValue(l[j]) {
      StrictlyIncreasingStep(l, i, j);
    }
  }

  lemma {:induction false} StrictlyIncreasingStep(l: seq<JsValue>, i: int, j: int)
    requires StrictlyIncreasingIntegers(l)
    requires 0 <= i < j < |l|
    ensures NumberValue(l[i]) < NumberValue(l[j])
    decreases j - i
  {
    if i + 1 < j {
      StrictlyIncreasingStep(l, i, j - 1);
    }
  }

  /** `validateIntegerVal`: NOT_INTEGER, then OUT_OF_RANGE. */
  function ValidateIntegerVal(v: JsValue, min: int, max: int): (r: ValidateResult)
    ensures r == Pass <==> IsInteger(v) && min <= NumberValue(v) <= max
    ensures r == Fail(NotInteger) <==> !IsInteger(v)
    ensures r.Fail? ==> r.code in {NotInteger, OutOfRange}
  {
    if !IsInteger(v) then Fail(NotInteger)
    else if !IsInRange(v, min, max) then Fail(OutOfRange)
    else Pass
  }

  /** `validateDay`: 1..31 */
  function ValidateDay(day: JsValue): ValidateResult {
    ValidateIntegerVal(day, ValueRange(DayOfMonth).min, ValueRange(DayOfMonth).max)
  }

  /** `validateDayOffset`: 1..30 */
  function ValidateDayOffset(offset: JsValue): ValidateResult {
    ValidateIntegerVal(offset, ValueRange(DayOfMonth).min, ValueRange(DayOfMonth).max - 1)
  }

  /** `validateWeekday`: 1..7 */
  function ValidateWeekday(weekday: JsValue): ValidateResult {
    ValidateIntegerVal(weekday, ValueRange(DayOfWeek).min, ValueRange(DayOfWeek).max)
  }

  /** `validateWeekNth`: 1..5 */
  function ValidateWeekNth(weekNth: JsValue): ValidateResult {
    ValidateIntegerVal(weekNth, 1, 5)
  }

  // ---------------------------------------------------------------------------
  // The validators on plain numbers and on decimal text

  /** `isInteger` refuses null, undefined, '' and every non-integral number. */
  lemma IsIntegerRefuses(x: real)
    requires x.Floor as real != x
    ensures !IsInteger(Null) && !IsInteger(Undefined) && !IsInteger(Str("")) && !IsInteger(Num(x))
    ensures !IsInteger(NaN)
  {
  }

  /** On integers, `validateRange` fails with OUT_OF_RANGE or START_GREATER_THAN_END. */
  lemma ValidateRangeOnIntegers(s: int, e: int, min: int, max: int)
    ensures ValidateRange(Num(s as real), Num(e as real), min, max)
      == if s < min || e > max then Fail(OutOfRange)
         else if s >= e then Fail(StartGreaterThanEnd)
         else Pass
  {
  }

  /** On integers, `validateStep` succeeds iff both lie in `[min, max]`. */
  lemma ValidateStepOnIntegers(f: int, s: int, min: int, max: int)
    ensures ValidateStep(Num(f as real), Num(s as real), min, max)
      == if min <= f <= max && min <= s <= max then Pass else Fail(OutOfRange)
  {
  }

  /** The exact ranges of the four integer validators, on integers. */
  lemma IntegerValidatorRanges(n: int)
    ensures ValidateDay(Num(n as real)).Pass? <==> 1 <= n <= 31
    ensures ValidateDayOffset(Num(n as real)).Pass? <==> 1 <= n <= 30
    ensures ValidateWeekday(Num(n as real)).Pass? <==> 1 <= n <= 7
    ensures ValidateWeekNth(Num(n as real)).Pass? <==> 1 <= n <= 5
  {
  }

  /** The decimal text of a natural number validates like the number itself. */
  lemma NatTextLikeNumber(n: nat)
    ensures ToNumber(Str(NatToString(n))) == ToNumber(Num(n as real))
    ensures NumberValue(Str(NatToString(n))) == n
    ensures !TrimmedTextIsNullish(Str(NatToString(n))) && !TextIsNullish(Str(NatToString(n)))
  {
    NumberOfNatText(n);
  }
}
