/**
 * The few ECMAScript coercions the modelled code relies on: `Number(v)`,
 * the text of a value (`${v}`), `String.prototype.trim`, `split`, `join`,
 * the decimal text of an integer, truthiness and the `%` operator.
 */
module JsValues {

  /** The values the validators and the cache may be handed. */
  datatype JsValue =
    | Undefined
    | Null
    | NaN
    | Bool(b: bool)
    | Num(x: real)
    | Str(s: string)

  /** A white-space or line-terminator code point (what `trim` and `\s` remove). */
  predicate IsSpace(c: char) {
    c == ' ' || c == '\t' || c == '\n' || c == '\r' || c == '\U{000B}' || c == '\U{000C}'
    || c == '\U{00A0}' || c == '\U{1680}' || ('\U{2000}' <= c <= '\U{200A}')
    || c == '\U{2028}' || c == '\U{2029}' || c == '\U{202F}' || c == '\U{205F}'
    || c == '\U{3000}' || c == '\U{FEFF}'
  }

  /** `s.trimStart()` */
  function TrimStart(s: string): (r: string)
    ensures |r| <= |s| && r == s[|s| - |r|..]
    ensures r != [] ==> !IsSpace(r[0])
    ensures forall i :: 0 <= i < |s| - |r| ==> IsSpace(s[i])
  {
    if s != [] && IsSpace(s[0]) then TrimStart(s[1..]) else s
  }

  /** `s.trimEnd()` */
  function TrimEnd(s: string): (r: string)
    ensures |r| <= |s| && r == s[..|r|]
    ensures r != [] ==> !IsSpace(r[|r| - 1])
    ensures forall i :: |r| <= i < |s| ==> IsSpace(s[i])
  {
    if s != [] && IsSpace(s[|s| - 1]) then TrimEnd(s[..|s| - 1]) else s
  }

  /** `s.trim()` */
  function Trim(s: string): string {
    TrimEnd(TrimStart(s))
  }

  predicate IsDigit(c: char) {
    '0' <= c <= '9'
  }

  /** A non-empty run of decimal digits, the strings `Number` is modelled for. */
  predicate IsDigits(s: string) {
    |s| > 0 && forall i :: 0 <= i < |s| ==> IsDigit(s[i])
  }

  /** The decimal value of a digit string. */
  function DigitsValue(s: string): nat
    requires forall i :: 0 <= i < |s| ==> IsDigit(s[i])
  {
    if s == [] then 0 else DigitsValue(s[..|s| - 1]) * 10 + DigitValue(s[|s| - 1])
  }

  function DigitValue(c: char): (d: nat)
    requires IsDigit(c)
    ensures d < 10
  {
    c as int - '0' as int
  }

  /**
   * `Number(s)` for a string, modelled for blank text (0) and decimal digit strings
   * (their value); every other text is taken to give `NaN`.
   */
  function StringToNumber(s: string): (r: JsValue)
    ensures r.Num? || r.NaN?
    ensures r.Num? ==> r.x.Floor as real == r.x && r.x >= 0.0
  {
    var t := Trim(s);
    if t == "" then Num(0.0)
    else if IsDigits(t) then Num(DigitsValue(t) as real)
    else NaN
  }

  /** `Number(v)`: always a number value, `NaN` included. */
  function ToNumber(v: JsValue): (r: JsValue)
    ensures r.Num? || r.NaN?
  {
    match v
    case Undefined => NaN
    case Null => Num(0.0)
    case NaN => NaN
    case Bool(b) => Num(if b then 1.0 else 0.0)
    case Num(_) => v
    case Str(s) => StringToNumber(s)
  }

  /** `Number.isInteger(v)` for a value that is already a number. */
  predicate IsIntegral(v: JsValue) {
    v.Num? && v.x.Floor as real == v.x
  }

  /** The integer a number value holds (0 for anything else). */
  function IntOf(v: JsValue): int {
    if v.Num? then v.x.Floor else 0
  }

  /** Whether `${v}` is one of 'null', 'undefined' or ''. */
  predicate TextIsNullish(v: JsValue) {
    match v
    case Undefined => true
    case Null => true
    case Str(s) => s == "" || s == "null" || s == "undefined"
    case _ => false
  }

  /** Whether `${v}`.trim() is one of 'null', 'undefined' or ''. */
  predicate TrimmedTextIsNullish(v: JsValue) {
    match v
    case Undefined => true
    case Null => true
    case Str(s) => Trim(s) == "" || Trim(s) == "null" || Trim(s) == "undefined"
    case _ => false
  }

  /** `!!v` */
  predicate IsTruthy(v: JsValue) {
    match v
    case Undefined => false
    case Null => false
    case NaN => false
    case Bool(b) => b
    case Num(x) => x != 0.0
    case Str(s) => s != ""
  }

  /**
   * `a % b` on integers: the remainder of division truncated toward zero, so it is
   * smaller than `|b|` in magnitude and takes the sign of the dividend.
   */
  function JsRem(a: int, b: int): (r: int)
    requires b != 0
    ensures -(Abs(b) as int) < r < Abs(b)
    ensures r == 0 || (r > 0 <==> a > 0)
    ensures exists q: int :: a == q * b + r && TruncatedQuotient(a, b, q)
  {
    var r := if a >= 0 then a % Abs(b) else -((-a) % Abs(b));
    JsQuotientFacts(a, b);
    assert a == JsQuotient(a, b) * b + r && TruncatedQuotient(a, b, JsQuotient(a, b));
    r
  }

  /** The quotient that goes with `JsRem`: `|a| / |b|`, with the sign of `a / b`. */
  function JsQuotient(a: int, b: int): int
    requires b != 0
  {
    var d := (if a >= 0 then a else -a) / Abs(b);
    if (a >= 0) == (b > 0) then d else -d
  }

  lemma JsQuotientFacts(a: int, b: int)
    requires b != 0
    ensures a == JsQuotient(a, b) * b + (if a >= 0 then a % Abs(b) else -((-a) % Abs(b)))
    ensures TruncatedQuotient(a, b, JsQuotient(a, b))
  {
    var k: nat := if a >= 0 then a else -a;
    var p := DivParts(k, Abs(b));
    var q := JsQuotient(a, b);
    SignedProduct(k / Abs(b), b, q, (a >= 0) == (b > 0));
  }

  /** `k` splits into a multiple `p` of `m`, no larger than `k`, and the remainder. */
  lemma DivParts(k: nat, m: nat) returns (p: int)
    requires m > 0
    ensures p == (k / m) * m && k == p + k % m && 0 <= p <= k
  {
    p := (k / m) * m;
  }

  /** Flipping the sign of one factor flips the sign of the product. */
  lemma SignedProduct(d: int, b: int, q: int, same: bool)
    requires b != 0 && q == (if same then d else -d)
    ensures q * b == (if same == (b > 0) then d * Abs(b) else -(d * Abs(b)))
  {
  }

  /** `q` is `a / b` rounded toward zero: `|q * b|` does not exceed `|a|` and has the sign of `a`. */
  predicate TruncatedQuotient(a: int, b: int, q: int) {
    (a >= 0 ==> 0 <= q * b <= a) && (a < 0 ==> a <= q * b <= 0)
  }

  function Abs(n: int): nat {
    if n < 0 then -n else n
  }

  function DigitChar(d: int): char
    requires 0 <= d < 10
  {
    ('0' as int + d) as char
  }

  /** The decimal text of a natural number, without leading zeros. */
  function NatToString(n: nat): (s: string)
    ensures IsDigits(s)
    ensures |s| > 1 ==> s[0] != '0'
    decreases n
  {
    if n < 10 then [DigitChar(n)] else NatToString(n / 10) + [DigitChar(n % 10)]
  }

  /** `${n}` for an integral number. */
  function IntToString(n: int): string {
    if n < 0 then "-" + NatToString(-n) else NatToString(n)
  }

  /** Reading back the decimal text of a natural number gives the number. */
  lemma {:induction false} NatToStringValue(n: nat)
    ensures DigitsValue(NatToString(n)) == n
    decreases n
  {
    if n >= 10 {
      NatToStringValue(n / 10);
      var s := NatToString(n);
      assert s[..|s| - 1] == NatToString(n / 10);
    }
  }

  /** A string without white space at either end is its own trim. */
  lemma TrimNoSpace(s: string)
    requires forall i :: 0 <= i < |s| ==> !IsSpace(s[i])
    ensures Trim(s) == s
  {
  }

  /** `Number` of the decimal text of a natural number is that number. */
  lemma NumberOfNatText(n: nat)
    ensures ToNumber(Str(NatToString(n))) == Num(n as real)
    ensures !TextIsNullish(Str(NatToString(n))) && !TrimmedTextIsNullish(Str(NatToString(n)))
  {
    var s := NatToString(n);
    TrimNoSpace(s);
    NatToStringValue(n);
  }

  /** A non-empty sequence is its head followed by its tail. */
  lemma HeadTail<T>(s: seq<T>)
    requires s != []
    ensures s == [s[0]] + s[1..]
  {
  }

  /** `arr.join(sep)` */
  function Join(parts: seq<string>, sep: string): string {
    if parts == [] then ""
    else if |parts| == 1 then parts[0]
    else parts[0] + sep + Join(parts[1..], sep)
  }

  /** `s.split(c)` for a one-character separator: never empty; the pieces hold no `c`. */
  function Split(s: string, c: char): (r: seq<string>)
    ensures |r| >= 1
    ensures forall i :: 0 <= i < |r| ==> c !in r[i]
    ensures (c in s) == (|r| >= 2)
  {
    if s == [] then [""]
    else
      var rest := Split(s[1..], c);
      if s[0] == c then [""] + rest
      else
        assert s == [s[0]] + s[1..];
        [[s[0]] + rest[0]] + rest[1..]
  }

  /** Joining the pieces with the separator gives the text back. */
  lemma {:induction false} SplitJoin(s: string, c: char)
    ensures Join(Split(s, c), [c]) == s
  {
    if s != [] {
      SplitJoin(s[1..], c);
      var rest := Split(s[1..], c);
      if s[0] != c {
        assert s == [s[0]] + s[1..];
        if |rest| > 1 {
          HeadTail(rest);
        }
      }
    }
  }

  /** Text without the separator is a single piece. */
  lemma {:induction false} SplitNone(a: string, c: char)
    requires c !in a
    ensures Split(a, c) == [a]
  {
    if a != [] {
      SplitNone(a[1..], c);
      assert a == [a[0]] + a[1..];
    }
  }

  /** The first piece runs up to the first separator; the rest split on. */
  lemma {:induction false} SplitAtFirst(a: string, b: string, c: char)
    requires c !in a
    ensures Split(a + [c] + b, c) == [a] + Split(b, c)
  {
    if a == [] {
      assert a + [c] + b == [c] + b;
      assert ([c] + b)[1..] == b;
    } else {
      var s := a + [c] + b;
      assert s[0] == a[0] && s[1..] == a[1..] + [c] + b;
      SplitAtFirst(a[1..], b, c);
      var rest := Split(s[1..], c);
      assert rest == [a[1..]] + Split(b, c);
      assert rest[0] == a[1..] && rest[1..] == Split(b, c);
      assert a[0] != c;
      assert Split(s, c) == [[s[0]] + rest[0]] + rest[1..];
      assert [s[0]] + rest[0] == a;
    }
  }

  /** Splitting the join of separator-free pieces gives the pieces back. */
  lemma {:induction false} SplitOfJoin(ps: seq<string>, c: char)
    requires |ps| >= 1 && forall i :: 0 <= i < |ps| ==> c !in ps[i]
    ensures Split(Join(ps, [c]), c) == ps
    decreases |ps|
  {
    if |ps| == 1 {
      SplitNone(ps[0], c);
    } else {
      SplitOfJoin(ps[1..], c);
      SplitAtFirst(ps[0], Join(ps[1..], [c]), c);
      HeadTail(ps);
    }
  }
}
