/** `formatDate`: the parts and the `yyyy-MM-DD HH:mm:ss` text of a date. */
module DateFormat {
  import opened JsValues
  import opened Calendar

  /** `` (`0${v}`).slice(-2) ``: the last two characters of the value's text after a leading `0`. */
  function Pad2(v: nat): string {
    var s := "0" + NatToString(v);
    s[|s| - 2..]
  }

  /** The object `formatDate` returns, its `toString` as `Text`. */
  datatype Formatted = Formatted(yyyy: int, MM: string, DD: string, HH: string, mm: string, ss: string)
  {
    function Text(): string {
      IntToString(yyyy) + "-" + MM + "-" + DD + " " + HH + ":" + mm + ":" + ss
    }
  }

  /** `formatDate(date)`, the month shown from 1. */
  function FormatDate(t: DateTime): Formatted
    requires Valid(t)
  {
    Formatted(t.year, Pad2(t.month + 1), Pad2(t.day), Pad2(t.hours), Pad2(t.minutes), Pad2(t.seconds))
  }

  /** Two digit characters read back as their two-digit value. */
  lemma TwoDigits(a: int, b: int)
    requires 0 <= a < 10 && 0 <= b < 10
    ensures IsDigits([DigitChar(a), DigitChar(b)]) && DigitsValue([DigitChar(a), DigitChar(b)]) == 10 * a + b
  {
    var p := [DigitChar(a), DigitChar(b)];
    assert IsDigit(p[0]) && IsDigit(p[1]);
    assert DigitValue(p[0]) == a && DigitValue(p[1]) == b;
    assert p[..1] == [p[0]] && [p[0]][..0] == [];
    assert DigitsValue([p[0]]) == DigitValue(p[0]);
  }

  /** The two-character part: always two digits, reading back as the value modulo 100. */
  lemma Pad2Value(v: nat)
    ensures |Pad2(v)| == 2 && IsDigits(Pad2(v))
    ensures DigitsValue(Pad2(v)) == v % 100
  {
    var p := Pad2(v);
    if v < 10 {
      assert p == [DigitChar(0), DigitChar(v)];
      TwoDigits(0, v);
    } else {
      var d0 := DigitChar(v % 10);
      var d1 := DigitChar((v / 10) % 10);
      if v / 10 < 10 {
        assert NatToString(v) == [DigitChar(v / 10)] + [d0];
        assert p == [d1, d0];
      } else {
        assert NatToString(v) == NatToString(v / 100) + [d1] + [d0];
        assert p == [d1, d0];
      }
      TwoDigits((v / 10) % 10, v % 10);
    }
  }

  /** A two-digit value is shown as itself. */
  lemma Pad2Small(v: nat)
    requires v < 100
    ensures |Pad2(v)| == 2 && IsDigits(Pad2(v)) && DigitsValue(Pad2(v)) == v
  {
    Pad2Value(v);
  }

  /** Reading the text of an integer back, a leading `-` marking a negative value. */
  function ReadInt(s: string): int
    requires |s| > 0 && (s[0] == '-' ==> IsDigits(s[1..])) && (s[0] != '-' ==> IsDigits(s))
  {
    if s[0] == '-' then -(DigitsValue(s[1..]) as int) else DigitsValue(s)
  }

  /** The text of an integer reads back as that integer. */
  lemma ReadIntToString(n: int)
    ensures |IntToString(n)| > 0
    ensures IntToString(n)[0] == '-' ==> IsDigits(IntToString(n)[1..])
    ensures IntToString(n)[0] != '-' ==> IsDigits(IntToString(n))
    ensures ReadInt(IntToString(n)) == n
  {
    if n < 0 {
      NatToStringValue(-n);
      assert IntToString(n)[1..] == NatToString(-n);
    } else {
      NatToStringValue(n);
      var s := NatToString(n);
      assert IsDigit(s[0]);
    }
  }

  /** Text of the shape `<year>-MM-DD HH:mm:ss`: a year part, then the fixed 15-character tail. */
  predicate Shaped(s: string) {
    |s| > 15 &&
    var y := s[..|s| - 15];
    (y[0] == '-' ==> IsDigits(y[1..])) && (y[0] != '-' ==> IsDigits(y)) &&
    IsDigits(s[|s| - 14..|s| - 12]) && IsDigits(s[|s| - 11..|s| - 9]) && IsDigits(s[|s| - 8..|s| - 6]) &&
    IsDigits(s[|s| - 5..|s| - 3]) && IsDigits(s[|s| - 2..])
  }

  /** Reads a date back from text of that shape. */
  function ReadDate(s: string): DateTime
    requires Shaped(s)
  {
    DateTime(ReadInt(s[..|s| - 15]), DigitsValue(s[|s| - 14..|s| - 12]) - 1, DigitsValue(s[|s| - 11..|s| - 9]),
             DigitsValue(s[|s| - 8..|s| - 6]), DigitsValue(s[|s| - 5..|s| - 3]), DigitsValue(s[|s| - 2..]))
  }

  /** Where each part sits in `<year>-MM-DD HH:mm:ss` when the five tail parts have two characters. */
  lemma Layout(y: string, mo: string, d: string, h: string, mi: string, se: string)
    requires |mo| == 2 && |d| == 2 && |h| == 2 && |mi| == 2 && |se| == 2
    ensures var s := y + "-" + mo + "-" + d + " " + h + ":" + mi + ":" + se;
      |s| == |y| + 15 && s[..|s| - 15] == y && s[|s| - 14..|s| - 12] == mo && s[|s| - 11..|s| - 9] == d &&
      s[|s| - 8..|s| - 6] == h && s[|s| - 5..|s| - 3] == mi && s[|s| - 2..] == se
  {
  }

  /** The formatted text has the shape and reads back as the date. */
  lemma FormatReadsBack(t: DateTime)
    requires Valid(t)
    ensures Shaped(FormatDate(t).Text())
    ensures ReadDate(FormatDate(t).Text()) == t
  {
    var f := FormatDate(t);
    ReadIntToString(t.year);
    Pad2Small(t.month + 1);
    Pad2Small(t.day);
    Pad2Small(t.hours);
    Pad2Small(t.minutes);
    Pad2Small(t.seconds);
    Layout(IntToString(t.year), f.MM, f.DD, f.HH, f.mm, f.ss);
  }

  /** Two valid dates with the same text are the same date. */
  lemma FormatInjective(a: DateTime, b: DateTime)
    requires Valid(a) && Valid(b) && FormatDate(a).Text() == FormatDate(b).Text()
    ensures a == b
  {
    FormatReadsBack(a);
    FormatReadsBack(b);
  }
}
