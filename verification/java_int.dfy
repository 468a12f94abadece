/** Java `int` arithmetic and the decimal conversions `Integer.toString` and
    `Integer.valueOf(String)` that the feed configuration relies on. */
module JavaInt {
  import opened Wrappers

  const MinInt32: int := -0x8000_0000
  const MaxInt32: int := 0x7FFF_FFFF

  /** The values of a Java `int`. */
  type int32 = x: int | -0x8000_0000 <= x < 0x8000_0000

  /** The two's-complement wrap-around Java applies to every `int` result. */
  function Wrap32(x: int): (r: int32)
    ensures MinInt32 <= x <= MaxInt32 ==> r == x
    ensures (x - r) % 0x1_0000_0000 == 0
  {
    (x + 0x8000_0000) % 0x1_0000_0000 - 0x8000_0000
  }

  /** Java's `a * b` on two `int` operands. */
  function Mul32(a: int32, b: int32): (r: int32)
    ensures MinInt32 <= a * b <= MaxInt32 ==> r == a * b
    ensures (a * b - r) % 0x1_0000_0000 == 0
  {
    Wrap32(a * b)
  }

  predicate IsDigit(c: char) {
    '0' <= c <= '9'
  }

  predicate AllDigits(s: string) {
    forall i :: 0 <= i < |s| ==> IsDigit(s[i])
  }

  function DigitChar(d: int): (c: char)
    requires 0 <= d < 10
    ensures IsDigit(c)
  {
    ('0' as int + d) as char
  }

  function DigitValue(c: char): (d: nat)
    requires IsDigit(c)
    ensures d < 10 && DigitChar(d) == c
  {
    c as int - '0' as int
  }

  /** `Integer.toString(n)` for a non-negative `n`: decimal, no leading zero. */
  function NatToString(n: nat): (s: string)
    ensures 1 <= |s| && AllDigits(s)
    ensures s[0] == '0' ==> n == 0
    ensures n < 10 <==> |s| == 1
  {
    if n < 10 then [DigitChar(n)] else NatToString(n / 10) + [DigitChar(n % 10)]
  }

  /** `Integer.toString(x)`: a minus sign in front of the magnitude of a negative value. */
  function IntToString(x: int): string {
    if x < 0 then "-" + NatToString(-x) else NatToString(x)
  }

  /** The value of a string of decimal digits, leading zeros allowed. */
  function DigitsValue(s: string): nat
    requires AllDigits(s)
  {
    if |s| == 0 then 0 else DigitsValue(s[..|s| - 1]) * 10 + DigitValue(s[|s| - 1])
  }

  /** A non-empty run of decimal digits whose value does not exceed `limit`. */
  function Magnitude(s: string, limit: nat): (r: Option<nat>)
    ensures r.Some? ==> r.value <= limit
  {
    if |s| > 0 && AllDigits(s) && DigitsValue(s) <= limit then Some(DigitsValue(s)) else None
  }

  /** `Integer.valueOf(s)` (radix 10): an optional sign followed by at least one
      digit, with the value in the `int` range; `None` stands for the
      `NumberFormatException` thrown otherwise. */
  function ParseInt(s: string): (r: Option<int32>)
    ensures r.Some? ==> 0 < |s| && forall i :: 1 <= i < |s| ==> IsDigit(s[i])
    ensures r.Some? ==> IsDigit(s[|s| - 1])
    ensures r.Some? && r.value < 0 ==> s[0] == '-'
    ensures r.Some? && s[0] != '-' && s[0] != '+' ==> IsDigit(s[0])
  {
    if |s| == 0 then None
    else if s[0] == '-' then
      match Magnitude(s[1..], 0x8000_0000)
      case Some(m) => Some(0 - m)
      case None => None
    else if s[0] == '+' then
      match Magnitude(s[1..], MaxInt32)
      case Some(m) => Some(m)
      case None => None
    else
      match Magnitude(s, MaxInt32)
      case Some(m) => Some(m)
      case None => None
  }

  /** Reading back the decimal rendering of a number gives the number. */
  lemma {:induction false} DigitsValueOfNatToString(n: nat)
    ensures DigitsValue(NatToString(n)) == n
  {
    if n >= 10 {
      var s := NatToString(n);
      assert s[..|s| - 1] == NatToString(n / 10);
      DigitsValueOfNatToString(n / 10);
    }
  }

  /** Distinct numbers have distinct decimal renderings. */
  lemma {:induction false} NatToStringInjective(a: nat, b: nat)
    requires NatToString(a) == NatToString(b)
    ensures a == b
  {
    var s := NatToString(a);
    if 10 <= a {
      assert s[..|s| - 1] == NatToString(a / 10) && s[|s| - 1] == DigitChar(a % 10);
      assert s[..|s| - 1] == NatToString(b / 10) && s[|s| - 1] == DigitChar(b % 10);
      assert DigitValue(DigitChar(a % 10)) == a % 10;
      NatToStringInjective(a / 10, b / 10);
    }
  }

  /** `Integer.valueOf(Integer.toString(x)) == x` for every `int`. */
  lemma ParseIntOfIntToString(x: int32)
    ensures ParseInt(IntToString(x)) == Some(x)
  {
    if x < 0 {
      var m: nat := -(x as int);
      var s := IntToString(x);
      assert s[0] == '-' && s[1..] == NatToString(m);
      DigitsValueOfNatToString(m);
      assert Magnitude(s[1..], 0x8000_0000) == Some(m);
    } else {
      var s := NatToString(x);
      assert IsDigit(s[0]);
      DigitsValueOfNatToString(x);
      assert Magnitude(s, MaxInt32) == Some(x);
    }
  }

  /** The value an optional minus sign and a run of digits denote. */
  function Signed(negative: bool, d: string): int
    requires AllDigits(d)
  {
    var v: int := DigitsValue(d);
    if negative then -v else v
  }

  /** `Integer.valueOf` accepts a sign (`-`, `+` or none) followed by a
      non-empty run of digits, leading zeros included, exactly when the
      value fits in an `int`, and then yields that value. */
  lemma ParseIntSignedDigits(sign: string, d: string)
    requires sign == "" || sign == "-" || sign == "+"
    requires |d| > 0 && AllDigits(d)
    ensures ParseInt(sign + d).Some? <==> MinInt32 <= Signed(sign == "-", d) <= MaxInt32
    ensures ParseInt(sign + d).Some? ==> ParseInt(sign + d).value == Signed(sign == "-", d)
  {
    var s := sign + d;
    if sign == "" {
      assert s == d && IsDigit(d[0]);
    } else {
      assert s[0] == sign[0] && s[1..] == d;
    }
  }

  /** Conversely, whatever `Integer.valueOf` accepts is such a sign and digit
      run, and the result is its value. */
  lemma ParseIntAccepted(s: string)
    requires ParseInt(s).Some?
    ensures |s| > 0
    ensures var sign := if s[0] == '-' || s[0] == '+' then s[..1] else "";
      && s == sign + s[|sign|..]
      && |s[|sign|..]| > 0 && AllDigits(s[|sign|..])
      && ParseInt(s).value == Signed(sign == "-", s[|sign|..])
  {
  }

  /** Known answers: a plus sign and leading zeros are accepted; an empty
      string, a lone sign and a non-digit are not. */
  lemma ParseIntExamples()
    ensures ParseInt("+60") == Some(60) && ParseInt("0060") == Some(60) && ParseInt("-007") == Some(-7)
    ensures ParseInt("") == None && ParseInt("-") == None && ParseInt("+") == None && ParseInt("6O") == None
  {
    DigitsValueExamples();
    ParseIntSignedDigits("+", "60");
    ParseIntSignedDigits("", "0060");
    ParseIntSignedDigits("-", "007");
    assert "+" + "60" == "+60" && "" + "0060" == "0060" && "-" + "007" == "-007";
    assert !IsDigit("6O"[1]);
  }

  lemma DigitsValueExamples()
    ensures AllDigits("60") && DigitsValue("60") == 60
    ensures AllDigits("0060") && DigitsValue("0060") == 60
    ensures AllDigits("007") && DigitsValue("007") == 7
  {
    assert "60"[..1] == "6" && "0060"[..3] == "006" && "006"[..2] == "00";
    assert "00"[..1] == "0" && "007"[..2] == "00" && "0"[..0] == "" && "6"[..0] == "";
  }
}
