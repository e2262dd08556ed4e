/**
 * Decimal text of integers as Swift produces and reads it: string
 * interpolation `"\(n)"` renders an `Int`, and `Int(_: String)` parses one.
 * The comic image file names and the date components of a comic both go
 * through these two conversions.
 */
module Decimal {
  import opened Wrappers

  /** The range of Swift's 64-bit `Int`. */
  const Int64Min: int := -0x8000_0000_0000_0000
  const Int64Max: int := 0x7FFF_FFFF_FFFF_FFFF

  predicate IsDigit(c: char) {
    '0' <= c <= '9'
  }

  predicate AllDigits(s: string) {
    forall i :: 0 <= i < |s| ==> IsDigit(s[i])
  }

  function DigitValue(c: char): (d: nat)
    requires IsDigit(c)
    ensures d < 10
  {
    c as int - '0' as int
  }

  function DigitChar(d: nat): (c: char)
    requires d < 10
    ensures IsDigit(c) && DigitValue(c) == d
  {
    (d + '0' as int) as char
  }

  /** The digits of `n`, most significant first, without leading zeros. */
  function Digits(n: nat): (s: string)
    ensures |s| > 0 && AllDigits(s)
    ensures |s| > 1 ==> s[0] != '0'
    decreases n
  {
    if n < 10 then [DigitChar(n)] else Digits(n / 10) + [DigitChar(n % 10)]
  }

  /** `"\(n)"`: a minus sign for negative numbers, then the digits. */
  function Render(n: int): string {
    if n < 0 then "-" + Digits(-n) else Digits(n)
  }

  /** The value of a run of digits read most significant first. */
  function DigitsValue(s: string): nat
    requires AllDigits(s)
  {
    if s == [] then 0 else DigitsValue(s[..|s| - 1]) * 10 + DigitValue(s[|s| - 1])
  }

  /** An optional sign followed by at least one digit and nothing else, of any magnitude. */
  function ParseInteger(s: string): Option<int> {
    if |s| > 1 && s[0] == '-' && AllDigits(s[1..]) then Some(-(DigitsValue(s[1..]) as int))
    else if |s| > 1 && s[0] == '+' && AllDigits(s[1..]) then Some(DigitsValue(s[1..]))
    else if |s| > 0 && AllDigits(s) then Some(DigitsValue(s))
    else None
  }

  /** `Int(s)`: `ParseInteger`, and nil when the value does not fit in 64 bits. */
  function ParseInt(s: string): Option<int> {
    match ParseInteger(s)
    case Some(v) => if Int64Min <= v <= Int64Max then Some(v) else None
    case None => None
  }

  /** `s` without its leading sign, if it has one. */
  function Unsigned(s: string): (u: string)
    ensures |u| <= |s| && u == s[|s| - |u|..]
  {
    if |s| > 0 && (s[0] == '+' || s[0] == '-') then s[1..] else s
  }

  /** The text of an integer: an optional `+` or `-`, then one or more ASCII digits. */
  predicate IsIntegerText(s: string) {
    |Unsigned(s)| > 0 && AllDigits(Unsigned(s))
  }

  /** The value integer text denotes: its digits' value, negated after a `-`. */
  function TextValue(s: string): int
    requires IsIntegerText(s)
  {
    var magnitude: int := DigitsValue(Unsigned(s));
    if s[0] == '-' then -magnitude else magnitude
  }

  /**
   * `Int(s)` accepts exactly the integer texts whose value fits in 64 bits,
   * and yields that value.
   */
  lemma ParseIntAcceptsIntegerText(s: string)
    ensures ParseInt(s).Some? <==> IsIntegerText(s) && Int64Min <= TextValue(s) <= Int64Max
    ensures ParseInt(s).Some? ==> ParseInt(s).value == TextValue(s)
  {
  }

  /** A date component as the API sends it, with leading zeros, with a `+` and with a `-`, is accepted. */
  lemma ParseIntAcceptsExamples()
    ensures ParseInt("2020") == Some(2020) && ParseInt("+007") == Some(7) && ParseInt("-12") == Some(-12)
  {
    assert "2"[..0] == "" && DigitsValue("2") == 2;
    assert "20"[..1] == "2" && DigitsValue("20") == 20;
    assert "202"[..2] == "20" && DigitsValue("202") == 202;
    assert "2020"[..3] == "202" && DigitsValue("2020") == 2020;
    assert "0"[..0] == "" && DigitsValue("0") == 0;
    assert "00"[..1] == "0" && DigitsValue("00") == 0;
    assert "007"[..2] == "00" && DigitsValue("007") == 7;
    assert "+007"[1..] == "007";
    assert "1"[..0] == "" && DigitsValue("1") == 1;
    assert "12"[..1] == "1" && DigitsValue("12") == 12;
    assert "-12"[1..] == "12";
  }

  /** An empty text, a lone sign and stray characters are rejected. */
  lemma ParseIntRejectsExamples()
    ensures ParseInt("") == None && ParseInt("-") == None && ParseInt("1a") == None && ParseInt(" 1") == None
  {
    assert !IsDigit("1a"[1]) && !IsDigit(" 1"[0]);
  }

  lemma {:induction false} DigitsRoundTrip(n: nat)
    ensures DigitsValue(Digits(n)) == n
    decreases n
  {
    if n >= 10 {
      var s := Digits(n);
      assert s[..|s| - 1] == Digits(n / 10);
      DigitsRoundTrip(n / 10);
    }
  }

  /** Reading back what `Render` wrote gives the number again. */
  lemma RenderRoundTrip(n: int)
    ensures ParseInteger(Render(n)) == Some(n)
  {
    var s := Render(n);
    if n < 0 {
      var d := Digits(-n);
      assert s == "-" + d;
      assert s[1..] == d;
      assert |s| > 1 && s[0] == '-';
      DigitsRoundTrip(-n);
      assert ParseInteger(s) == Some(-(DigitsValue(d) as int));
    } else {
      assert s == Digits(n);
      assert IsDigit(s[0]);
      DigitsRoundTrip(n);
    }
  }

  /** `Int("\(n)") == n` for every `n` that an `Int` can hold. */
  lemma ParseIntRoundTrip(n: int)
    requires Int64Min <= n <= Int64Max
    ensures ParseInt(Render(n)) == Some(n)
  {
    RenderRoundTrip(n);
  }

  /** Distinct numbers are rendered as distinct strings. */
  lemma RenderInjective(a: int, b: int)
    requires Render(a) == Render(b)
    ensures a == b
  {
    RenderRoundTrip(a);
    RenderRoundTrip(b);
  }
}
