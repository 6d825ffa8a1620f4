/**
 * The two conversions between integers and text that the leaderboard relies
 * on: JavaScript's `parseInt` with the default radix on decimal input, and
 * the decimal rendering of an integer (`String(n)`, template literals, React
 * text nodes).
 */
module JsNumber {
  import opened Wrappers
  import opened Text

  predicate IsDigit(c: char) {
    '0' <= c <= '9'
  }

  predicate AllDigits(s: string) {
    forall i :: 0 <= i < |s| ==> IsDigit(s[i])
  }

  /** The value of a decimal digit (0 for any other character, which the
      parser never asks about). */
  function DigitValue(c: char): nat {
    if IsDigit(c) then c as int - '0' as int else 0
  }

  function DigitChar(d: nat): (c: char)
    requires d < 10
    ensures IsDigit(c) && DigitValue(c) == d
  {
    ('0' as int + d) as char
  }

  /** The number a run of decimal digits denotes, most significant first. */
  function DigitsValue(ds: string): nat {
    if ds == [] then 0 else 10 * DigitsValue(ds[..|ds| - 1]) + DigitValue(ds[|ds| - 1])
  }

  /** Length of the longest prefix of s made of decimal digits. */
  function DigitRun(s: string): (n: nat)
    ensures n <= |s|
    ensures n < |s| ==> !IsDigit(s[n])
  {
    if s != [] && IsDigit(s[0]) then 1 + DigitRun(s[1..]) else 0
  }

  /** Decimal digits of n, without leading zeros. */
  function NatToString(n: nat): (r: string)
    ensures |r| >= 1
  {
    if n < 10 then [DigitChar(n)] else NatToString(n / 10) + [DigitChar(n % 10)]
  }

  /** `String(n)` for an integer n. */
  function IntToString(n: int): (r: string)
  {
    if n < 0 then "-" + NatToString(-n) else NatToString(n)
  }

  /** The number at the start of body: None when body does not start with a digit. */
  function ParseDigits(body: string): Option<int> {
    var n := DigitRun(body);
    if n == 0 then None else Some(DigitsValue(body[..n]))
  }

  function Negate(v: Option<int>): Option<int> {
    match v
    case None => None
    case Some(x) => Some(-x)
  }

  /** `parseInt(s)` with the default radix, for decimal input: skip leading
      white space, take an optional sign, then the longest run of digits.
      None stands for NaN, the result when there is no digit. */
  function ParseInt(s: string): Option<int> {
    var t := TrimStart(s);
    if t != [] && t[0] == '-' then Negate(ParseDigits(t[1..]))
    else if t != [] && t[0] == '+' then ParseDigits(t[1..])
    else ParseDigits(t)
  }

  /** `parseInt(s) || 0`: NaN (and zero) become 0. */
  function ParseIntOrZero(s: string): int {
    match ParseInt(s)
    case None => 0
    case Some(v) => v
  }

  /** Every character parseInt takes as part of the number is a digit. */
  lemma {:induction false} DigitRunDigits(s: string)
    ensures AllDigits(s[..DigitRun(s)])
  {
    if s != [] && IsDigit(s[0]) {
      DigitRunDigits(s[1..]);
      assert s[..DigitRun(s)] == [s[0]] + s[1..][..DigitRun(s[1..])];
    }
  }

  /** The decimal text of n is digits only, with no leading zero. */
  lemma {:induction false} NatToStringDigits(n: nat)
    ensures AllDigits(NatToString(n))
    ensures |NatToString(n)| > 1 ==> NatToString(n)[0] != '0'
  {
    if n >= 10 {
      NatToStringDigits(n / 10);
    }
  }

  lemma {:induction false} NatToStringValue(n: nat)
    ensures DigitsValue(NatToString(n)) == n
  {
    var r := NatToString(n);
    if n >= 10 {
      NatToStringValue(n / 10);
      assert r[..|r| - 1] == NatToString(n / 10);
    }
  }

  lemma {:induction false} DigitRunAll(s: string, rest: string)
    requires AllDigits(s)
    requires rest == [] || !IsDigit(rest[0])
    ensures DigitRun(s + rest) == |s|
    decreases |s|
  {
    if s != [] {
      assert (s + rest)[1..] == s[1..] + rest;
      DigitRunAll(s[1..], rest);
    }
  }

  lemma {:induction false} ParseDigitsOfDigits(digits: string, rest: string)
    requires digits != [] && AllDigits(digits)
    requires rest == [] || !IsDigit(rest[0])
    ensures ParseDigits(digits + rest) == Some(DigitsValue(digits))
  {
    DigitRunAll(digits, rest);
    assert (digits + rest)[..|digits|] == digits;
  }

  lemma {:induction false} ParseIntUnsigned(s: string)
    requires s != [] && IsDigit(s[0])
    ensures ParseInt(s) == ParseDigits(s)
  {
    assert TrimStart(s) == s;
  }

  lemma {:induction false} ParseIntNegative(a: string, b: string)
    requires a + b != []
    ensures ParseInt(['-'] + a + b) == Negate(ParseDigits(a + b))
  {
    var s := ['-'] + a + b;
    assert s[0] == '-' && s[1..] == a + b;
    assert TrimStart(s) == s;
  }

  lemma {:induction false} ParseDigitsOfNatToString(m: nat, rest: string)
    requires rest == [] || !IsDigit(rest[0])
    ensures ParseDigits(NatToString(m) + rest) == Some(m)
  {
    NatToStringDigits(m);
    ParseDigitsOfDigits(NatToString(m), rest);
    NatToStringValue(m);
  }

  lemma {:induction false} ParseIntOfNonNegative(n: int, rest: string)
    requires n >= 0
    requires rest == [] || !IsDigit(rest[0])
    ensures ParseInt(IntToString(n) + rest) == Some(n)
  {
    var s := NatToString(n) + rest;
    NatToStringDigits(n);
    assert IntToString(n) + rest == s && IsDigit(s[0]);
    ParseIntUnsigned(s);
    ParseDigitsOfNatToString(n, rest);
  }

  lemma {:induction false} ParseIntOfNegative(n: int, rest: string)
    requires n < 0
    requires rest == [] || !IsDigit(rest[0])
    ensures ParseInt(IntToString(n) + rest) == Some(n)
  {
    assert IntToString(n) == ['-'] + NatToString(-n);
    ParseIntNegative(NatToString(-n), rest);
    ParseDigitsOfNatToString(-n, rest);
  }

  /** parseInt reads back the decimal text of any integer, and stops at the
      first character after it that is not a digit. */
  lemma {:induction false} ParseIntOfIntToString(n: int, rest: string)
    requires rest == [] || !IsDigit(rest[0])
    ensures ParseInt(IntToString(n) + rest) == Some(n)
  {
    if n < 0 {
      ParseIntOfNegative(n, rest);
    } else {
      ParseIntOfNonNegative(n, rest);
    }
  }

  /** The special case used wherever parseInt is applied to a number. */
  lemma {:induction false} ParseIntOrZeroOfIntToString(n: int)
    ensures ParseIntOrZero(IntToString(n)) == n
  {
    ParseIntOfIntToString(n, []);
    assert IntToString(n) + [] == IntToString(n);
  }

  /** Text with no digit after the white space and the sign is NaN, so 0. */
  lemma {:induction false} ParseIntNoDigits(s: string)
    requires var t := TrimStart(s);
      t == [] || (!IsDigit(t[0]) && ((t[0] == '-' || t[0] == '+') ==> |t| == 1 || !IsDigit(t[1])))
    ensures ParseInt(s) == None && ParseIntOrZero(s) == 0
  {
  }

  /** Leading white space does not change the result. */
  lemma {:induction false} ParseIntSkipsSpace(c: char, s: string)
    requires IsJsSpace(c)
    ensures ParseInt([c] + s) == ParseInt(s)
  {
    assert ([c] + s)[1..] == s;
  }

  /** The strings parseInt meets in the leaderboard without a number in them. */
  lemma ParseIntOfEmptyAndUndefined()
    ensures ParseIntOrZero("") == 0
    ensures ParseIntOrZero("undefined") == 0
  {
    ParseIntNoDigits("");
    var u := "undefined";
    assert u[0] == 'u' && !IsJsSpace(u[0]);
    assert TrimStart(u) == u;
    ParseIntNoDigits(u);
  }
}
