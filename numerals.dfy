/** Decimal digit strings, `Integer.parseInt(String)` and `String.valueOf(int)`. */
module Numerals {
  import opened Wrappers

  /** The range of a Java `int`. */
  const INT_MIN: int := -0x8000_0000
  const INT_MAX: int := 0x7fff_ffff

  predicate IsInt32(n: int) { INT_MIN <= n <= INT_MAX }

  predicate IsDigit(c: char) { '0' <= c <= '9' }

  predicate IsDigits(s: string) { forall i :: 0 <= i < |s| ==> IsDigit(s[i]) }

  function DigitValue(c: char): (d: nat)
    requires IsDigit(c)
    ensures d < 10
  {
    c as int - '0' as int
  }

  function DigitChar(d: nat): (c: char)
    requires d < 10
    ensures IsDigit(c) && DigitValue(c) == d
  {
    (d + '0' as int) as char
  }

  /** The number a string of decimal digits denotes, most significant digit first. */
  function DigitsValue(s: string): nat
    requires IsDigits(s)
  {
    if s == [] then 0 else 10 * DigitsValue(s[..|s| - 1]) + DigitValue(s[|s| - 1])
  }

  function Pow10(n: nat): (r: nat)
    ensures r >= 1
  {
    if n == 0 then 1 else 10 * Pow10(n - 1)
  }

  lemma {:induction false} Pow10Add(a: nat, b: nat)
    ensures Pow10(a + b) == Pow10(a) * Pow10(b)
  {
    if b > 0 {
      Pow10Add(a, b - 1);
      assert Pow10(a + b) == 10 * Pow10(a + b - 1);
    }
  }

  lemma DigitsAppend(x: string, y: string)
    requires IsDigits(x) && IsDigits(y)
    ensures IsDigits(x + y)
  {
    var xy := x + y;
    forall i | 0 <= i < |xy| ensures IsDigit(xy[i]) {
      if i < |x| { assert xy[i] == x[i]; } else { assert xy[i] == y[i - |x|]; }
    }
  }

  lemma ShiftedDigits(v: int, v': int, a: int, p: int, p': int, b: int, b': int, d: int)
    requires v == 10 * v' + d && v' == a * p' + b' && p == 10 * p' && b == 10 * b' + d
    ensures v == a * p + b
  {
  }

  /** Reading the digits of `x + y` is reading `x`, shifting by `|y|` places, and adding `y`. */
  lemma {:induction false} DigitsValueAppend(x: string, y: string)
    requires IsDigits(x) && IsDigits(y)
    ensures IsDigits(x + y)
    ensures DigitsValue(x + y) == DigitsValue(x) * Pow10(|y|) + DigitsValue(y)
  {
    DigitsAppend(x, y);
    if y == [] {
      assert x + y == x;
    } else {
      var y' := y[..|y| - 1];
      assert IsDigits(y');
      assert (x + y)[..|x + y| - 1] == x + y';
      DigitsValueAppend(x, y');
      ShiftedDigits(DigitsValue(x + y), DigitsValue(x + y'), DigitsValue(x), Pow10(|y|), Pow10(|y'|),
        DigitsValue(y), DigitsValue(y'), DigitValue(y[|y| - 1]));
    }
  }

  /** The shortest decimal spelling of `n`: no leading zero except for `n == 0` itself. */
  function NatToDigits(n: nat): (r: string)
    ensures IsDigits(r) && |r| >= 1
    ensures DigitsValue(r) == n
    ensures |r| > 1 ==> r[0] != '0'
  {
    if n < 10 then [DigitChar(n)]
    else
      var prefix := NatToDigits(n / 10);
      var r := prefix + [DigitChar(n % 10)];
      assert r[..|r| - 1] == prefix;
      r
  }

  /** `String.valueOf(int)`: a minus sign for negative numbers, then the shortest digits. */
  function IntToString(n: int): (r: string)
    ensures |r| >= 1
    ensures (r[0] == '-') <==> n < 0
  {
    if n < 0 then "-" + NatToDigits(-n) else NatToDigits(n)
  }

  /** `Integer.parseInt(String)`: an optional `+` or `-`, then one or more digits, and the
      value must fit in an `int`; anything else is a `NumberFormatException` (`None`). */
  function ParseInt(s: string): (r: Option<int>)
    ensures r.Some? ==> IsInt32(r.value)
  {
    if |s| > 0 && (s[0] == '-' || s[0] == '+') then
      var digits := s[1..];
      if digits != [] && IsDigits(digits) then
        var v: int := if s[0] == '-' then -(DigitsValue(digits) as int) else DigitsValue(digits);
        if IsInt32(v) then Some(v) else None
      else None
    else if s != [] && IsDigits(s) && DigitsValue(s) <= INT_MAX then Some(DigitsValue(s))
    else None
  }

  /** Parsing inverts printing on every `int`. */
  lemma ParseIntToString(n: int)
    requires IsInt32(n)
    ensures ParseInt(IntToString(n)) == Some(n)
  {
    var s := IntToString(n);
    if n < 0 {
      assert s[1..] == NatToDigits(-n);
    } else {
      assert s[0] != '-' && s[0] != '+' by { assert IsDigit(s[0]); }
    }
  }

  /** A string with anything but a sign and digits never parses, and a parsed value
      is the value of its digits with the sign applied. */
  lemma ParseIntShape(s: string)
    requires ParseInt(s).Some?
    ensures |s| >= 1
    ensures s[0] == '-' ==> |s| >= 2 && IsDigits(s[1..]) && ParseInt(s).value == -(DigitsValue(s[1..]) as int)
    ensures s[0] == '+' ==> |s| >= 2 && IsDigits(s[1..]) && ParseInt(s).value == DigitsValue(s[1..])
    ensures s[0] != '-' && s[0] != '+' ==> IsDigits(s) && ParseInt(s).value == DigitsValue(s)
  {
  }
}
