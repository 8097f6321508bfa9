/** The part of `java.math.BigDecimal` the report uses: exact decimal numbers as an
    unscaled integer and a scale, addition, multiplication, `setScale(2, HALF_EVEN)`,
    `toString()` at scale 2, `equals`, and the `BigDecimal(String)` constructor. */
module Decimals {
  import opened Wrappers
  import opened Numerals
  import opened Text

  /** The number `unscaled × 10^(-scale)`. Like `BigDecimal.equals`, datatype equality
      compares both parts, so `Decimal(20, 1)` (2.0) and `Decimal(200, 2)` (2.00) differ. */
  datatype Decimal = Decimal(unscaled: int, scale: int)

  /** `BigDecimal.ZERO` */
  const ZERO: Decimal := Decimal(0, 0)

  /** `BigDecimal.ONE.negate()`, the sentinel for a missing price */
  const MINUS_ONE: Decimal := Decimal(-1, 0)

  function Max(a: int, b: int): int { if a >= b then a else b }

  /** `x × 10^e`: the number `x` with its decimal point moved `e` places, one place at a time. */
  ghost function Shift(x: real, e: int): real
    decreases if e >= 0 then e else -e
  {
    if e == 0 then x
    else if e > 0 then 10.0 * Shift(x, e - 1)
    else Shift(x, e + 1) / 10.0
  }

  /** The number a decimal denotes: `unscaled × 10^(-scale)`. */
  ghost function Value(d: Decimal): real
  {
    Shift(d.unscaled as real, -d.scale)
  }

  /** One more place to the left is ten times as much, whatever the sign of `e`. */
  lemma ShiftStep(x: real, e: int)
    ensures Shift(x, e + 1) == 10.0 * Shift(x, e)
  {
  }

  /** Moving the point commutes with multiplying by ten. */
  lemma {:induction false} ShiftTimesTen(x: real, e: int)
    ensures Shift(10.0 * x, e) == 10.0 * Shift(x, e)
    decreases if e >= 0 then e else -e
  {
    if e > 0 {
      ShiftTimesTen(x, e - 1);
    } else if e < 0 {
      ShiftTimesTen(x, e + 1);
    }
  }

  /** Moving the point is additive. */
  lemma {:induction false} ShiftAdd(x: real, y: real, e: int)
    ensures Shift(x + y, e) == Shift(x, e) + Shift(y, e)
    decreases if e >= 0 then e else -e
  {
    if e > 0 {
      ShiftAdd(x, y, e - 1);
    } else if e < 0 {
      ShiftAdd(x, y, e + 1);
    }
  }

  // Steps of real arithmetic over plain variables, stated apart so that the proofs about
  // decimals below can cite each step by name.

  lemma CastMul(x: int, y: int)
    ensures (x * y) as real == x as real * y as real
  {}

  lemma TenfoldFactor(z: real, z': real, a: real, a': real, b: real)
    requires z == 10.0 * z' && a == 10.0 * a' && z' == a' * b
    ensures z == a * b
  {}

  lemma TenthFactor(z: real, z': real, a: real, a': real, b: real)
    requires z == z' / 10.0 && a == a' / 10.0 && z' == a' * b
    ensures z == a * b
  {}

  lemma TenthOfQuotient(z: real, z': real, x: real, p: real)
    requires p > 0.0 && z == z' / 10.0 && z' == x / p
    ensures z == x / (10.0 * p)
  {}

  lemma PositiveProduct(a: real, k: real)
    requires a > 0.0 && k > 0.0
    ensures a * k > 0.0
  {}

  lemma SignOfFactor(a: real, k: real, p: real)
    requires k > 0.0 && a * k == p
    ensures (p > 0.0 ==> a > 0.0) && (p < 0.0 ==> a < 0.0) && (p == 0.0 ==> a == 0.0)
  {
    if a > 0.0 { PositiveProduct(a, k); } else if a < 0.0 { PositiveProduct(-a, k); }
  }

  /** Where a fraction `f = r / k` lies relative to one half. */
  lemma FractionAgainstHalf(f: real, r: real, k: real)
    requires k > 0.0 && 0.0 <= r < k && f * k == r
    ensures 0.0 <= f < 1.0
    ensures (2.0 * r < k ==> f < 0.5) && (2.0 * r > k ==> f > 0.5) && (2.0 * r == k ==> f == 0.5)
  {
    SignOfFactor(f, k, r);
    SignOfFactor(f - 1.0, k, r - k);
    SignOfFactor(f - 0.5, k, r - 0.5 * k);
  }

  lemma QuotientSplit(x: real, u: real, q: real, r: real, k: real)
    requires k != 0.0 && u == q * k + r && x == u / k
    ensures x == q + r / k && (r / k) * k == r
  {}

  /** The product `x × y` as a named term: the product lemmas state their results with it. */
  ghost function Times(x: real, y: real): real
  {
    x * y
  }

  lemma TimesIs(a: real, b: real, p: real)
    requires p == a * b
    ensures Times(a, b) == p
  {
  }

  lemma ShiftSame(x: real, x': real, e: int, e': int)
    requires x == x' && e == e'
    ensures Shift(x, e) == Shift(x', e')
  {
  }

  lemma Distribute(total: real, x: real, y: real, a: real, m: real, sum: real, rate: real)
    requires total == x + y && x == a * rate && y == m * rate && sum == a + m
    ensures total == sum * rate
  {}

  /** Moving the point distributes over a product: `x × 10^e` times `y × 10^f` is
      `(x × y) × 10^(e + f)`. */
  lemma ShiftProduct(x: real, e: int, y: real, f: int)
    ensures Shift(x * y, e + f) == Shift(x, e) * Shift(y, f)
  {
    if e >= 0 {
      ShiftProductUpward(x, e, y, f);
    } else {
      ShiftProductDownward(x, e, y, f);
    }
  }

  lemma {:induction false} ShiftProductUpward(x: real, e: nat, y: real, f: int)
    ensures Shift(x * y, e + f) == Shift(x, e) * Shift(y, f)
  {
    if e == 0 {
      ShiftOfMultiple(x, y, f);
    } else {
      ShiftProductUpward(x, e - 1, y, f);
      ShiftProductUp(x * y, x, e, y, f);
    }
  }

  lemma {:induction false} ShiftProductDownward(x: real, e: int, y: real, f: int)
    requires e < 0
    ensures Shift(x * y, e + f) == Shift(x, e) * Shift(y, f)
    decreases -e
  {
    if e == -1 {
      ShiftOfMultiple(x, y, f);
    } else {
      ShiftProductDownward(x, e + 1, y, f);
    }
    ShiftProductDown(x * y, x, e, y, f);
  }

  lemma ShiftProductUp(p: real, x: real, e: int, y: real, f: int)
    requires e > 0 && Shift(p, e - 1 + f) == Shift(x, e - 1) * Shift(y, f)
    ensures Shift(p, e + f) == Shift(x, e) * Shift(y, f)
  {
    ShiftStep(p, e - 1 + f);
    TenfoldFactor(Shift(p, e + f), Shift(p, e - 1 + f), Shift(x, e), Shift(x, e - 1), Shift(y, f));
  }

  lemma ShiftProductDown(p: real, x: real, e: int, y: real, f: int)
    requires e < 0 && Shift(p, e + 1 + f) == Shift(x, e + 1) * Shift(y, f)
    ensures Shift(p, e + f) == Shift(x, e) * Shift(y, f)
  {
    ShiftStep(p, e + f);
    TenthFactor(Shift(p, e + f), Shift(p, e + 1 + f), Shift(x, e), Shift(x, e + 1), Shift(y, f));
  }

  /** A constant factor can be taken out of a shift. */
  lemma {:induction false} ShiftOfMultiple(c: real, y: real, f: int)
    ensures Shift(c * y, f) == c * Shift(y, f)
    decreases if f >= 0 then f else -f
  {
    if f > 0 {
      ShiftOfMultiple(c, y, f - 1);
      TenfoldFactor(Shift(c * y, f), Shift(c * y, f - 1), Shift(y, f), Shift(y, f - 1), c);
    } else if f < 0 {
      ShiftOfMultiple(c, y, f + 1);
      TenthFactor(Shift(c * y, f), Shift(c * y, f + 1), Shift(y, f), Shift(y, f + 1), c);
    }
  }

  /** Moving the point `n` places to the right divides by `10^n`. */
  lemma {:induction false} ShiftDown(x: real, n: nat)
    ensures Shift(x, -(n as int)) == x / Pow10(n) as real
  {
    if n > 0 {
      ShiftDown(x, n - 1);
      TenthOfQuotient(Shift(x, -(n as int)), Shift(x, -(n as int) + 1), x, Pow10(n - 1) as real);
    }
  }

  /** A number of hundredths, times one hundred. */
  lemma Hundredths(x: real)
    ensures Shift(x, -2) * 100.0 == x
  {
    assert Shift(x, -1) == x / 10.0;
  }

  /** `u` with `k` zeros appended. */
  function AppendZeros(u: int, k: nat): int
  {
    if k == 0 then u else 10 * AppendZeros(u, k - 1)
  }

  /** Appending `k` zeros to the unscaled value and adding `k` to the scale keeps the value. */
  lemma {:induction false} Rescale(u: int, s: int, k: nat)
    ensures Value(Decimal(AppendZeros(u, k), s + k)) == Value(Decimal(u, s))
  {
    if k > 0 {
      Rescale(u, s, k - 1);
      var a := AppendZeros(u, k - 1) as real;
      ShiftTimesTen(a, -(s + k));
      ShiftStep(a, -(s + k));
    }
  }

  /** `a.add(b)`: the sum of the unscaled values, both first brought to the larger scale. */
  function Add(a: Decimal, b: Decimal): (r: Decimal)
    ensures r.scale == Max(a.scale, b.scale)
  {
    var s := Max(a.scale, b.scale);
    Decimal(AppendZeros(a.unscaled, s - a.scale) + AppendZeros(b.unscaled, s - b.scale), s)
  }

  /** The sum is exact. */
  lemma AddValue(a: Decimal, b: Decimal)
    ensures Value(Add(a, b)) == Value(a) + Value(b)
  {
    var s := Max(a.scale, b.scale);
    var x, y := AppendZeros(a.unscaled, s - a.scale), AppendZeros(b.unscaled, s - b.scale);
    Rescale(a.unscaled, a.scale, s - a.scale);
    Rescale(b.unscaled, b.scale, s - b.scale);
    ShiftAdd(x as real, y as real, -s);
  }

  /** `a.multiply(b)`: the product of the unscaled values; the scales add. */
  function Multiply(a: Decimal, b: Decimal): (r: Decimal)
    ensures r.scale == a.scale + b.scale
  {
    Decimal(a.unscaled * b.unscaled, a.scale + b.scale)
  }

  /** The product is exact. */
  lemma MultiplyValue(a: Decimal, b: Decimal)
    ensures Value(Multiply(a, b)) == Value(a) * Value(b)
  {
    ProductCast(a, b);
    ValueOfProduct(a.unscaled, a.scale, b.unscaled, b.scale, Multiply(a, b).unscaled);
  }

  /** Adding a product to a total adds its exact value. */
  lemma AddProductValue(total: Decimal, m: Decimal, rate: Decimal)
    ensures Value(Add(total, Multiply(m, rate))) == Value(total) + Value(m) * Value(rate)
  {
    AddValue(total, Multiply(m, rate));
    MultiplyValue(m, rate);
  }

  lemma ExactStep(x: Decimal, l: Decimal, m: Decimal, rate: Decimal, before: real, after: real)
    requires x == Add(l, Multiply(m, rate)) && Value(l) == before
    requires after == before + Value(m) * Value(rate)
    ensures Value(x) == after
  {
    AddProductValue(l, m, rate);
  }

  lemma ProductCast(a: Decimal, b: Decimal)
    ensures Multiply(a, b).unscaled as real == a.unscaled as real * b.unscaled as real
    ensures Multiply(a, b) == Decimal(Multiply(a, b).unscaled, a.scale + b.scale)
  {
    CastMul(a.unscaled, b.unscaled);
  }

  /** The value of a product of unscaled values at the sum of the scales. */
  lemma ValueOfProduct(u: int, s: int, v: int, t: int, w: int)
    requires w as real == u as real * v as real
    ensures Value(Decimal(w, s + t)) == Times(Value(Decimal(u, s)), Value(Decimal(v, t)))
  {
    ShiftOfProduct(u as real, s, v as real, t, w as real);
  }

  lemma ShiftOfProduct(x: real, s: int, y: real, t: int, z: real)
    requires z == x * y
    ensures Shift(z, -(s + t)) == Times(Shift(x, -s), Shift(y, -t))
  {
    ShiftProduct(x, -s, y, -t);
    ShiftSame(z, x * y, -(s + t), -s + -t);
    TimesIs(Shift(x, -s), Shift(y, -t), Shift(x * y, -s + -t));
  }

  /** The HALF_EVEN rule for rounding `x` to the integer `q`: `q` is the nearest integer,
      and the even one of the two when `x` lies exactly half-way between them. */
  ghost predicate RoundsHalfEven(x: real, q: int)
  {
    var err := if q as real >= x then q as real - x else x - q as real;
    err < 0.5 || (err == 0.5 && q % 2 == 0)
  }

  /** At most one integer rounds `x` under HALF_EVEN. */
  lemma RoundsHalfEvenUnique(x: real, p: int, q: int)
    requires RoundsHalfEven(x, p) && RoundsHalfEven(x, q)
    ensures p == q
  {
  }

  /** Dividing `u` by `k` and rounding the quotient HALF_EVEN, from the floor quotient and remainder. */
  function DivideHalfEven(u: int, k: nat): (n: int)
    requires k >= 1
    ensures RoundsHalfEven(u as real / k as real, n)
  {
    var q, rem := u / k, u % k;
    var n := if 2 * rem < k then q else if 2 * rem > k then q + 1 else if q % 2 == 0 then q else q + 1;
    CastMul(q, k);
    QuotientSplit(u as real / k as real, u as real, q as real, rem as real, k as real);
    FractionAgainstHalf(rem as real / k as real, rem as real, k as real);
    n
  }

  /** A decimal with at most two fraction digits, written in hundredths. */
  lemma HundredthsExact(d: Decimal)
    requires d.scale <= 2
    ensures Value(Decimal(AppendZeros(d.unscaled, 2 - d.scale), 2)) == Value(d)
    ensures Value(d) * 100.0 == AppendZeros(d.unscaled, 2 - d.scale) as real
  {
    Rescale(d.unscaled, d.scale, 2 - d.scale);
    Hundredths(AppendZeros(d.unscaled, 2 - d.scale) as real);
  }

  /** A decimal with more than two fraction digits, in hundredths: a quotient. */
  lemma HundredthsOfQuotient(d: Decimal)
    requires d.scale > 2
    ensures Value(d) * 100.0 == d.unscaled as real / Pow10(d.scale - 2) as real
  {
    var x := d.unscaled as real;
    ShiftStep(x, -d.scale);
    ShiftStep(x, -d.scale + 1);
    ShiftDown(x, d.scale - 2);
  }

  /** `d.setScale(2, RoundingMode.HALF_EVEN)`: appends zeros when `d` has at most two fraction
      digits, otherwise divides by a power of ten and rounds the quotient HALF_EVEN. */
  function SetScale2(d: Decimal): (r: Decimal)
    ensures r.scale == 2
  {
    if d.scale <= 2 then Decimal(AppendZeros(d.unscaled, 2 - d.scale), 2)
    else Decimal(DivideHalfEven(d.unscaled, Pow10(d.scale - 2)), 2)
  }

  /** The result is the number of cents nearest to `d`, the even one on an exact tie, and is
      exact (no rounding) when `d` has at most two fraction digits. */
  lemma SetScale2Value(d: Decimal)
    ensures RoundsHalfEven(Value(d) * 100.0, SetScale2(d).unscaled)
    ensures d.scale <= 2 ==> Value(SetScale2(d)) == Value(d)
  {
    if d.scale <= 2 {
      HundredthsExact(d);
    } else {
      HundredthsOfQuotient(d);
    }
  }

  /** Rounding depends only on the number, not on its scale. */
  lemma SetScale2ByValue(a: Decimal, b: Decimal)
    requires Value(a) == Value(b)
    ensures SetScale2(a) == SetScale2(b)
  {
    SetScale2Value(a);
    SetScale2Value(b);
    RoundsHalfEvenUnique(Value(a) * 100.0, SetScale2(a).unscaled, SetScale2(b).unscaled);
  }

  /** The rounded value is within half a cent of the exact one. */
  lemma SetScale2WithinHalfCent(d: Decimal)
    ensures -0.005 <= Value(SetScale2(d)) - Value(d) <= 0.005
  {
    SetScale2Value(d);
    Hundredths(SetScale2(d).unscaled as real);
  }

  /** `toString()` of a decimal at scale 2, where it never uses exponent notation: a minus sign
      for a negative number, the integer digits, a point, and exactly two fraction digits. */
  function ToString(d: Decimal): (r: string)
    requires d.scale == 2
    ensures |r| >= 4 && r[|r| - 3] == '.' && IsDigits(r[|r| - 2..])
    ensures (r[0] == '-') <==> d.unscaled < 0
    ensures var start := if d.unscaled < 0 then 1 else 0;
      start < |r| - 3 && IsDigits(r[start..|r| - 3])
  {
    var a := if d.unscaled < 0 then -d.unscaled else d.unscaled;
    var whole := NatToDigits(a / 100);
    var cents := [DigitChar(a % 100 / 10), DigitChar(a % 100 % 10)];
    var sign := if d.unscaled < 0 then "-" else "";
    var r := sign + whole + "." + cents;
    assert r[|r| - 2..] == cents;
    assert r[|sign|..|r| - 3] == whole;
    assert r[0] == if d.unscaled < 0 then '-' else whole[0];
    r
  }

  /** Index of the first `e` or `E` in `s`, or `|s|` when there is none. */
  function ExponentMarker(s: string): (i: nat)
    ensures i <= |s|
    ensures forall j :: 0 <= j < i ==> s[j] != 'e' && s[j] != 'E'
    ensures i < |s| ==> s[i] == 'e' || s[i] == 'E'
  {
    if s == [] then 0
    else if s[0] == 'e' || s[0] == 'E' then 0
    else 1 + ExponentMarker(s[1..])
  }

  /** The digits of a mantissa with at most one decimal point and at least one digit: the
      value of all its digits read as one integer, and the number of fraction digits. */
  function ParseMantissa(m: string): (r: Option<(nat, nat)>)
    ensures r.Some? ==> r.value.1 < |m|
  {
    var point := IndexOf(m, '.');
    var whole := m[..point];
    var fraction := if point < |m| then m[point + 1..] else [];
    if IsDigits(whole) && IsDigits(fraction) && |whole| + |fraction| > 0 then
      DigitsValueAppend(whole, fraction);
      Some((DigitsValue(whole + fraction), |fraction|))
    else
      None
  }

  /** An unsigned numeral: a mantissa, then optionally `e` or `E` and a signed exponent that
      fits in an `int`; the scale is the number of fraction digits minus the exponent and must
      fit in an `int` too. */
  function ParseUnsigned(body: string): (r: Option<Decimal>)
    ensures r.Some? ==> r.value.unscaled >= 0 && IsInt32(r.value.scale)
  {
    var e := ExponentMarker(body);
    var exponent := if e < |body| then ParseInt(body[e + 1..]) else Some(0);
    var mantissa := ParseMantissa(body[..e]);
    if mantissa.Some? && exponent.Some? && IsInt32(mantissa.value.1 - exponent.value) then
      Some(Decimal(mantissa.value.0, mantissa.value.1 - exponent.value))
    else
      None
  }

  /** `new BigDecimal(String)`: an optional `+` or `-`, then an unsigned numeral. The unscaled
      value is all the digits of the mantissa read as one integer, negated after a `-`.
      Anything else is a NumberFormatException, here `None`. */
  function Parse(s: string): (r: Option<Decimal>)
    ensures r.Some? ==> IsInt32(r.value.scale)
    ensures r.Some? && r.value.unscaled < 0 ==> |s| > 0 && s[0] == '-'
  {
    if |s| > 0 && s[0] == '-' then
      match ParseUnsigned(s[1..])
      case Some(d) => Some(Decimal(-d.unscaled, d.scale))
      case None => None
    else if |s| > 0 && s[0] == '+' then ParseUnsigned(s[1..])
    else ParseUnsigned(s)
  }

  lemma TwoDigits(m: nat)
    requires m < 100
    ensures DigitsValue([DigitChar(m / 10), DigitChar(m % 10)]) == m
  {
    var hi, cents := [DigitChar(m / 10)], [DigitChar(m / 10), DigitChar(m % 10)];
    assert cents[..1] == hi;
    assert hi[..0] == [];
    assert DigitsValue(hi) == m / 10;
    assert DigitsValue(cents) == 10 * DigitsValue(hi) + m % 10;
  }

  lemma PointAfterWhole(whole: string, fraction: string)
    requires IsDigits(whole)
    ensures IndexOf(whole + "." + fraction, '.') == |whole|
  {
    var m := whole + "." + fraction;
    assert m[|whole|] == '.';
    forall j | 0 <= j < |whole| ensures m[j] != '.' { assert m[j] == whole[j]; }
  }

  /** A string with no `e` or `E` has no exponent marker. */
  lemma ExponentMarkerAbsent(s: string)
    requires forall j :: 0 <= j < |s| ==> s[j] != 'e' && s[j] != 'E'
    ensures ExponentMarker(s) == |s|
  {
  }

  lemma NoExponent(whole: string, fraction: string)
    requires IsDigits(whole) && IsDigits(fraction)
    ensures ExponentMarker(whole + "." + fraction) == |whole| + 1 + |fraction|
  {
    var w := whole + ".";
    var m := w + fraction;
    forall j | 0 <= j < |m| ensures m[j] != 'e' && m[j] != 'E' {
      if j < |whole| {
        assert m[j] == w[j] == whole[j];
        assert IsDigit(whole[j]);
      } else if j == |whole| {
        assert m[j] == w[j] == '.';
      } else {
        var k := j - |w|;
        assert m[j] == fraction[k];
        assert IsDigit(fraction[k]);
      }
    }
    ExponentMarkerAbsent(m);
  }

  lemma MantissaPlain(whole: string, fraction: string)
    requires IsDigits(whole) && IsDigits(fraction) && |whole| > 0
    ensures IsDigits(whole + fraction)
    ensures ParseMantissa(whole + "." + fraction) == Some((DigitsValue(whole + fraction), |fraction|))
  {
    DigitsValueAppend(whole, fraction);
    var m := whole + "." + fraction;
    PointAfterWhole(whole, fraction);
    assert m[..|whole|] == whole;
    assert m[|whole| + 1..] == fraction;
  }

  /** Without an exponent marker, an unsigned numeral is its mantissa at scale = fraction digits. */
  lemma UnsignedWithoutExponent(body: string)
    requires ExponentMarker(body) == |body|
    ensures ParseUnsigned(body) == (var m := ParseMantissa(body[..|body|]);
      if m.Some? && IsInt32(m.value.1 - 0) then Some(Decimal(m.value.0, m.value.1 - 0)) else None)
  {
  }

  lemma MantissaWhole(s: string)
    requires IsDigits(s) && |s| > 0
    ensures ParseMantissa(s) == Some((DigitsValue(s), 0))
  {
    assert IndexOf(s, '.') == |s| by {
      forall j | 0 <= j < |s| ensures s[j] != '.' { assert IsDigit(s[j]); }
    }
    assert s[..|s|] == s;
    DigitsValueAppend(s, []);
    assert s + [] == s;
  }

  /** A numeral of digits alone reads as that integer at scale 0. */
  lemma ParseWholeNumber(s: string)
    requires IsDigits(s) && |s| > 0
    ensures Parse(s) == Some(Decimal(DigitsValue(s), 0))
  {
    assert ExponentMarker(s) == |s| by {
      forall j | 0 <= j < |s| ensures s[j] != 'e' && s[j] != 'E' { assert IsDigit(s[j]); }
    }
    UnsignedWithoutExponent(s);
    assert s[..|s|] == s;
    MantissaWhole(s);
    ParseSigned(s);
  }

  /** A plain numeral, without exponent, parses to its digits at the scale of its fraction. */
  lemma UnsignedPlain(whole: string, fraction: string)
    requires IsDigits(whole) && IsDigits(fraction) && |whole| > 0 && IsInt32(|fraction|)
    ensures IsDigits(whole + fraction)
    ensures ParseUnsigned(whole + "." + fraction) == Some(Decimal(DigitsValue(whole + fraction), |fraction|))
  {
    var body := whole + "." + fraction;
    MantissaPlain(whole, fraction);
    NoExponent(whole, fraction);
    UnsignedWithoutExponent(body);
    assert body[..|body|] == body;
  }

  /** The digits `ToString` prints for the magnitude `a`, read back, give `a`. */
  lemma CentsDigits(a: nat)
    ensures IsDigits(NatToDigits(a / 100) + [DigitChar(a % 100 / 10), DigitChar(a % 100 % 10)])
    ensures DigitsValue(NatToDigits(a / 100) + [DigitChar(a % 100 / 10), DigitChar(a % 100 % 10)]) == a
  {
    var whole, cents := NatToDigits(a / 100), [DigitChar(a % 100 / 10), DigitChar(a % 100 % 10)];
    DigitsValueAppend(whole, cents);
    TwoDigits(a % 100);
    assert Pow10(2) == 100;
  }

  lemma ParseSigned(body: string)
    ensures Parse("-" + body) == match ParseUnsigned(body)
      case Some(d) => Some(Decimal(-d.unscaled, d.scale))
      case None => None
    ensures |body| > 0 && IsDigit(body[0]) ==> Parse(body) == ParseUnsigned(body)
  {
    assert ("-" + body)[1..] == body;
  }

  /** Parsing inverts printing: the text of a two-decimal number reads back as that number. */
  lemma ParseToString(d: Decimal)
    requires d.scale == 2
    ensures Parse(ToString(d)) == Some(d)
  {
    var a := if d.unscaled < 0 then -d.unscaled else d.unscaled;
    var whole := NatToDigits(a / 100);
    var cents := [DigitChar(a % 100 / 10), DigitChar(a % 100 % 10)];
    var body := whole + "." + cents;
    assert ToString(d) == (if d.unscaled < 0 then "-" else "") + body;
    UnsignedPlain(whole, cents);
    CentsDigits(a);
    ParseSigned(body);
    if d.unscaled >= 0 {
      assert ("" + body) == body && body[0] == whole[0];
    }
  }
}
