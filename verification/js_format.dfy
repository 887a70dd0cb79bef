/**
 * The parts of the JavaScript number runtime the fix-info row depends on:
 * Math.round, truncation, `x % 1`, Number.prototype.toFixed,
 * String.prototype.padStart, and the Number() conversion of the strings that
 * toFixed produces. Each formatter's contract is stated through the parser
 * here, so that "the string shows the value" is a round trip.
 */
module JsFormat {
  import opened Wrappers

  function Pow10(n: nat): (p: nat)
    ensures p >= 1
  {
    if n == 0 then 1 else 10 * Pow10(n - 1)
  }

  lemma {:induction false} Pow10Monotone(a: nat, b: nat)
    requires a <= b
    ensures Pow10(a) <= Pow10(b)
  {
    if a < b {
      Pow10Monotone(a, b - 1);
    }
  }

  function Abs(x: real): real {
    if x < 0.0 then -x else x
  }

  /** Math.round: the nearest integer, a half rounding toward +infinity. */
  function Round(x: real): (n: int)
    ensures x - 0.5 < n as real <= x + 0.5
  {
    (x + 0.5).Floor
  }

  /** Rounding commutes with an integer shift. */
  lemma RoundShift(k: int, y: real)
    ensures Round(k as real + y) == k + Round(y)
  {
  }

  /** Truncation toward zero, as `new Date(t)` applies to its argument. */
  function Trunc(x: real): (n: int)
    ensures Abs(n as real) <= Abs(x) < Abs(n as real) + 1.0
    ensures (n < 0 ==> x < 0.0) && (x < 0.0 ==> n <= 0)
  {
    if x >= 0.0 then x.Floor else -((-x).Floor)
  }

  /** `x % 1`: the fractional part, which carries the sign of `x`. */
  function Remainder1(x: real): (f: real)
    ensures (x - f).Floor as real == x - f
    ensures x >= 0.0 ==> 0.0 <= f < 1.0
  {
    x - Trunc(x) as real
  }

  // ---------------------------------------------------------------------
  // Decimal digit strings

  predicate IsDigit(c: char) {
    '0' <= c <= '9'
  }

  predicate IsDigits(s: string) {
    forall i | 0 <= i < |s| :: IsDigit(s[i])
  }

  function DigitChar(d: nat): (c: char)
    requires d < 10
    ensures IsDigit(c) && c as int - '0' as int == d
  {
    ('0' as int + d) as char
  }

  /** The value of a string of decimal digits, most significant first. */
  function ParseNat(s: string): nat
    requires IsDigits(s)
  {
    if s == [] then 0 else 10 * ParseNat(s[..|s| - 1]) + (s[|s| - 1] as int - '0' as int)
  }

  /** Decimal digits without a leading zero (other than "0" itself), as JavaScript writes a whole number. */
  predicate Canonical(w: string) {
    0 < |w| && IsDigits(w) && (w[0] == '0' ==> |w| == 1)
  }

  /** The digits of `n` without leading zeros: `n.toString()` and `n.toFixed(0)` of a non-negative integer. */
  function DecimalString(n: nat): (s: string)
    ensures IsDigits(s) && ParseNat(s) == n
    ensures 1 <= |s| && n < Pow10(|s|)
    ensures 1 < |s| ==> Pow10(|s| - 1) <= n
    ensures (s[0] == '0' <==> n == 0) && Canonical(s)
  {
    if n < 10 then
      [DigitChar(n)]
    else
      var prefix := DecimalString(n / 10);
      var s := prefix + [DigitChar(n % 10)];
      assert s[..|s| - 1] == prefix && s[0] == prefix[0];
      s
  }

  lemma DecimalLength(n: nat, width: nat)
    ensures 1 <= width && n < Pow10(width) ==> |DecimalString(n)| <= width
  {
    var s := DecimalString(n);
    if 1 <= width && n < Pow10(width) && |s| > width {
      Pow10Monotone(width, |s| - 1);
    }
  }

  lemma {:induction false} ZerosParse(z: string)
    requires forall i | 0 <= i < |z| :: z[i] == '0'
    ensures IsDigits(z) && ParseNat(z) == 0
  {
    if z != [] {
      ZerosParse(z[..|z| - 1]);
    }
  }

  /** Leading zeros do not change the value of a digit string. */
  lemma {:induction false} LeadingZerosParse(z: string, s: string)
    requires IsDigits(s)
    requires forall i | 0 <= i < |z| :: z[i] == '0'
    ensures IsDigits(z + s) && ParseNat(z + s) == ParseNat(s)
  {
    if s == [] {
      assert z + s == z;
      ZerosParse(z);
    } else {
      LeadingZerosParse(z, s[..|s| - 1]);
      assert (z + s)[..|z + s| - 1] == z + s[..|s| - 1];
    }
  }

  /** String.prototype.padStart(width, fill) */
  function PadStart(s: string, width: nat, fill: char): (r: string)
    ensures |s| < width ==> |r| == width
    ensures |s| >= width ==> r == s
    ensures r[|r| - |s|..] == s
    ensures forall i | 0 <= i < |r| - |s| :: r[i] == fill
  {
    if |s| >= width then s else seq(width - |s|, _ => fill) + s
  }

  /** `n.toString().padStart(width, '0')` for a non-negative integer `n`. */
  function ZeroPadded(n: nat, width: nat): (s: string)
    ensures IsDigits(s) && ParseNat(s) == n && |s| >= width
    ensures 1 <= width && n < Pow10(width) ==> |s| == width
    ensures |s| > width ==> s == DecimalString(n)
  {
    var digits := DecimalString(n);
    var s := PadStart(digits, width, '0');
    LeadingZerosParse(s[..|s| - |digits|], digits);
    assert s == s[..|s| - |digits|] + digits;
    DecimalLength(n, width);
    s
  }

  // ---------------------------------------------------------------------
  // Number() on the strings the formatters produce

  /** The first index of `c` in `s`, or `|s|` when there is none. */
  function IndexOf(s: string, c: char): (i: nat)
    ensures i <= |s|
    ensures i < |s| ==> s[i] == c
    ensures forall j | 0 <= j < i :: s[j] != c
  {
    if s == [] then 0 else if s[0] == c then 0 else 1 + IndexOf(s[1..], c)
  }

  lemma SplitAt(w: string, c: char, f: string)
    requires IsDigits(w) && !IsDigit(c)
    ensures IndexOf(w + [c] + f, c) == |w|
    ensures (w + [c] + f)[..|w|] == w && (w + [c] + f)[|w| + 1..] == f
  {
    var s := w + [c] + f;
    assert forall j | 0 <= j < |w| :: s[j] == w[j];
    assert s[|w|] == c;
  }

  lemma NoSeparator(w: string, c: char)
    requires IsDigits(w) && !IsDigit(c)
    ensures IndexOf(w, c) == |w|
  {
  }

  /** Number(s) for an unsigned decimal: digits, optionally a point and more digits. None stands for NaN. */
  function ParseUnsigned(s: string): (r: Option<real>)
    ensures r.Some? ==> 0 < |s| && r.value >= 0.0
  {
    var i := IndexOf(s, '.');
    if i == |s| then
      if 0 < |s| && IsDigits(s) then Some(ParseNat(s) as real) else None
    else
      var whole, frac := s[..i], s[i + 1..];
      if 0 < |whole| && IsDigits(whole) && 0 < |frac| && IsDigits(frac) then
        Some(PointValue(ParseNat(whole), ParseNat(frac), |frac|))
      else
        None
  }

  /** The value of "w.f" where the fraction `f` was written with `digits` digits. */
  function PointValue(w: nat, f: nat, digits: nat): (v: real)
    ensures v >= w as real
  {
    w as real + f as real / Pow10(digits) as real
  }

  /** Number(s) for an optionally signed decimal: negative only after a minus sign. None stands for NaN. */
  function ParseNumber(s: string): (r: Option<real>)
    ensures r.Some? ==> 0 < |s| && (r.value < 0.0 ==> s[0] == '-')
    ensures r.Some? && s[0] == '-' ==> r.value <= 0.0
  {
    if 0 < |s| && s[0] == '-' then
      match ParseUnsigned(s[1..])
      case Some(v) => Some(-v)
      case None => None
    else
      ParseUnsigned(s)
  }

  lemma NegativeParse(u: string)
    requires 0 < |u| && IsDigit(u[0])
    ensures ParseNumber("-" + u) == match ParseUnsigned(u) case Some(v) => Some(-v) case None => None
    ensures ParseNumber(u) == ParseUnsigned(u)
  {
    assert ("-" + u)[1..] == u;
  }

  /** `s` without a leading minus sign. */
  function Unsigned(s: string): string {
    if 0 < |s| && s[0] == '-' then s[1..] else s
  }

  /** The digits of `s` before its decimal point, without the sign. */
  function WholeDigits(s: string): string {
    var u := Unsigned(s);
    u[..IndexOf(u, '.')]
  }

  /** `n.toFixed(0)` and `n.toString()` of an integer: canonical digits, after a minus sign exactly when n is negative. */
  function IntegerString(n: int): (s: string)
    ensures ParseNumber(s) == Some(n as real)
    ensures 0 < |s| && (s[0] == '-' <==> n < 0)
    ensures WholeDigits(s) == Unsigned(s) && Canonical(WholeDigits(s))
  {
    var digits := DecimalString(if n < 0 then -n else n);
    NoSeparator(digits, '.');
    SignedParse(n < 0, digits, (if n < 0 then -n else n) as real);
    Signed(n < 0, digits)
  }

  /** |x| scaled by 10^d and rounded half up: the digits `x.toFixed(d)` shows. */
  function ScaledDigits(x: real, d: nat): nat {
    var y := Abs(x) * Pow10(d) as real;
    assert y >= 0.0 by {
      assert Abs(x) >= 0.0 && Pow10(d) as real >= 1.0;
    }
    Round(y)
  }

  /** m / 10^d */
  function Unscaled(m: nat, d: nat): real {
    m as real / Pow10(d) as real
  }

  /**
   * The value `x.toFixed(d)` shows: a multiple of 10^-d within half a unit
   * of x, with the sign of x, and of the larger magnitude at a tie (|x|
   * rounded half up, then signed).
   */
  function RoundedTo(x: real, d: nat): (y: real)
    ensures Abs(y - x) * Pow10(d) as real <= 0.5
    ensures OnGrid(y, d)
    ensures (x >= 0.0 ==> y >= 0.0) && (x < 0.0 ==> y <= 0.0)
    ensures Abs(y - x) * Pow10(d) as real == 0.5 ==> Abs(y) > Abs(x)
  {
    var m := ScaledDigits(x, d);
    ScaledBound(x, d);
    ScaledTie(x, d);
    SignedDistance(x, Unscaled(m, d));
    UnscaledGrid(m, d, x < 0.0);
    WithSign(x < 0.0, Unscaled(m, d))
  }

  /** `v`, negated when `negative`. */
  function WithSign(negative: bool, v: real): real {
    if negative then -v else v
  }

  lemma ScaledBound(x: real, d: nat)
    ensures Abs(Unscaled(ScaledDigits(x, d), d) - Abs(x)) * Pow10(d) as real <= 0.5
  {
    var m := ScaledDigits(x, d) as real;
    var p := Pow10(d) as real;
    var a := Abs(x);
    assert a * p - 0.5 < m <= a * p + 0.5;
    var u := Unscaled(ScaledDigits(x, d), d);
    assert u * p == m;
    if u >= a {
      assert (u - a) * p == m - a * p;
    } else {
      assert (a - u) * p == a * p - m;
    }
  }

  /** At a tie the magnitude rounds up. */
  lemma ScaledTie(x: real, d: nat)
    ensures var u := Unscaled(ScaledDigits(x, d), d);
            Abs(u - Abs(x)) * Pow10(d) as real == 0.5 ==> u > Abs(x)
  {
    var m := ScaledDigits(x, d) as real;
    var p := Pow10(d) as real;
    var a := Abs(x);
    assert a * p - 0.5 < m;
    var u := Unscaled(ScaledDigits(x, d), d);
    assert u * p == m;
    if u <= a {
      assert (a - u) * p == a * p - m;
    }
  }

  /** Signing a non-negative magnitude `u` like `x` keeps its distance to `x` and its magnitude. */
  lemma SignedDistance(x: real, u: real)
    requires u >= 0.0
    ensures Abs(WithSign(x < 0.0, u) - x) == Abs(u - Abs(x))
    ensures Abs(WithSign(x < 0.0, u)) == u
    ensures (x >= 0.0 ==> WithSign(x < 0.0, u) >= 0.0) && (x < 0.0 ==> WithSign(x < 0.0, u) <= 0.0)
  {
    if x < 0.0 {
      assert -u - x == -(u - Abs(x));
    }
  }

  /** `y` is a whole number. */
  predicate Whole(y: real) {
    y.Floor as real == y
  }

  /** `y` is a whole multiple of 10^-d. */
  predicate OnGrid(y: real, d: nat) {
    Whole(y * Pow10(d) as real)
  }

  /** m / 10^d, signed, is on the grid of multiples of 10^-d. */
  lemma UnscaledGrid(m: nat, d: nat, negative: bool)
    ensures OnGrid(WithSign(negative, Unscaled(m, d)), d)
  {
    var p := Pow10(d) as real;
    assert Unscaled(m, d) * p == m as real;
    var k: int := if negative then -(m as int) else m;
    var y := WithSign(negative, Unscaled(m, d)) * p;
    assert y == k as real;
    assert y.Floor == k;
    assert Whole(y);
    assert WithSign(negative, Unscaled(m, d)) * Pow10(d) as real == y;
  }

  lemma RoundedToSigned(x: real, d: nat)
    ensures RoundedTo(x, d) == WithSign(x < 0.0, Unscaled(ScaledDigits(x, d), d))
  {
  }

  lemma DivModReal(m: nat, p: nat)
    requires 1 <= p
    ensures Quot(m, p) as real + Rem(m, p) as real / p as real == m as real / p as real
  {
    var q, f := Quot(m, p), Rem(m, p);
    assert m == q * p + f;
    assert m as real == q as real * p as real + f as real;
  }

  /** Reading back "whole.frac". */
  lemma PointParse(whole: string, frac: string)
    requires 0 < |whole| && IsDigits(whole) && 0 < |frac| && IsDigits(frac)
    ensures ParseUnsigned(whole + "." + frac) == Some(PointValue(ParseNat(whole), ParseNat(frac), |frac|))
  {
    var s := whole + "." + frac;
    assert s == whole + ['.'] + frac;
    SplitAt(whole, '.', frac);
    var i := IndexOf(s, '.');
    assert i == |whole| < |s|;
    assert s[..i] == whole && s[i + 1..] == frac;
  }

  /** How many digits follow the decimal point of `s` (0 when there is no point). */
  function FractionDigits(s: string): nat {
    var i := IndexOf(s, '.');
    if i == |s| then 0 else |s| - i - 1
  }

  lemma SignedFraction(u: string)
    requires 0 < |u| && IsDigit(u[0])
    ensures FractionDigits("-" + u) == FractionDigits(u)
  {
    assert ("-" + u)[1..] == u;
  }

  lemma DivBounds(m: nat, p: nat)
    requires 1 <= p
    ensures 0 <= m / p && 0 <= m % p < p
  {
  }

  /** Whole part of m / p. */
  function Quot(m: nat, p: nat): nat
    requires 1 <= p
  {
    DivBounds(m, p);
    m / p
  }

  /** Remainder of m / p. */
  function Rem(m: nat, p: nat): (r: nat)
    requires 1 <= p
    ensures r < p
  {
    DivBounds(m, p);
    m % p
  }

  /** The unsigned text of toFixed: whole digits, then a point and `d` digits when `d > 0`. */
  function FixedDigits(m: nat, d: nat): (s: string)
    ensures 0 < |s| && IsDigit(s[0])
  {
    var p := Pow10(d);
    var whole := DecimalString(Quot(m, p));
    if d == 0 then whole else whole + "." + ZeroPadded(Rem(m, p), d)
  }

  /** The whole part of toFixed's text is the quotient's canonical digits. */
  lemma FixedDigitsWhole(m: nat, d: nat)
    ensures WholeDigits(FixedDigits(m, d)) == DecimalString(Quot(m, Pow10(d)))
  {
    var whole := DecimalString(Quot(m, Pow10(d)));
    var rest: string := if d == 0 then [] else "." + ZeroPadded(Rem(m, Pow10(d)), d);
    FixedDigitsSplit(m, d);
    WholeOfText(whole, rest);
  }

  lemma FixedDigitsSplit(m: nat, d: nat)
    ensures FixedDigits(m, d) ==
            DecimalString(Quot(m, Pow10(d))) + (if d == 0 then [] else "." + ZeroPadded(Rem(m, Pow10(d)), d))
  {
    var whole := DecimalString(Quot(m, Pow10(d)));
    if d == 0 {
      assert whole + [] == whole;
    } else {
      var frac := ZeroPadded(Rem(m, Pow10(d)), d);
      assert whole + "." + frac == whole + ("." + frac);
    }
  }

  /** The whole part of digits followed by nothing or by a decimal point and more is those digits. */
  lemma WholeOfText(whole: string, rest: string)
    requires 0 < |whole| && IsDigits(whole) && (rest == [] || rest[0] == '.')
    ensures WholeDigits(whole + rest) == whole
  {
    var s := whole + rest;
    assert s[0] == whole[0];
    assert Unsigned(s) == s;
    if rest == [] {
      assert s == whole;
      NoSeparator(whole, '.');
    } else {
      assert s == whole + ['.'] + rest[1..];
      SplitAt(whole, '.', rest[1..]);
    }
  }

  lemma FixedDigitsParse(m: nat, d: nat)
    ensures ParseUnsigned(FixedDigits(m, d)) == Some(Unscaled(m, d))
    ensures FractionDigits(FixedDigits(m, d)) == d
  {
    var p := Pow10(d);
    assert Unscaled(m, d) == m as real / p as real;
    if d == 0 {
      assert p == 1 && Quot(m, p) == m;
      assert Unscaled(m, d) == m as real;
      var s := DecimalString(m);
      assert FixedDigits(m, d) == s;
      NoSeparator(s, '.');
      assert ParseUnsigned(s) == Some(m as real);
    } else {
      FixedDigitsUnfold(m, d);
      WithPointParse(Quot(m, p), Rem(m, p), d);
      assert ParseUnsigned(FixedDigits(m, d)) == Some(PointValue(Quot(m, p), Rem(m, p), d));
      DivModReal(m, p);
      assert PointValue(Quot(m, p), Rem(m, p), d) == m as real / p as real;
    }
  }

  lemma FixedDigitsUnfold(m: nat, d: nat)
    requires d > 0
    ensures FixedDigits(m, d) == DecimalString(Quot(m, Pow10(d))) + "." + ZeroPadded(Rem(m, Pow10(d)), d)
  {
  }

  lemma WithPointParse(q: nat, f: nat, d: nat)
    requires 0 < d && f < Pow10(d)
    ensures ParseUnsigned(DecimalString(q) + "." + ZeroPadded(f, d)) == Some(PointValue(q, f, d))
    ensures FractionDigits(DecimalString(q) + "." + ZeroPadded(f, d)) == d
  {
    var whole, frac := DecimalString(q), ZeroPadded(f, d);
    PointParse(whole, frac);
    SplitAt(whole, '.', frac);
    assert whole + "." + frac == whole + ['.'] + frac;
  }

  /** The text `u`, preceded by a minus sign when `negative`. */
  function Signed(negative: bool, u: string): string {
    if negative then "-" + u else u
  }

  lemma SignedParse(negative: bool, u: string, v: real)
    requires 0 < |u| && IsDigit(u[0]) && ParseUnsigned(u) == Some(v)
    ensures ParseNumber(Signed(negative, u)) == Some(WithSign(negative, v))
    ensures FractionDigits(Signed(negative, u)) == FractionDigits(u)
    ensures 0 < |Signed(negative, u)| && (Signed(negative, u)[0] == '-' <==> negative)
    ensures Unsigned(Signed(negative, u)) == u
  {
    NegativeParse(u);
    SignedFraction(u);
    assert ("-" + u)[1..] == u;
  }

  /** Number.prototype.toFixed(d), for |x| below 10^21. */
  function FixedString(x: real, d: nat): (s: string)
    ensures ParseNumber(s) == Some(RoundedTo(x, d))
    ensures FractionDigits(s) == d
    ensures 0 < |s| && (s[0] == '-' <==> x < 0.0)
    ensures Canonical(WholeDigits(s))
  {
    var m := ScaledDigits(x, d);
    var digits := FixedDigits(m, d);
    FixedDigitsParse(m, d);
    FixedDigitsWhole(m, d);
    SignedParse(x < 0.0, digits, Unscaled(m, d));
    RoundedToSigned(x, d);
    Signed(x < 0.0, digits)
  }

  // ---------------------------------------------------------------------
  // Number(x.toPrecision(4))

  /** 10^e for an integer exponent. */
  function Scale(e: int): (r: real)
    ensures r > 0.0
  {
    if e >= 0 then Pow10(e) as real else 1.0 / Pow10(-e) as real
  }

  lemma ScaleStep(e: int)
    ensures Scale(e + 1) == 10.0 * Scale(e)
  {
    if e < -1 {
      var p := Pow10(-e - 1) as real;
      assert Pow10(-e) as real == 10.0 * p;
      assert 1.0 / p == 10.0 * (1.0 / (10.0 * p));
    }
  }

  /** Below 1/p, x has a reciprocal of at least p. */
  lemma ReciprocalBound(x: real, p: nat)
    requires 0.0 < x && 1 <= p && x < 1.0 / p as real
    ensures p <= (1.0 / x).Floor
  {
    var q := p as real;
    assert x * q < 1.0 by {
      var t := 1.0 / q - x;
      assert t * q > 0.0;
      assert (1.0 / q) * q == 1.0;
      calc {
        t * q;
        (1.0 / q) * q - x * q;
        1.0 - x * q;
      }
    }
    assert q == (x * q) / x;
    assert q < 1.0 / x;
  }

  /** The decimal exponent of some x >= 10^e: counts upward from e. */
  function ExponentUp(x: real, e: nat): (r: int)
    requires Pow10(e) as real <= x
    ensures Scale(r) <= x < Scale(r + 1)
    decreases x.Floor - Pow10(e)
  {
    if x < Pow10(e + 1) as real then e else ExponentUp(x, e + 1)
  }

  /** The decimal exponent of some 0 < x < 10^-k: counts downward from -k. */
  function ExponentDown(x: real, k: nat): (r: int)
    requires 0.0 < x < Scale(-(k as int))
    ensures Scale(r) <= x < Scale(r + 1)
    decreases (1.0 / x).Floor - Pow10(k)
  {
    ReciprocalBound(x, Pow10(k));
    if Scale(-(k as int) - 1) <= x then
      -(k as int) - 1
    else
      assert Pow10(k + 1) == 10 * Pow10(k);
      ReciprocalBound(x, Pow10(k + 1));
      ExponentDown(x, k + 1)
  }

  /** The integer e with 10^e <= x < 10^(e+1). */
  function DecimalExponent(x: real): (e: int)
    requires x > 0.0
    ensures Scale(e) <= x < Scale(e + 1)
  {
    if x >= 1.0 then ExponentUp(x, 0) else ExponentDown(x, 0)
  }

  /** Rounding a/unit to a whole number of units moves a by at most a/2000 when unit <= a/1000. */
  lemma SignificantError(a: real, unit: real)
    requires 0.0 < unit && 1000.0 * unit <= a
    ensures Abs(Round(a / unit) as real * unit - a) * 2000.0 <= a
  {
    var q := a / unit;
    var n := Round(q) as real;
    assert q * unit == a;
    assert n * unit - a == (n - q) * unit;
    assert Abs(n - q) <= 0.5;
    assert Abs((n - q) * unit) == Abs(n - q) * unit;
    assert Abs(n - q) * unit <= 0.5 * unit;
    assert Abs(n * unit - a) * 2000.0 <= 0.5 * unit * 2000.0;
  }

  /** Number(x.toPrecision(4)): x rounded, halves away from zero, to four significant digits. */
  function ToPrecision4(x: real): (r: real)
    ensures Abs(r - x) * 2000.0 <= Abs(x)
  {
    if x == 0.0 then
      0.0
    else
      var a := Abs(x);
      var e := DecimalExponent(a);
      var unit := Scale(e - 3);
      assert Scale(e) == 1000.0 * unit by {
        ScaleStep(e - 3);
        ScaleStep(e - 2);
        ScaleStep(e - 1);
      }
      SignificantError(a, unit);
      var r := Round(a / unit) as real * unit;
      if x < 0.0 then -r else r
  }

  // ---------------------------------------------------------------------
  // Clock-style fields such as "07:05" and "1+30"

  /** Splits `s` at the first `sep` into two non-empty digit fields and reads both. */
  function ParseClock(s: string, sep: char): Option<(nat, nat)> {
    var i := IndexOf(s, sep);
    if 0 < i < |s| - 1 && IsDigits(s[..i]) && IsDigits(s[i + 1..]) then
      Some((ParseNat(s[..i]), ParseNat(s[i + 1..])))
    else
      None
  }

  /** Two fields joined by `sep`: the left field as `n.toString()` (padded to `width`), the right one zero-padded to two digits. */
  function ClockText(left: nat, width: nat, sep: char, right: nat): (s: string)
    requires !IsDigit(sep)
    ensures ParseClock(s, sep) == Some((left, right))
    ensures right < 100 ==> |s| - IndexOf(s, sep) == 3
    ensures IndexOf(s, sep) >= width
    ensures 1 <= width && left < Pow10(width) ==> IndexOf(s, sep) == width
    ensures IndexOf(s, sep) > width ==> Canonical(s[..IndexOf(s, sep)])
  {
    var a := ZeroPadded(left, width);
    var b := ZeroPadded(right, 2);
    SplitAt(a, sep, b);
    a + [sep] + b
  }
}
