/** Conversions of a ratio to whole numbers in rational.hpp: `to_integer`,
    `trunc`, `fract`, `floor`, `ceil` and `round`. They use the C++
    integer `/` and `%`, which truncate toward zero, and compare with zero
    through the relational operators, which is one of the comparisons those
    operators get right. */
module Rounding {
  import opened Integers
  import opened Rationals
  import opened Arithmetic
  import opened Comparison

  // ---------------------------------------------------------------------
  // Truncation and the fractional part
  // ---------------------------------------------------------------------

  /** `to_integer()`: `numer / denom` in C++ arithmetic. It truncates toward
      zero, so it keeps the sign, sends every proper fraction to 0 and is
      symmetric under negating the numerator (unlike the floor division). */
  function ToInteger(x: Ratio): (q: int)
    requires x.denom != 0
    ensures x.denom > 0 && x.numer >= 0 ==> q >= 0
    ensures x.denom > 0 && x.numer <= 0 ==> q <= 0
    ensures Abs(x.numer) < Abs(x.denom) ==> q == 0
    ensures q == -TruncDiv(-x.numer, x.denom)
  {
    TruncDiv(x.numer, x.denom)
  }

  /** `trunc()`: the integer part as a ratio `q/1`. */
  function Trunc(x: Ratio): (r: Ratio)
    requires x.denom != 0
    ensures Valid(r) && r.denom == 1
    ensures Val(r) == ToInteger(x) as real
  {
    FromInt(ToInteger(x))
  }

  /** `fract()`: `(numer % denom) / denom`, built without reduction. */
  function Fract(x: Ratio): (r: Ratio)
    requires x.denom != 0
    ensures r.denom == x.denom
    ensures Abs(r.numer) < Abs(x.denom)
    ensures x.numer >= 0 ==> r.numer >= 0
    ensures x.numer <= 0 ==> r.numer <= 0
  {
    Ratio(TruncMod(x.numer, x.denom), x.denom)
  }

  /** The integer part and the fractional part add up to the value. */
  lemma {:induction false} TruncPlusFractValue(x: Ratio)
    requires x.denom > 0
    ensures Val(x) == ToInteger(x) as real + Val(Fract(x))
  {
    var n, d, q, m := x.numer, x.denom, ToInteger(x), Fract(x).numer;
    DivModIdentity(n, d);
    CastProduct(d, q);
    SplitQuotient(n as real, d as real, q as real, m as real);
  }

  lemma SplitQuotient(n: real, d: real, q: real, m: real)
    requires d > 0.0 && n == d * q + m
    ensures n / d == q + m / d
  {
  }

  /** `trunc() + fract()` gives back a value in lowest terms. */
  lemma {:induction false} TruncPlusFract(x: Ratio)
    requires Valid(x)
    ensures Add(Trunc(x), Fract(x)) == x
  {
    TruncPlusFractValue(x);
    FractValid(x);
    ValidUnique(Add(Trunc(x), Fract(x)), x);
  }

  /** Taking the remainder keeps the fraction in lowest terms:
      `gcd(n % d, d) == gcd(n, d)`. */
  lemma {:induction false} FractValid(x: Ratio)
    requires Valid(x)
    ensures Valid(Fract(x))
  {
    var a, d := Abs(x.numer), x.denom;
    var m := Fract(x).numer;
    assert Abs(m) == a % d;
    assert Gcd(a, d) == Gcd(d, a % d);
    GcdComm(a % d, d);
  }

  /** The fractional part lies strictly between -1 and 1 and has the sign
      of the value. */
  lemma {:induction false} FractBounds(x: Ratio)
    requires x.denom > 0
    ensures -1.0 < Val(Fract(x)) < 1.0
    ensures Val(x) >= 0.0 ==> Val(Fract(x)) >= 0.0
    ensures Val(x) <= 0.0 ==> Val(Fract(x)) <= 0.0
  {
    var f := Fract(x);
    ValSign(x);
    ValSign(f);
    UnitFraction(f.numer as real, f.denom as real);
  }

  lemma UnitFraction(m: real, d: real)
    requires d > 0.0 && -d < m < d
    ensures -1.0 < m / d < 1.0
  {
  }

  /** `to_integer()` truncates toward zero: it is the whole part of the
      value, below it for positive values and above it for negative ones. */
  lemma {:induction false} ToIntegerTruncates(x: Ratio)
    requires x.denom > 0
    ensures Val(x) >= 0.0 ==> ToInteger(x) as real <= Val(x) < ToInteger(x) as real + 1.0
    ensures Val(x) <= 0.0 ==> ToInteger(x) as real - 1.0 < Val(x) <= ToInteger(x) as real
  {
    TruncPlusFractValue(x);
    FractBounds(x);
  }

  // ---------------------------------------------------------------------
  // Floor and ceiling
  // ---------------------------------------------------------------------

  /** `floor()`: below zero, `(numer - denom + 1) / denom`, which rounds the
      truncating quotient down; otherwise `numer / denom`. */
  function Floor(x: Ratio): (r: Ratio)
    requires x.denom != 0
    ensures Valid(r) && r.denom == 1
  {
    if Lt(x, FromInt(0)) then FromInt(TruncDiv(x.numer - x.denom + 1, x.denom))
    else FromInt(TruncDiv(x.numer, x.denom))
  }

  /** `ceil()`: below zero, `numer / denom`; otherwise
      `(numer + denom - 1) / denom`, which rounds the quotient up. */
  function Ceil(x: Ratio): (r: Ratio)
    requires x.denom != 0
    ensures Valid(r) && r.denom == 1
  {
    if Lt(x, FromInt(0)) then FromInt(TruncDiv(x.numer, x.denom))
    else FromInt(TruncDiv(x.numer + x.denom - 1, x.denom))
  }

  /** `floor()` agrees with the floor division `⌊n / d⌋` (Dafny's `/` on a
      positive divisor). */
  lemma {:induction false} FloorIsFloorDivision(x: Ratio)
    requires x.denom > 0
    ensures Floor(x) == FromInt(x.numer / x.denom)
  {
    var n, d := x.numer, x.denom;
    KeySign(x);
    if n < 0 {
      var q, r := n / d, n % d;
      assert n == d * q + r;
      assert d - 1 - n == d * (-q) + (d - 1 - r);
      DivModUnique(d - 1 - n, d, -q, d - 1 - r);
      assert TruncDiv(n - d + 1, d) == -((d - 1 - n) / d);
    }
  }

  /** `ceil()` agrees with the ceiling division `-⌊-n / d⌋`. */
  lemma {:induction false} CeilIsCeilingDivision(x: Ratio)
    requires x.denom > 0
    ensures Ceil(x) == FromInt(-((-x.numer) / x.denom))
  {
    var n, d := x.numer, x.denom;
    KeySign(x);
    if n >= 0 {
      var q, r := (-n) / d, (-n) % d;
      assert -n == d * q + r;
      assert n + d - 1 == d * (-q) + (d - 1 - r);
      DivModUnique(n + d - 1, d, -q, d - 1 - r);
    }
  }

  /** `floor()` is the greatest integer not above the value. */
  lemma {:induction false} FloorBounds(x: Ratio)
    requires x.denom > 0
    ensures Floor(x).numer as real <= Val(x) < Floor(x).numer as real + 1.0
  {
    FloorIsFloorDivision(x);
    EuclidBounds(x.numer, x.denom);
    UnitInterval(x.numer, x.denom, x.numer / x.denom);
  }

  /** `ceil()` is the least integer not below the value. */
  lemma {:induction false} CeilBounds(x: Ratio)
    requires x.denom > 0
    ensures Ceil(x).numer as real - 1.0 < Val(x) <= Ceil(x).numer as real
  {
    CeilIsCeilingDivision(x);
    var k := (-x.numer) / x.denom;
    EuclidBounds(-x.numer, x.denom);
    UnitInterval(-x.numer, x.denom, k);
    assert Val(Ratio(-x.numer, x.denom)) == -Val(x) by {
      assert Neg(x) == Ratio(-x.numer, x.denom);
    }
  }

  lemma EuclidBounds(n: int, d: int)
    requires d > 0
    ensures d * (n / d) <= n < d * (n / d + 1)
  {
    assert n == d * (n / d) + n % d;
    assert d * (n / d + 1) == d * (n / d) + d;
  }

  /** Integer bounds on `n` read as bounds on the value `n/d`. */
  lemma UnitInterval(n: int, d: int, k: int)
    requires d > 0 && d * k <= n < d * (k + 1)
    ensures k as real <= Val(Ratio(n, d)) < k as real + 1.0
  {
    CastProduct(d, k);
    CastProduct(d, k + 1);
    RealInterval(n as real, d as real, k as real);
  }

  lemma RealInterval(n: real, d: real, k: real)
    requires d > 0.0 && d * k <= n < d * (k + 1.0)
    ensures k <= n / d < k + 1.0
  {
    RealAbove(n, d, k);
    RealBelow(n, d, k + 1.0);
  }

  lemma RealAbove(n: real, d: real, k: real)
    requires d > 0.0 && d * k <= n
    ensures k <= n / d
  {
    assert n / d - k == (n - d * k) / d;
  }

  lemma RealBelow(n: real, d: real, j: real)
    requires d > 0.0 && n < d * j
    ensures n / d < j
  {
    assert j - n / d == (d * j - n) / d;
  }

  // ---------------------------------------------------------------------
  // Rounding to nearest
  // ---------------------------------------------------------------------

  /** The test `round()` applies to the magnitude `p/q` of the fractional
      part: `p >= q/2` for an even `q`, `p >= q/2 + 1` for an odd one, with
      C++ division. Both branches decide `p/q >= 1/2`. */
  function HalfOrLarger(f: Ratio): (h: bool)
    ensures f.denom >= 0 ==> (h <==> 2 * f.numer >= f.denom)
  {
    if TruncMod(f.denom, 2) == 0 then f.numer >= TruncDiv(f.denom, 2)
    else f.numer >= TruncDiv(f.denom, 2) + 1
  }

  /** With a positive denominator, `2·numer >= denom` says the value is at
      least one half. */
  lemma HalfMeaning(y: Ratio)
    requires y.denom > 0
    ensures 2 * y.numer >= y.denom <==> Val(y) >= 0.5
  {
    var n, d := y.numer as real, y.denom as real;
    assert (2 * y.numer) as real == 2.0 * n;
    assert (2.0 * n) / (2.0 * d) == n / d && d / (2.0 * d) == 0.5;
    assert (2.0 * n - d) / (2.0 * d) == (2.0 * n) / (2.0 * d) - d / (2.0 * d);
  }

  /** `round()`: take the magnitude of `fract()` (negating it with `zero -
      fractional` when it is below zero), and when it is at least one half
      step `trunc()` one unit away from zero, up when the value is above
      zero and down otherwise. */
  function Round(x: Ratio): (r: Ratio)
    requires x.denom > 0
    ensures Valid(r)
  {
    var zero := FromInt(0);
    var fractional := Fract(x);
    var magnitude := if Lt(fractional, zero) then Sub(zero, fractional) else fractional;
    if HalfOrLarger(magnitude) then
      if Gt(x, FromInt(0)) then Add(Trunc(x), FromInt(1)) else Sub(Trunc(x), FromInt(1))
    else
      Trunc(x)
  }

  /** Half away from zero on integers: `⌊(2n + d) / 2d⌋` for `n >= 0`,
      mirrored for negative `n`. The reference `round()` is held to. */
  function RoundHalfAway(n: int, d: int): (k: int)
    requires d > 0
    ensures n >= 0 ==> k >= 0
    ensures n <= 0 ==> k <= 0
  {
    if n >= 0 then (2 * n + d) / (2 * d) else -((2 * -n + d) / (2 * d))
  }

  /** What `round()` computes, case by case: the truncated quotient `q`,
      stepped away from zero when the remainder `m` has `2|m| >= d`. */
  lemma {:induction false} RoundCases(x: Ratio)
    requires x.denom > 0
    ensures Round(x) == FromInt(
      if 2 * Abs(TruncMod(x.numer, x.denom)) >= x.denom then
        (if x.numer > 0 then ToInteger(x) + 1 else ToInteger(x) - 1)
      else ToInteger(x))
  {
    var n, d, q := x.numer, x.denom, ToInteger(x);
    var f := Fract(x);
    var m := f.numer;
    var zero := FromInt(0);
    var magnitude := if Lt(f, zero) then Sub(zero, f) else f;
    KeySign(f);
    KeySign(x);
    assert HalfOrLarger(magnitude) <==> 2 * Abs(m) >= d by {
      MagnitudeHalf(f, magnitude);
    }
    StepFromInt(q);
  }

  /** The half test on the magnitude of a fraction `m/d` is `2|m| >= d`. */
  lemma {:induction false} MagnitudeHalf(f: Ratio, magnitude: Ratio)
    requires f.denom > 0
    requires magnitude == if Lt(f, FromInt(0)) then Sub(FromInt(0), f) else f
    ensures HalfOrLarger(magnitude) <==> 2 * Abs(f.numer) >= f.denom
  {
    KeySign(f);
    if f.numer < 0 {
      var g := Ratio(-f.numer, f.denom);
      assert Val(magnitude) == Val(g);
      HalfMeaning(magnitude);
      HalfMeaning(g);
    }
  }

  /** Stepping a whole number by one stays a whole number. */
  lemma StepFromInt(q: int)
    ensures Add(FromInt(q), FromInt(1)) == FromInt(q + 1)
    ensures Sub(FromInt(q), FromInt(1)) == FromInt(q - 1)
  {
    ValidUnique(Add(FromInt(q), FromInt(1)), FromInt(q + 1));
    ValidUnique(Sub(FromInt(q), FromInt(1)), FromInt(q - 1));
  }

  /** `round()` rounds to the nearest whole number, ties away from zero. */
  lemma {:induction false} RoundIsHalfAway(x: Ratio)
    requires x.denom > 0
    ensures Round(x) == FromInt(RoundHalfAway(x.numer, x.denom))
  {
    var n, d := x.numer, x.denom;
    RoundCases(x);
    if n >= 0 {
      HalfUp(n, d);
    } else {
      HalfUp(-n, d);
    }
  }

  /** `⌊(2a + d) / 2d⌋` is `⌊a/d⌋`, plus one when the remainder is at least
      half of `d`. */
  lemma HalfUp(a: nat, d: int)
    requires d > 0
    ensures (2 * a + d) / (2 * d) == if 2 * (a % d) >= d then a / d + 1 else a / d
  {
    var q, r := a / d, a % d;
    assert a == d * q + r;
    if 2 * r >= d {
      assert 2 * a + d == (2 * d) * (q + 1) + (2 * r - d);
      DivModUnique(2 * a + d, 2 * d, q + 1, 2 * r - d);
    } else {
      assert 2 * a + d == (2 * d) * q + (2 * r + d);
      DivModUnique(2 * a + d, 2 * d, q, 2 * r + d);
    }
  }

  /** `round()` is within one half of the value, and a tie goes to the
      whole number of larger magnitude. */
  lemma {:induction false} RoundNearest(x: Ratio)
    requires x.denom > 0
    ensures Round(x).denom == 1
    ensures RealAbs(Val(Round(x)) - Val(x)) <= 0.5
    ensures RealAbs(Val(Round(x)) - Val(x)) == 0.5 ==> RealAbs(Val(Round(x))) > RealAbs(Val(x))
  {
    var n, d, q := x.numer, x.denom, ToInteger(x);
    var f := Fract(x);
    RoundCases(x);
    TruncPlusFractValue(x);
    FractBounds(x);
    ValSign(x);
    var a := Ratio(Abs(f.numer), d);
    HalfMeaning(a);
    assert Val(a) == RealAbs(Val(f));
    RealRound(Val(x), q as real, Val(f), 2 * Abs(f.numer) >= d, Val(Round(x)));
  }

  /** The real-number core of `RoundNearest`: `v = q + e` with `|e| < 1` of
      the sign of `v`, rounded to `q ± 1` when `|e| >= 1/2`. */
  lemma RealRound(v: real, q: real, e: real, half: bool, w: real)
    requires v == q + e && -1.0 < e < 1.0
    requires v >= 0.0 ==> e >= 0.0
    requires v <= 0.0 ==> e <= 0.0
    requires half <==> RealAbs(e) >= 0.5
    requires w == if half then (if v > 0.0 then q + 1.0 else q - 1.0) else q
    ensures RealAbs(w - v) <= 0.5
    ensures RealAbs(w - v) == 0.5 ==> RealAbs(w) > RealAbs(v)
  {
  }

  // ---------------------------------------------------------------------
  // Worked values
  // ---------------------------------------------------------------------

  /** `-7/2` truncates to -3, floors to -4, ceils to -3 and rounds away
      from zero to -4. */
  lemma NegativeHalfExample()
    ensures Trunc(Ratio(-7, 2)) == FromInt(-3)
    ensures Fract(Ratio(-7, 2)) == Ratio(-1, 2)
    ensures Floor(Ratio(-7, 2)) == FromInt(-4)
    ensures Ceil(Ratio(-7, 2)) == FromInt(-3)
    ensures Round(Ratio(-7, 2)) == FromInt(-4)
  {
    RoundCases(Ratio(-7, 2));
  }

  /** Ties go away from zero on both sides. */
  lemma RoundTieExamples()
    ensures Round(Ratio(1, 2)) == FromInt(1)
    ensures Round(Ratio(-1, 2)) == FromInt(-1)
  {
    RoundCases(Ratio(1, 2));
    RoundCases(Ratio(-1, 2));
  }

  /** Other values go to the nearest whole number. */
  lemma RoundDownExample()
    ensures Round(Ratio(7, 3)) == FromInt(2)
  {
    RoundCases(Ratio(7, 3));
  }

  lemma RoundNegativeExample()
    ensures Round(Ratio(-8, 3)) == FromInt(-3)
  {
    RoundCases(Ratio(-8, 3));
  }
}
