/** The binary operators `+ - * / %` and unary minus of rational.hpp. Each
    binary operator cross-multiplies and hands the pair to the checked,
    normalising constructor, so every result is in lowest terms. Operands
    are taken with positive denominators, as every value the library hands
    out has. */
module Arithmetic {
  import opened Integers
  import opened Rationals

  /** The absolute value of a real number. */
  ghost function RealAbs(v: real): real
  {
    if v < 0.0 then -v else v
  }

  lemma MulPositive(x: int, y: int)
    requires x > 0 && y > 0
    ensures x * y > 0
  {
    MulAtLeast(x, y);
  }

  // ---------------------------------------------------------------------
  // The operators
  // ---------------------------------------------------------------------

  /** `lhs + rhs` = `(a·d + b·c) / (b·d)`, normalised. */
  function Add(a: Ratio, b: Ratio): (r: Ratio)
    requires a.denom > 0 && b.denom > 0
    ensures Valid(r) && Val(r) == Val(a) + Val(b)
  {
    MulPositive(a.denom, b.denom);
    SumQuotient(a, b);
    Make(a.numer * b.denom + a.denom * b.numer, a.denom * b.denom).value
  }

  lemma SumQuotient(a: Ratio, b: Ratio)
    requires a.denom > 0 && b.denom > 0
    ensures a.denom * b.denom != 0
    ensures (a.numer * b.denom + a.denom * b.numer) as real / (a.denom * b.denom) as real
            == Val(a) + Val(b)
  {
    MulPositive(a.denom, b.denom);
    var n1, d1, n2, d2 := a.numer as real, a.denom as real, b.numer as real, b.denom as real;
    assert (a.numer * b.denom + a.denom * b.numer) as real == n1 * d2 + d1 * n2;
    assert (a.denom * b.denom) as real == d1 * d2;
    assert (n1 * d2 + d1 * n2) / (d1 * d2) == n1 / d1 + n2 / d2;
  }

  /** `lhs - rhs` = `(a·d - b·c) / (b·d)`, normalised. */
  function Sub(a: Ratio, b: Ratio): (r: Ratio)
    requires a.denom > 0 && b.denom > 0
    ensures Valid(r) && Val(r) == Val(a) - Val(b)
  {
    MulPositive(a.denom, b.denom);
    DifferenceQuotient(a, b);
    Make(a.numer * b.denom - a.denom * b.numer, a.denom * b.denom).value
  }

  lemma DifferenceQuotient(a: Ratio, b: Ratio)
    requires a.denom > 0 && b.denom > 0
    ensures a.denom * b.denom != 0
    ensures (a.numer * b.denom - a.denom * b.numer) as real / (a.denom * b.denom) as real
            == Val(a) - Val(b)
  {
    MulPositive(a.denom, b.denom);
    var n1, d1, n2, d2 := a.numer as real, a.denom as real, b.numer as real, b.denom as real;
    assert (a.numer * b.denom - a.denom * b.numer) as real == n1 * d2 - d1 * n2;
    assert (a.denom * b.denom) as real == d1 * d2;
    assert (n1 * d2 - d1 * n2) / (d1 * d2) == n1 / d1 - n2 / d2;
  }

  /** `lhs * rhs` = `(a·c) / (b·d)`, normalised. */
  function Mul(a: Ratio, b: Ratio): (r: Ratio)
    requires a.denom > 0 && b.denom > 0
    ensures Valid(r) && Val(r) == Val(a) * Val(b)
  {
    MulPositive(a.denom, b.denom);
    ProductQuotient(a, b);
    Make(a.numer * b.numer, a.denom * b.denom).value
  }

  lemma ProductQuotient(a: Ratio, b: Ratio)
    requires a.denom > 0 && b.denom > 0
    ensures a.denom * b.denom != 0
    ensures (a.numer * b.numer) as real / (a.denom * b.denom) as real == Val(a) * Val(b)
  {
    MulPositive(a.denom, b.denom);
    var n1, d1, n2, d2 := a.numer as real, a.denom as real, b.numer as real, b.denom as real;
    assert (a.numer * b.numer) as real == n1 * n2;
    assert (a.denom * b.denom) as real == d1 * d2;
    assert (n1 * n2) / (d1 * d2) == (n1 / d1) * (n2 / d2);
  }

  /** `lhs / rhs` = `make_ratio(a·d, b·c)`: fails with DivideByZero exactly
      when the divisor is zero. */
  function Div(a: Ratio, b: Ratio): (r: Result<Ratio>)
    requires a.denom > 0 && b.denom > 0
    ensures r.Err? <==> b.numer == 0
    ensures r.Err? ==> r.error == DivideByZero
    ensures r.Ok? ==> Valid(r.value) && Val(b) != 0.0 && Val(r.value) == Val(a) / Val(b)
  {
    var r := Make(a.numer * b.denom, a.denom * b.numer);
    QuotientQuotient(a, b);
    r
  }

  lemma QuotientQuotient(a: Ratio, b: Ratio)
    requires a.denom > 0 && b.denom > 0
    ensures a.denom * b.numer == 0 <==> b.numer == 0
    ensures b.numer != 0 ==>
      Val(b) != 0.0 &&
      (a.numer * b.denom) as real / (a.denom * b.numer) as real == Val(a) / Val(b)
  {
    ValSign(b);
    if b.numer != 0 {
      assert a.denom * b.numer != 0 by {
        if b.numer > 0 {
          MulPositive(a.denom, b.numer);
        } else {
          MulPositive(a.denom, -b.numer);
        }
      }
      CastProduct(a.numer, b.denom);
      CastProduct(a.denom, b.numer);
      RealQuotient(a.numer as real, a.denom as real, b.numer as real, b.denom as real);
    }
  }

  lemma RealQuotient(n1: real, d1: real, n2: real, d2: real)
    requires d1 != 0.0 && n2 != 0.0 && d2 != 0.0
    ensures (n1 * d2) / (d1 * n2) == (n1 / d1) / (n2 / d2)
  {
  }

  /** `lhs % rhs` = `((a·d) % (b·c)) / (b·d)` with the C++ remainder. The
      source's integer `%` is undefined for a zero divisor, hence the
      precondition. The result is the remainder of the quotient truncated
      toward zero: `lhs == q·rhs + r` with `|r| < |rhs|` and `r` carrying the
      sign of `lhs`. */
  function Mod(a: Ratio, b: Ratio): (r: Ratio)
    requires a.denom > 0 && b.denom > 0 && b.numer != 0
    ensures Valid(r)
    ensures Val(a) == (TruncDiv(a.numer * b.denom, a.denom * b.numer) as real) * Val(b) + Val(r)
    ensures RealAbs(Val(r)) < RealAbs(Val(b))
    ensures Val(a) >= 0.0 ==> Val(r) >= 0.0
    ensures Val(a) <= 0.0 ==> Val(r) <= 0.0
  {
    QuotientQuotient(a, b);
    MulPositive(a.denom, b.denom);
    var m := TruncMod(a.numer * b.denom, a.denom * b.numer);
    var r := Make(m, a.denom * b.denom).value;
    RemainderFacts(a, b, m, r);
    r
  }

  lemma RemainderFacts(a: Ratio, b: Ratio, m: int, r: Ratio)
    requires a.denom > 0 && b.denom > 0 && b.numer != 0
    requires a.denom * b.numer != 0 && a.denom * b.denom > 0
    requires m == TruncMod(a.numer * b.denom, a.denom * b.numer)
    requires r.denom > 0 && Val(r) == m as real / (a.denom * b.denom) as real
    ensures Val(a) == (TruncDiv(a.numer * b.denom, a.denom * b.numer) as real) * Val(b) + Val(r)
    ensures RealAbs(Val(r)) < RealAbs(Val(b))
    ensures Val(a) >= 0.0 ==> Val(r) >= 0.0
    ensures Val(a) <= 0.0 ==> Val(r) <= 0.0
  {
    var q := TruncDiv(a.numer * b.denom, a.denom * b.numer);
    DivModIdentity(a.numer * b.denom, a.denom * b.numer);
    RemainderSign(a, b, m);
    RemainderValue(a, b, q, m, r);
  }

  /** The real-number reading of the integer facts about the remainder. */
  lemma RemainderValue(a: Ratio, b: Ratio, q: int, m: int, r: Ratio)
    requires a.denom > 0 && b.denom > 0 && b.numer != 0
    requires m == a.numer * b.denom - a.denom * b.numer * q
    requires a.numer >= 0 ==> m >= 0
    requires a.numer <= 0 ==> m <= 0
    requires Abs(m) < a.denom * Abs(b.numer)
    requires r.denom > 0 && Val(r) == m as real / (a.denom * b.denom) as real
    ensures Val(a) == (q as real) * Val(b) + Val(r)
    ensures RealAbs(Val(r)) < RealAbs(Val(b))
    ensures Val(a) >= 0.0 ==> Val(r) >= 0.0
    ensures Val(a) <= 0.0 ==> Val(r) <= 0.0
  {
    CastProduct(a.denom, b.denom);
    CastRemainder(a.numer, a.denom, b.numer, b.denom, q, m);
    CastBound(a.denom, b.numer, m);
    RealRemainder(a.numer as real, a.denom as real, b.numer as real, b.denom as real,
                  q as real, m as real, Val(r));
  }

  lemma CastRemainder(n1: int, d1: int, n2: int, d2: int, q: int, m: int)
    requires m == n1 * d2 - d1 * n2 * q
    ensures m as real == (n1 as real) * (d2 as real) - (d1 as real) * (n2 as real) * (q as real)
  {
    CastProduct(n1, d2);
    CastProduct(d1, n2);
    CastProduct(d1 * n2, q);
  }

  lemma CastBound(d1: int, n2: int, m: int)
    requires d1 > 0 && Abs(m) < d1 * Abs(n2)
    ensures RealAbs(m as real) < (d1 as real) * RealAbs(n2 as real)
  {
    CastProduct(d1, Abs(n2));
  }

  /** Truncated remainder of `n1/d1` by `n2/d2`, in real numbers. */
  lemma RealRemainder(n1: real, d1: real, n2: real, d2: real, q: real, m: real, v: real)
    requires d1 > 0.0 && d2 > 0.0 && n2 != 0.0
    requires m == n1 * d2 - d1 * n2 * q
    requires n1 >= 0.0 ==> m >= 0.0
    requires n1 <= 0.0 ==> m <= 0.0
    requires RealAbs(m) < d1 * RealAbs(n2)
    requires v == m / (d1 * d2)
    ensures n1 / d1 == q * (n2 / d2) + v
    ensures RealAbs(v) < RealAbs(n2 / d2)
    ensures n1 / d1 >= 0.0 ==> v >= 0.0
    ensures n1 / d1 <= 0.0 ==> v <= 0.0
  {
    assert (n1 * d2 - d1 * n2 * q) / (d1 * d2) == n1 / d1 - q * (n2 / d2);
    RealQuotientBounds(m, d1, n2, d2);
    assert n1 / d1 >= 0.0 <==> n1 >= 0.0;
    assert n1 / d1 <= 0.0 <==> n1 <= 0.0;
  }

  lemma CastProduct(x: int, y: int)
    ensures (x * y) as real == x as real * y as real
  {
  }

  lemma RealQuotientBounds(m: real, d1: real, n2: real, d2: real)
    requires d1 > 0.0 && d2 > 0.0
    requires RealAbs(m) < d1 * RealAbs(n2)
    ensures RealAbs(m / (d1 * d2)) < RealAbs(n2 / d2)
    ensures m >= 0.0 ==> m / (d1 * d2) >= 0.0
    ensures m <= 0.0 ==> m / (d1 * d2) <= 0.0
  {
    assert RealAbs(m / (d1 * d2)) == RealAbs(m) / (d1 * d2);
    assert RealAbs(n2 / d2) == (d1 * RealAbs(n2)) / (d1 * d2);
  }

  lemma RemainderSign(a: Ratio, b: Ratio, m: int)
    requires a.denom > 0 && b.denom > 0 && b.numer != 0
    requires m == TruncMod(a.numer * b.denom, a.denom * b.numer)
    ensures a.numer >= 0 ==> m >= 0
    ensures a.numer <= 0 ==> m <= 0
    ensures Abs(m) < a.denom * Abs(b.numer)
  {
    AbsMul(a.denom, b.numer);
    if a.numer > 0 {
      MulPositive(a.numer, b.denom);
    } else if a.numer < 0 {
      MulPositive(-a.numer, b.denom);
    }
  }

  /** Unary minus: negate the numerator and keep the denominator, without
      reducing. */
  function Neg(x: Ratio): (r: Ratio)
    ensures r.denom == x.denom && r.numer == 0 - x.numer
    ensures x.denom != 0 ==> Val(r) == -Val(x)
    ensures Valid(x) ==> Valid(r)
  {
    Ratio(-x.numer, x.denom)
  }

  // ---------------------------------------------------------------------
  // Identities and round trips: exact arithmetic on canonical values
  // ---------------------------------------------------------------------

  /** `a + zero() == a`, on either side. */
  lemma AddZero(a: Ratio)
    requires Valid(a)
    ensures Add(a, Zero()) == a && Add(Zero(), a) == a
  {
    ValidUnique(Add(a, Zero()), a);
    ValidUnique(Add(Zero(), a), a);
  }

  /** `a * one() == a`, on either side. */
  lemma MulOne(a: Ratio)
    requires Valid(a)
    ensures Mul(a, One()) == a && Mul(One(), a) == a
  {
    ValidUnique(Mul(a, One()), a);
    ValidUnique(Mul(One(), a), a);
  }

  /** `a - a` is the canonical zero, whatever form `a` is in. */
  lemma SubSelf(a: Ratio)
    requires a.denom > 0
    ensures Sub(a, a) == Zero()
  {
    ValidUnique(Sub(a, a), Zero());
  }

  /** `a / a == one()` for a non-zero `a`. */
  lemma DivSelf(a: Ratio)
    requires a.denom > 0 && a.numer != 0
    ensures Div(a, a) == Ok(One())
  {
    ValidUnique(Div(a, a).value, One());
  }

  /** Subtraction undoes addition. */
  lemma AddThenSub(a: Ratio, b: Ratio)
    requires Valid(a) && b.denom > 0
    ensures Sub(Add(a, b), b) == a
  {
    ValidUnique(Sub(Add(a, b), b), a);
  }

  /** Multiplication undoes division by a non-zero value. */
  lemma DivThenMul(a: Ratio, b: Ratio)
    requires Valid(a) && b.denom > 0 && b.numer != 0
    ensures Div(a, b).Ok? && Mul(Div(a, b).value, b) == a
  {
    var q := Div(a, b).value;
    assert Val(q) * Val(b) == Val(a);
    ValidUnique(Mul(q, b), a);
  }

  /** Subtracting is adding the negation. */
  lemma SubIsAddNeg(a: Ratio, b: Ratio)
    requires a.denom > 0 && b.denom > 0
    ensures Sub(a, b) == Add(a, Neg(b))
  {
    ValidUnique(Sub(a, b), Add(a, Neg(b)));
  }

  /** Swapping the operands of `-` negates the result. */
  lemma SubAntisymmetric(a: Ratio, b: Ratio)
    requires a.denom > 0 && b.denom > 0
    ensures Sub(b, a) == Neg(Sub(a, b))
  {
    ValidUnique(Sub(b, a), Neg(Sub(a, b)));
  }

  lemma AddCommutative(a: Ratio, b: Ratio)
    requires a.denom > 0 && b.denom > 0
    ensures Add(a, b) == Add(b, a)
  {
    ValidUnique(Add(a, b), Add(b, a));
  }

  /** Normalising after every step does not make grouping matter. */
  lemma AddAssociative(a: Ratio, b: Ratio, c: Ratio)
    requires a.denom > 0 && b.denom > 0 && c.denom > 0
    ensures Add(Add(a, b), c) == Add(a, Add(b, c))
  {
    ValidUnique(Add(Add(a, b), c), Add(a, Add(b, c)));
  }

  lemma MulCommutative(a: Ratio, b: Ratio)
    requires a.denom > 0 && b.denom > 0
    ensures Mul(a, b) == Mul(b, a)
  {
    ValidUnique(Mul(a, b), Mul(b, a));
  }

  lemma MulAssociative(a: Ratio, b: Ratio, c: Ratio)
    requires a.denom > 0 && b.denom > 0 && c.denom > 0
    ensures Mul(Mul(a, b), c) == Mul(a, Mul(b, c))
  {
    ValidUnique(Mul(Mul(a, b), c), Mul(a, Mul(b, c)));
  }

  /** The worked example of the library's demo program: `7 / (7/3) + 1`
      normalises to exactly `4/1`. */
  lemma QuotientPlusOneExample()
    ensures Make(7, 3).Ok? && Div(FromInt(7), Make(7, 3).value).Ok?
    ensures Add(Div(FromInt(7), Make(7, 3).value).value, FromInt(1)) == Ratio(4, 1)
  {
    var y := Make(7, 3).value;
    var q := Div(FromInt(7), y).value;
    assert Val(q) == 7.0 / (7.0 / 3.0);
    ValidUnique(Add(q, FromInt(1)), FromInt(4));
  }

  /** `10/3 + 1` is `13/3`. */
  lemma ThirdsPlusOneExample()
    ensures Make(10, 3).Ok? && Add(Make(10, 3).value, FromInt(1)) == Ratio(13, 3)
  {
    assert Gcd(13, 3) == 1;
    ValidUnique(Add(Make(10, 3).value, FromInt(1)), Ratio(13, 3));
  }
}
