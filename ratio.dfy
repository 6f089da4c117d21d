/** The value type `Ratio<T>` of rational.hpp, with `T` an unbounded
    integer: a numerator/denominator pair that every public operation hands
    out in lowest terms with a positive denominator. This module holds the
    representation, its invariant, its meaning as a real number, reduction,
    the normalising two-argument constructor and the constants. */
module Rationals {
  import opened Integers

  /** The exceptions the core can raise. */
  datatype Error = DivideByZero

  datatype Result<T> = Ok(value: T) | Err(error: Error)

  /** A numerator/denominator pair. Values made through the no-reduce
      constructor are taken as given, so the type itself admits any pair;
      `Valid` is the invariant the library maintains. */
  datatype Ratio = Ratio(numer: int, denom: int)

  /** Lowest terms with the sign carried by the numerator alone. */
  predicate Valid(r: Ratio)
  {
    r.denom > 0 && Gcd(Abs(r.numer), r.denom) == 1
  }

  /** The rational number a pair stands for. */
  ghost function Val(r: Ratio): real
    requires r.denom != 0
  {
    r.numer as real / r.denom as real
  }

  // ---------------------------------------------------------------------
  // Values and cross products
  // ---------------------------------------------------------------------

  /** Two pairs stand for the same number exactly when their cross products
      agree. */
  lemma CrossEqIffValEq(x: Ratio, y: Ratio)
    requires x.denom != 0 && y.denom != 0
    ensures (x.numer * y.denom == y.numer * x.denom) <==> Val(x) == Val(y)
  {
    var nx, dx, ny, dy := x.numer as real, x.denom as real, y.numer as real, y.denom as real;
    assert (x.numer * y.denom) as real == nx * dy;
    assert (y.numer * x.denom) as real == ny * dx;
    assert Val(x) == nx / dx && Val(y) == ny / dy;
    RealCross(nx, dx, ny, dy);
  }

  lemma RealCross(a: real, b: real, c: real, d: real)
    requires b != 0.0 && d != 0.0
    ensures a / b == c / d <==> a * d == c * b
  {
    if a / b == c / d {
      calc {
        a * d;
        (a / b) * b * d;
        (c / d) * d * b;
        c * b;
      }
    }
    if a * d == c * b {
      calc {
        a / b;
        (a * d) / (b * d);
        (c * b) / (b * d);
        c / d;
      }
    }
  }

  /** A valid pair is positive, zero or negative exactly as its numerator is. */
  lemma ValSign(x: Ratio)
    requires x.denom > 0
    ensures Val(x) > 0.0 <==> x.numer > 0
    ensures Val(x) < 0.0 <==> x.numer < 0
    ensures Val(x) == 0.0 <==> x.numer == 0
  {
    var n, d := x.numer as real, x.denom as real;
    if x.numer > 0 {
      assert n / d > 0.0;
    } else if x.numer < 0 {
      assert n / d < 0.0;
    }
  }

  // ---------------------------------------------------------------------
  // Reduction
  // ---------------------------------------------------------------------

  /** `reduced()`: divide both parts by the gcd of their magnitudes (C++
      truncating division), then move a negative sign off the denominator.
      The source divides by zero when both parts are zero. A pair with a
      zero denominator reduces to `±1/0`, outside the invariant. */
  function Reduce(x: Ratio): (r: Ratio)
    requires x.numer != 0 || x.denom != 0
    ensures r.numer * x.denom == x.numer * r.denom
    ensures x.denom != 0 ==> Valid(r) && Val(r) == Val(x)
    ensures x.denom == 0 ==> r.denom == 0 && Abs(r.numer) == 1
  {
    var g := Gcd(Abs(x.numer), Abs(x.denom));
    GcdPositive(Abs(x.numer), Abs(x.denom));
    var n, d := TruncDiv(x.numer, g), TruncDiv(x.denom, g);
    ReduceFacts(x, g, n, d);
    var r := if d < 0 then Ratio(0 - n, 0 - d) else Ratio(n, d);
    ReduceResult(x, n, d, r);
    r
  }

  /** Moving the sign to the numerator keeps the value and the coprimality
      that division by the gcd established. */
  lemma ReduceResult(x: Ratio, n: int, d: int, r: Ratio)
    requires Gcd(Abs(n), Abs(d)) == 1
    requires n * x.denom == x.numer * d
    requires x.denom != 0 ==> d != 0
    requires x.denom == 0 ==> d == 0 && Abs(n) == 1
    requires r == if d < 0 then Ratio(0 - n, 0 - d) else Ratio(n, d)
    ensures r.numer * x.denom == x.numer * r.denom
    ensures x.denom != 0 ==> Valid(r) && Val(r) == Val(x)
    ensures x.denom == 0 ==> r.denom == 0 && Abs(r.numer) == 1
  {
    assert Abs(r.numer) == Abs(n) && r.denom == Abs(d);
    if d < 0 {
      assert (0 - n) * x.denom == -(n * x.denom);
      assert x.numer * (0 - d) == -(x.numer * d);
    }
    if x.denom != 0 {
      CrossEqIffValEq(r, x);
    }
  }

  /** The arithmetic behind `Reduce`: the quotients by the gcd are exact,
      coprime, and keep the value. */
  lemma ReduceFacts(x: Ratio, g: int, n: int, d: int)
    requires x.numer != 0 || x.denom != 0
    requires g == Gcd(Abs(x.numer), Abs(x.denom)) && g > 0
    requires n == TruncDiv(x.numer, g) && d == TruncDiv(x.denom, g)
    ensures g * n == x.numer && g * d == x.denom
    ensures Gcd(Abs(n), Abs(d)) == 1
    ensures n * x.denom == x.numer * d
    ensures x.denom != 0 ==> d != 0
    ensures x.denom == 0 ==> d == 0 && Abs(n) == 1
  {
    GcdDivides(Abs(x.numer), Abs(x.denom));
    TruncDivExact(x.numer, g);
    TruncDivExact(x.denom, g);
    ExactCofactors(x, g, n, d);
  }

  /** Cofactors of the gcd are coprime and keep the value. */
  lemma ExactCofactors(x: Ratio, g: int, n: int, d: int)
    requires g == Gcd(Abs(x.numer), Abs(x.denom)) && g > 0
    requires g * n == x.numer && g * d == x.denom
    ensures Gcd(Abs(n), Abs(d)) == 1
    ensures n * x.denom == x.numer * d
    ensures x.denom != 0 ==> d != 0
    ensures x.denom == 0 ==> d == 0 && Abs(n) == 1
  {
    assert g * Abs(n) == Abs(x.numer) && g * Abs(d) == Abs(x.denom) by {
      AbsMul(g, n);
      AbsMul(g, d);
    }
    CoprimeCofactors(Abs(n), Abs(d), g);
    assert n * x.denom == x.numer * d by {
      assert n * (g * d) == (g * n) * d;
    }
    if x.denom == 0 {
      assert g == Abs(x.numer);
      assert g * Abs(n) == g * 1;
      DivModUnique(g, g, Abs(n), 0);
      DivModUnique(g, g, 1, 0);
    }
  }

  lemma AbsMul(g: nat, n: int)
    ensures Abs(g * n) == g * Abs(n)
  {
    if n < 0 {
      assert g * n == -(g * -n);
      MulNonNegative(g, -n);
    } else {
      MulNonNegative(g, n);
    }
  }

  /** `reduce()` leaves a pair that is already in lowest terms as it is. */
  lemma {:induction false} ReduceValid(x: Ratio)
    requires Valid(x)
    ensures Reduce(x) == x
  {
    var g := Gcd(Abs(x.numer), Abs(x.denom));
    assert g == 1;
    var n, d := TruncDiv(x.numer, g), TruncDiv(x.denom, g);
    ReduceFacts(x, g, n, d);
  }

  /** Reducing twice is reducing once, for every pair `reduce()` accepts. */
  lemma {:induction false} ReduceIdempotent(x: Ratio)
    requires x.numer != 0 || x.denom != 0
    ensures Reduce(Reduce(x)) == Reduce(x)
  {
    var r := Reduce(x);
    if x.denom != 0 {
      ReduceValid(r);
    } else {
      var g := Gcd(Abs(r.numer), Abs(r.denom));
      assert g == 1;
      ReduceFacts(r, g, TruncDiv(r.numer, g), TruncDiv(r.denom, g));
    }
  }

  /** In lowest terms with a positive denominator, a pair is determined by
      the number it stands for. */
  lemma {:induction false} ValidUnique(a: Ratio, b: Ratio)
    requires Valid(a) && Valid(b) && Val(a) == Val(b)
    ensures a == b
  {
    CrossEqIffValEq(a, b);
    AbsCross(a, b);
    DenominatorDivides(a, b);
    DenominatorDivides(b, a);
    DividesAntisym(a.denom, b.denom);
    assert (a.numer - b.numer) * a.denom == 0;
  }

  lemma AbsCross(a: Ratio, b: Ratio)
    requires a.denom > 0 && b.denom > 0
    requires a.numer * b.denom == b.numer * a.denom
    ensures Abs(a.numer) * b.denom == Abs(b.numer) * a.denom
  {
    AbsMul(b.denom, a.numer);
    AbsMul(a.denom, b.numer);
    assert b.denom * a.numer == a.denom * b.numer;
  }

  /** Of two equal-valued pairs, the denominator of the one in lowest terms
      divides the other denominator. */
  lemma DenominatorDivides(a: Ratio, b: Ratio)
    requires Valid(a) && b.denom > 0
    requires Abs(a.numer) * b.denom == Abs(b.numer) * a.denom
    ensures Divides(a.denom, b.denom)
  {
    var k := Abs(b.numer);
    MulDivides(a.denom, k);
    assert a.denom * k == Abs(a.numer) * b.denom;
    CoprimeDivides(a.denom, Abs(a.numer), b.denom);
  }

  /** A valid zero is the canonical `0/1`. */
  lemma ZeroCanonical(r: Ratio)
    requires Valid(r) && r.numer == 0
    ensures r == Zero()
  {
    assert Gcd(0, r.denom) == Gcd(r.denom, 0);
  }

  // ---------------------------------------------------------------------
  // Construction and constants
  // ---------------------------------------------------------------------

  /** The two-argument constructor (and `make_ratio(numer, denom)`): rejects
      a zero denominator, otherwise reduces. */
  function Make(n: int, d: int): (r: Result<Ratio>)
    ensures r.Err? <==> d == 0
    ensures r.Err? ==> r.error == DivideByZero
    ensures r.Ok? ==> Valid(r.value) && Val(r.value) == n as real / d as real
    ensures r.Ok? ==> r.value.numer * d == n * r.value.denom
  {
    if d == 0 then Err(DivideByZero) else Ok(Reduce(Ratio(n, d)))
  }

  /** A zero numerator always yields the canonical zero `0/1`. */
  lemma MakeZero(d: int)
    requires d != 0
    ensures Make(0, d) == Ok(Zero())
  {
    var r := Make(0, d).value;
    assert r.numer * d == 0;
    ZeroCanonical(r);
  }

  /** Making a pair that is already in lowest terms gives it back. */
  lemma MakeValid(x: Ratio)
    requires Valid(x)
    ensures Make(x.numer, x.denom) == Ok(x)
  {
    ReduceValid(x);
  }

  /** The one-argument constructor from an integer (and `make_ratio(num)`):
      `u/1`, built without reduction. */
  function FromInt(u: int): (r: Ratio)
    ensures Valid(r) && Val(r) == u as real
    ensures r.denom == 1
  {
    assert Gcd(Abs(u), 1) == Gcd(1, 0) by {
      assert Abs(u) % 1 == 0;
    }
    Ratio(u, 1)
  }

  /** `zero()`, which is also what the default constructor builds. */
  function Zero(): (r: Ratio)
    ensures Valid(r) && Val(r) == 0.0
  {
    Ratio(0, 1)
  }

  /** `one()`. */
  function One(): (r: Ratio)
    ensures Valid(r) && Val(r) == 1.0
  {
    Ratio(1, 1)
  }

  /** `pi()`: the approximation 6283/2000, which is exactly 3.1415. */
  function Pi(): (r: Ratio)
    ensures Valid(r) && Val(r) == 3.1415
  {
    assert Gcd(6283, 2000) == 1;
    Ratio(6283, 2000)
  }

  /** `is_integer()`: the denominator is one, so the value is the
      numerator itself. */
  function IsInteger(x: Ratio): (r: bool)
    ensures r ==> x.denom != 0 && Val(x) == x.numer as real
  {
    x.denom == 1
  }

  /** For a valid pair, `is_integer()` holds exactly when the value is a
      whole number, that is when the denominator divides the numerator. */
  lemma IsIntegerMeaning(x: Ratio)
    requires Valid(x)
    ensures IsInteger(x) <==> Divides(x.denom, Abs(x.numer))
  {
    if Divides(x.denom, Abs(x.numer)) {
      MulDivides(x.denom, 1);
      GcdGreatest(Abs(x.numer), x.denom, x.denom);
      DividesLe(x.denom, 1);
    }
  }
}
