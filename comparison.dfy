/** The relational operators of rational.hpp. `==` and `>` compare the
    products `numer·denom` of the two operands, and the other four are
    derived from those two. The product is not the value, so these
    operators order values correctly only in special cases: comparing with
    zero (the only comparison the rounding functions make) and comparing
    pairs with a common positive denominator. The cross-product comparisons
    `ValueEq` and `ValueGt` are the corrected definitions. */
module Comparison {
  import opened Integers
  import opened Rationals

  /** The quantity the operators compare. */
  function Key(x: Ratio): int
  {
    x.numer * x.denom
  }

  /** `operator==` as written. It is reflexive and never equates a zero
      with a non-zero value, but see `EqDefect`. */
  function Eq(a: Ratio, b: Ratio): (r: bool)
    ensures a == b ==> r
    ensures r && a.denom != 0 && b.denom != 0 ==> (a.numer == 0 <==> b.numer == 0)
  {
    Key(a) == Key(b)
  }

  /** `operator!=`: the negation of `operator==`; a zero and a non-zero
      value are always unequal. */
  function Ne(a: Ratio, b: Ratio): (r: bool)
    ensures a == b ==> !r
    ensures a.denom != 0 && b.denom != 0 && (a.numer == 0) != (b.numer == 0) ==> r
  {
    !Eq(a, b)
  }

  /** `operator>` as written. It is irreflexive and, against a zero with a
      positive denominator, tests the sign of the numerator; see `GtDefect`
      for where it goes wrong. */
  function Gt(a: Ratio, b: Ratio): (r: bool)
    ensures r ==> a != b
    ensures a.denom > 0 && b.denom > 0 && b.numer == 0 ==> (r <==> a.numer > 0)
  {
    Key(a) > Key(b)
  }

  /** `operator<`: `rhs > lhs`. Against a zero it tests for a negative
      numerator. */
  function Lt(a: Ratio, b: Ratio): (r: bool)
    ensures r ==> a != b
    ensures a.denom > 0 && b.denom > 0 && b.numer == 0 ==> (r <==> a.numer < 0)
  {
    Gt(b, a)
  }

  /** `operator<=`: not `lhs > rhs`. Reflexive; against a zero it tests
      for a numerator that is not positive. */
  function Le(a: Ratio, b: Ratio): (r: bool)
    ensures a == b ==> r
    ensures a.denom > 0 && b.denom > 0 && b.numer == 0 ==> (r <==> a.numer <= 0)
  {
    !Gt(a, b)
  }

  /** `operator>=`: not `lhs < rhs`. Reflexive; against a zero it tests
      for a numerator that is not negative. */
  function Ge(a: Ratio, b: Ratio): (r: bool)
    ensures a == b ==> r
    ensures a.denom > 0 && b.denom > 0 && b.numer == 0 ==> (r <==> a.numer >= 0)
  {
    !Lt(a, b)
  }

  // ---------------------------------------------------------------------
  // What the operators as written do guarantee
  // ---------------------------------------------------------------------

  /** The derived operators are consistent with `==` and `>`: `<=` is `<`
      or `==`, `>=` is `>` or `==`, and exactly one of `<`, `==`, `>`
      holds. */
  lemma Trichotomy(a: Ratio, b: Ratio)
    ensures Le(a, b) <==> Lt(a, b) || Eq(a, b)
    ensures Ge(a, b) <==> Gt(a, b) || Eq(a, b)
    ensures Lt(a, b) <==> !Eq(a, b) && !Gt(a, b)
    ensures Ne(a, b) <==> Lt(a, b) || Gt(a, b)
    ensures !(Lt(a, b) && Gt(a, b))
  {
  }

  /** Comparing with zero (`0/1`) tests the sign of the value, for any pair
      with a positive denominator, reduced or not. */
  lemma {:induction false} CompareWithZero(x: Ratio)
    requires x.denom > 0
    ensures Gt(x, Zero()) <==> Val(x) > 0.0
    ensures Lt(x, Zero()) <==> Val(x) < 0.0
    ensures Eq(x, Zero()) <==> Val(x) == 0.0
  {
    ValSign(x);
    KeySign(x);
  }

  lemma KeySign(x: Ratio)
    requires x.denom > 0
    ensures Key(x) > 0 <==> x.numer > 0
    ensures Key(x) < 0 <==> x.numer < 0
  {
    if x.numer > 0 {
      MulStrictMono(x.denom, 0, x.numer);
    } else if x.numer < 0 {
      MulStrictMono(x.denom, x.numer, 0);
    }
  }

  /** With a common positive denominator the product is monotone in the
      numerator, so the operators as written order values correctly. */
  lemma {:induction false} CommonDenominator(a: Ratio, b: Ratio)
    requires a.denom > 0 && a.denom == b.denom
    ensures Eq(a, b) <==> Val(a) == Val(b)
    ensures Gt(a, b) <==> Val(a) > Val(b)
  {
    ValueGtMeaning(a, b);
    CrossEqIffValEq(a, b);
    if a.numer > b.numer {
      MulStrictMono(a.denom, b.numer, a.numer);
    } else if a.numer < b.numer {
      MulStrictMono(a.denom, a.numer, b.numer);
    }
  }

  /** `1/2 == 2/1` holds as written although the values differ: both
      products are 2. */
  lemma EqDefect()
    ensures Valid(Ratio(1, 2)) && Valid(Ratio(2, 1))
    ensures Eq(Ratio(1, 2), Ratio(2, 1))
    ensures Val(Ratio(1, 2)) != Val(Ratio(2, 1))
  {
    assert Gcd(1, 2) == 1;
    assert Gcd(2, 1) == 1;
    assert Val(Ratio(1, 2)) == 0.5;
  }

  /** `1/3 > 1/2` holds as written although `1/3` is the smaller value. */
  lemma GtDefect()
    ensures Valid(Ratio(1, 3)) && Valid(Ratio(1, 2))
    ensures Gt(Ratio(1, 3), Ratio(1, 2))
    ensures Val(Ratio(1, 3)) < Val(Ratio(1, 2))
  {
    assert Gcd(1, 3) == 1;
    assert Gcd(1, 2) == 1;
    assert Val(Ratio(1, 2)) == 0.5;
    assert Val(Ratio(1, 3)) * 3.0 == 1.0;
  }

  // ---------------------------------------------------------------------
  // The corrected comparisons
  // ---------------------------------------------------------------------

  /** Equality of values, by cross products. */
  predicate ValueEq(a: Ratio, b: Ratio)
  {
    a.numer * b.denom == b.numer * a.denom
  }

  /** Greater-than on values, by cross products (positive denominators). */
  predicate ValueGt(a: Ratio, b: Ratio)
  {
    a.numer * b.denom > b.numer * a.denom
  }

  /** The cross-product test decides equality of values. */
  lemma ValueEqMeaning(a: Ratio, b: Ratio)
    requires a.denom != 0 && b.denom != 0
    ensures ValueEq(a, b) <==> Val(a) == Val(b)
  {
    CrossEqIffValEq(a, b);
  }

  /** On pairs in lowest terms, value equality is equality of the pairs:
      what `operator==` is evidently meant to test. */
  lemma {:induction false} ValueEqCanonical(a: Ratio, b: Ratio)
    requires Valid(a) && Valid(b)
    ensures ValueEq(a, b) <==> a == b
  {
    CrossEqIffValEq(a, b);
    if ValueEq(a, b) {
      ValidUnique(a, b);
    }
  }

  /** The cross-product test decides the order of values. */
  lemma {:induction false} ValueGtMeaning(a: Ratio, b: Ratio)
    requires a.denom > 0 && b.denom > 0
    ensures ValueGt(a, b) <==> Val(a) > Val(b)
  {
    var n1, d1, n2, d2 := a.numer as real, a.denom as real, b.numer as real, b.denom as real;
    assert (a.numer * b.denom) as real == n1 * d2;
    assert (b.numer * a.denom) as real == n2 * d1;
    RealCrossLess(n1, d1, n2, d2);
  }

  lemma RealCrossLess(a: real, b: real, c: real, d: real)
    requires b > 0.0 && d > 0.0
    ensures a / b > c / d <==> a * d > c * b
  {
    assert a / b - c / d == (a * d - c * b) / (b * d);
    assert b * d > 0.0;
  }

  /** The corrected comparisons are a strict total order on values. */
  lemma {:induction false} ValueTrichotomy(a: Ratio, b: Ratio)
    requires a.denom > 0 && b.denom > 0
    ensures ValueGt(a, b) || ValueEq(a, b) || ValueGt(b, a)
    ensures !(ValueGt(a, b) && ValueGt(b, a))
    ensures ValueEq(a, b) ==> !ValueGt(a, b)
  {
  }

  /** The corrected order is transitive. */
  lemma {:induction false} ValueGtTransitive(a: Ratio, b: Ratio, c: Ratio)
    requires a.denom > 0 && b.denom > 0 && c.denom > 0
    requires ValueGt(a, b) && ValueGt(b, c)
    ensures ValueGt(a, c)
  {
    ValueGtMeaning(a, b);
    ValueGtMeaning(b, c);
    ValueGtMeaning(a, c);
  }

  /** Against zero, the operators as written and the corrected ones agree. */
  lemma {:induction false} AgreeWithZero(x: Ratio)
    requires x.denom > 0
    ensures Gt(x, Zero()) <==> ValueGt(x, Zero())
    ensures Lt(x, Zero()) <==> ValueGt(Zero(), x)
    ensures Eq(x, Zero()) <==> ValueEq(x, Zero())
  {
    KeySign(x);
  }
}
