/** The sign queries of rational.hpp: `is_zero`, `is_positive`,
    `is_negative`, `abs`, `abs_sub` and `signum`. They read only the
    numerator, which is where the sign lives once the denominator is
    positive. */
module Signs {
  import Integers
  import opened Rationals
  import opened Arithmetic
  import opened Comparison

  /** `is_zero()`: whether the value is zero. */
  function IsZero(x: Ratio): (r: bool)
    ensures x.denom != 0 ==> (r <==> Val(x) == 0.0)
  {
    x.numer == 0
  }

  /** `is_positive()`: whether the value is above zero, for a positive
      denominator. */
  function IsPositive(x: Ratio): (r: bool)
    ensures x.denom > 0 ==> (r <==> Val(x) > 0.0)
  {
    x.numer > 0
  }

  /** `is_negative()`: whether the value is below zero, for a positive
      denominator. */
  function IsNegative(x: Ratio): (r: bool)
    ensures x.denom > 0 ==> (r <==> Val(x) < 0.0)
  {
    x.numer < 0
  }

  /** `abs()`: the pair itself when positive or zero, its negation
      otherwise. Only the numerator's sign is consulted. */
  function Abs(x: Ratio): (r: Ratio)
    ensures r.numer >= 0 && r.denom == x.denom
    ensures Integers.Abs(r.numer) == Integers.Abs(x.numer)
    ensures x.denom > 0 ==> Val(r) == RealAbs(Val(x))
    ensures Valid(x) ==> Valid(r)
  {
    if IsPositive(x) || IsZero(x) then x else Neg(x)
  }

  /** `abs_sub(rhs)`: the distance `|lhs - rhs|`, in lowest terms. */
  function AbsSub(a: Ratio, b: Ratio): (r: Ratio)
    requires a.denom > 0 && b.denom > 0
    ensures Valid(r) && Val(r) == RealAbs(Val(a) - Val(b))
  {
    Abs(Sub(a, b))
  }

  /** The distance does not depend on the order of the operands. */
  lemma {:induction false} AbsSubSymmetric(a: Ratio, b: Ratio)
    requires a.denom > 0 && b.denom > 0
    ensures AbsSub(a, b) == AbsSub(b, a)
  {
    ValidUnique(AbsSub(a, b), AbsSub(b, a));
  }

  /** The distance is zero exactly between equal values. */
  lemma {:induction false} AbsSubZero(a: Ratio, b: Ratio)
    requires a.denom > 0 && b.denom > 0
    ensures AbsSub(a, b) == Zero() <==> Val(a) == Val(b)
  {
    var r := AbsSub(a, b);
    if Val(a) == Val(b) {
      ValidUnique(r, Zero());
    }
  }

  /** `signum()`: 0, 1 or -1 as the numerator is zero, positive or
      negative. */
  function Signum(x: Ratio): (s: int)
    ensures -1 <= s <= 1
    ensures s * x.numer == Integers.Abs(x.numer)
    ensures s == 0 <==> x.numer == 0
  {
    if IsZero(x) then 0 else if IsPositive(x) then 1 else -1
  }

  /** With a positive denominator the sign is that of the value. */
  lemma {:induction false} SignumMeaning(x: Ratio)
    requires x.denom > 0
    ensures Signum(x) == 0 <==> Val(x) == 0.0
    ensures Signum(x) == 1 <==> Val(x) > 0.0
    ensures Signum(x) == -1 <==> Val(x) < 0.0
  {
    ValSign(x);
  }

  /** The sign queries and `signum()` agree with comparing against zero
      through the relational operators. */
  lemma {:induction false} SignMatchesComparison(x: Ratio)
    requires x.denom > 0
    ensures IsPositive(x) <==> Gt(x, Zero())
    ensures IsNegative(x) <==> Lt(x, Zero())
    ensures IsZero(x) <==> Eq(x, Zero())
    ensures Signum(x) == 1 <==> Gt(x, Zero())
    ensures Signum(x) == -1 <==> Lt(x, Zero())
    ensures Signum(x) == 0 <==> Eq(x, Zero())
  {
    KeySign(x);
  }

  /** A value is its sign times its magnitude: `signum() * abs() == *this`. */
  lemma {:induction false} SignumTimesAbs(x: Ratio)
    requires Valid(x)
    ensures Mul(FromInt(Signum(x)), Abs(x)) == x
  {
    var r := Mul(FromInt(Signum(x)), Abs(x));
    SignumMeaning(x);
    assert Val(r) == (Signum(x) as real) * RealAbs(Val(x));
    ValidUnique(r, x);
  }
}
