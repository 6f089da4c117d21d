/** `Ratio<T>` as the mutable object it is in rational.hpp: two fields that
    `reduce()`, assignment, the compound assignments and the increment and
    decrement operators overwrite in place. The const members read the
    object's current value, `Get()`, and are the functions of the other
    modules applied to it. */
module Objects {
  import opened Integers
  import opened Rationals
  import opened Arithmetic

  class RatioVar {
    var numer: int
    var denom: int

    /** The value the object currently holds. */
    function Get(): Ratio
      reads this
    {
      Ratio(numer, denom)
    }

    /** The invariant every public operation but the no-reduce constructor
        establishes. */
    predicate Valid()
      reads this
    {
      Rationals.Valid(Get())
    }

    /** The default constructor: `0/1`. */
    constructor ()
      ensures Get() == Zero() && Valid()
    {
      numer := 0;
      denom := 1;
    }

    /** The converting constructor from an integer: `u/1`, unreduced. */
    constructor FromInteger(u: int)
      ensures Get() == FromInt(u) && Valid()
    {
      numer := u;
      denom := 1;
    }

    /** The no-reduce constructor: the pair exactly as given. */
    constructor NoReduce(n: int, d: int)
      ensures Get() == Ratio(n, d)
    {
      numer := n;
      denom := d;
    }

    /** The copy constructor. */
    constructor Copy(other: RatioVar)
      ensures Get() == other.Get()
    {
      numer := other.numer;
      denom := other.denom;
    }

    /** The checked two-argument constructor: a zero denominator raises
        `DivideByZero`; otherwise a no-reduce temporary is reduced and
        copied out. */
    static method Create(n: int, d: int) returns (r: Result<RatioVar>)
      ensures r.Err? <==> d == 0
      ensures r.Err? ==> r.error == DivideByZero
      ensures r.Ok? ==> fresh(r.value) && r.value.Valid()
      ensures r.Ok? ==> r.value.Get() == Make(n, d).value
    {
      if d == 0 {
        return Err(DivideByZero);
      }
      var ret := new RatioVar.NoReduce(n, d);
      ret.Reduce();
      return Ok(ret);
    }

    /** `reduce()`: divide both fields by their gcd, computed by the loop of
        `ComputeGcd`, then move a negative sign to the numerator. */
    method Reduce()
      requires numer != 0 || denom != 0
      modifies this
      ensures Get() == Rationals.Reduce(old(Get()))
      ensures old(denom) != 0 ==> Valid() && Val(Get()) == Val(old(Get()))
    {
      var g := ComputeGcd(numer, denom);
      GcdPositive(Abs(numer), Abs(denom));
      numer := TruncDiv(numer, g);
      denom := TruncDiv(denom, g);
      if denom < 0 {
        numer := 0 - numer;
        denom := 0 - denom;
      }
    }

    /** `reduced()`: a reduced copy; the object itself is left alone. */
    method Reduced() returns (r: Ratio)
      requires numer != 0 || denom != 0
      ensures r == Rationals.Reduce(Get())
      ensures denom != 0 ==> Rationals.Valid(r) && Val(r) == Val(Get())
      ensures r.numer * denom == numer * r.denom
    {
      var ret := new RatioVar.Copy(this);
      ret.Reduce();
      r := ret.Get();
    }

    /** Copy assignment from another object (which may be this one). */
    method Assign(rat: RatioVar)
      modifies this
      ensures Get() == old(rat.Get())
    {
      numer, denom := rat.numer, rat.denom;
    }

    // -------------------------------------------------------------------
    // Compound assignment: `lhs = lhs op rhs`, returning the new value.
    // The right operand may be the object itself (`x += x`); it is read
    // before the object is written.
    // -------------------------------------------------------------------

    /** `operator+=`. */
    method AddAssign(rhs: RatioVar) returns (r: Ratio)
      requires denom > 0 && rhs.denom > 0
      modifies this
      ensures Get() == Add(old(Get()), old(rhs.Get())) && r == Get()
      ensures Valid() && Val(Get()) == Val(old(Get())) + Val(old(rhs.Get()))
      ensures rhs != this ==> rhs.Get() == old(rhs.Get())
    {
      var sum := Add(Get(), rhs.Get());
      numer, denom := sum.numer, sum.denom;
      r := Get();
    }

    /** `operator-=`. */
    method SubAssign(rhs: RatioVar) returns (r: Ratio)
      requires denom > 0 && rhs.denom > 0
      modifies this
      ensures Get() == Sub(old(Get()), old(rhs.Get())) && r == Get()
      ensures Valid() && Val(Get()) == Val(old(Get())) - Val(old(rhs.Get()))
      ensures rhs != this ==> rhs.Get() == old(rhs.Get())
    {
      var difference := Sub(Get(), rhs.Get());
      numer, denom := difference.numer, difference.denom;
      r := Get();
    }

    /** `operator*=`. */
    method MulAssign(rhs: RatioVar) returns (r: Ratio)
      requires denom > 0 && rhs.denom > 0
      modifies this
      ensures Get() == Mul(old(Get()), old(rhs.Get())) && r == Get()
      ensures Valid()
      ensures rhs != this ==> rhs.Get() == old(rhs.Get())
    {
      var product := Mul(Get(), rhs.Get());
      numer, denom := product.numer, product.denom;
      r := Get();
    }

    /** `operator/=`: dividing by zero raises `DivideByZero` before the
        assignment, leaving the object as it was. */
    method DivAssign(rhs: RatioVar) returns (r: Result<Ratio>)
      requires denom > 0 && rhs.denom > 0
      modifies this
      ensures r.Err? <==> old(rhs.numer) == 0
      ensures r.Err? ==> r.error == DivideByZero && Get() == old(Get())
      ensures r.Ok? ==> Get() == Div(old(Get()), old(rhs.Get())).value && r.value == Get()
      ensures r.Ok? ==> Valid() && Val(Get()) == Val(old(Get())) / Val(old(rhs.Get()))
      ensures rhs != this ==> rhs.Get() == old(rhs.Get())
    {
      var quotient := Div(Get(), rhs.Get());
      if quotient.Err? {
        return Err(quotient.error);
      }
      numer, denom := quotient.value.numer, quotient.value.denom;
      r := Ok(Get());
    }

    /** `operator%=`; the integer `%` inside is undefined for a zero
        divisor. */
    method ModAssign(rhs: RatioVar) returns (r: Ratio)
      requires denom > 0 && rhs.denom > 0 && rhs.numer != 0
      modifies this
      ensures Get() == Mod(old(Get()), old(rhs.Get())) && r == Get()
      ensures Valid()
      ensures rhs != this ==> rhs.Get() == old(rhs.Get())
    {
      var remainder := Mod(Get(), rhs.Get());
      numer, denom := remainder.numer, remainder.denom;
      r := Get();
    }

    // -------------------------------------------------------------------
    // Increment and decrement
    // -------------------------------------------------------------------

    /** Prefix `++`: add one and yield the new value. */
    method PreIncrement() returns (r: Ratio)
      requires denom > 0
      modifies this
      ensures Get() == Add(old(Get()), FromInt(1)) && r == Get()
      ensures Valid() && Val(Get()) == Val(old(Get())) + 1.0
    {
      var next := Add(Get(), FromInt(1));
      numer, denom := next.numer, next.denom;
      r := Get();
    }

    /** Prefix `--`: subtract one and yield the new value. */
    method PreDecrement() returns (r: Ratio)
      requires denom > 0
      modifies this
      ensures Get() == Sub(old(Get()), FromInt(1)) && r == Get()
      ensures Valid() && Val(Get()) == Val(old(Get())) - 1.0
    {
      var previous := Sub(Get(), FromInt(1));
      numer, denom := previous.numer, previous.denom;
      r := Get();
    }

    /** Postfix `++`: increment, but yield a copy of the value before. */
    method PostIncrement() returns (r: Ratio)
      requires denom > 0
      modifies this
      ensures r == old(Get())
      ensures Get() == Add(old(Get()), FromInt(1))
    {
      r := Get();
      var _ := PreIncrement();
    }

    /** Postfix `--`: decrement, but yield a copy of the value before. */
    method PostDecrement() returns (r: Ratio)
      requires denom > 0
      modifies this
      ensures r == old(Get())
      ensures Get() == Sub(old(Get()), FromInt(1))
    {
      r := Get();
      var _ := PreDecrement();
    }
  }

  /** Incrementing then decrementing a valid value restores it, and so does
      the reverse order; the objects' operators are these functions on
      `Get()`. */
  lemma {:induction false} IncrementDecrementInverse(a: Ratio)
    requires Rationals.Valid(a)
    ensures Sub(Add(a, FromInt(1)), FromInt(1)) == a
    ensures Add(Sub(a, FromInt(1)), FromInt(1)) == a
  {
    AddThenSub(a, FromInt(1));
    ValidUnique(Add(Sub(a, FromInt(1)), FromInt(1)), a);
  }
}
