/** Integer arithmetic the rational type is built from: the C++ signed
    division and remainder (which truncate toward zero, unlike Dafny's
    Euclidean `/` and `%`), divisibility, and Euclid's greatest common
    divisor, both as the loop the library runs and as the recursive
    definition it is proved against. */
module Integers {

  function Abs(x: int): nat
  {
    if x < 0 then -x else x
  }

  // ---------------------------------------------------------------------
  // Truncating division and remainder
  // ---------------------------------------------------------------------

  /** The C++ quotient `a / b`: the exact quotient rounded toward zero
      (`TruncDivBounds` states how close it is). */
  function TruncDiv(a: int, b: int): (q: int)
    requires b != 0
    ensures (a >= 0) == (b > 0) ==> q >= 0
    ensures (a <= 0) == (b > 0) ==> q <= 0
  {
    if (a >= 0) == (b > 0) then Abs(a) / Abs(b) else -(Abs(a) / Abs(b))
  }

  /** Truncation toward zero: `|q|` is the largest multiple count of `|b|`
      that fits in `|a|`. */
  lemma TruncDivBounds(a: int, b: int)
    requires b != 0
    ensures Abs(b) * Abs(TruncDiv(a, b)) <= Abs(a) < Abs(b) * (Abs(TruncDiv(a, b)) + 1)
  {
    QuotientBounds(Abs(a), Abs(b));
  }

  /** Euclidean division of naturals brackets the dividend. */
  lemma QuotientBounds(a: nat, b: nat)
    requires b > 0
    ensures a / b >= 0
    ensures b * (a / b) <= a < b * (a / b + 1)
  {
    assert a == b * (a / b) + a % b;
    assert b * (a / b + 1) == b * (a / b) + b;
  }

  /** The C++ remainder `a % b`: smaller than `b` in magnitude and carrying
      the sign of the dividend `a`. */
  function TruncMod(a: int, b: int): (m: int)
    requires b != 0
    ensures Abs(m) < Abs(b)
    ensures a >= 0 ==> m >= 0
    ensures a <= 0 ==> m <= 0
  {
    if a >= 0 then Abs(a) % Abs(b) else -(Abs(a) % Abs(b))
  }

  /** The C++ guarantee that ties the two together: `(a/b)*b + a%b == a`. */
  lemma DivModIdentity(a: int, b: int)
    requires b != 0
    ensures b * TruncDiv(a, b) + TruncMod(a, b) == a
  {
    var m, r := Abs(a) / Abs(b), Abs(a) % Abs(b);
    assert Abs(a) == Abs(b) * m + r;
    if b < 0 {
      assert b * m == -(Abs(b) * m);
      assert b * -m == Abs(b) * m;
    }
  }

  /** A quotient and remainder that satisfy the defining equation are the
      ones Dafny's Euclidean `/` and `%` compute. */
  lemma DivModUnique(a: int, b: int, q: int, r: int)
    requires b > 0 && a == b * q + r && 0 <= r < b
    ensures a / b == q && a % b == r
  {
    var q', r' := a / b, a % b;
    assert b * q' + r' == b * q + r;
    assert b * (q - q') == r' - r;
    if q - q' >= 1 {
      MulAtLeast(b, q - q');
      assert false;
    } else if q' - q >= 1 {
      MulAtLeast(b, q' - q);
      assert false;
    }
  }

  lemma MulAtLeast(b: int, k: int)
    requires b > 0 && k >= 1
    ensures b * k >= b
  {
    assert b * k == b * (k - 1) + b;
    MulNonNegative(b, k - 1);
  }

  lemma MulNonNegative(x: int, y: int)
    requires x >= 0 && y >= 0
    ensures x * y >= 0
  {
  }

  lemma MulStrictMono(c: int, x: int, y: int)
    requires c > 0 && x < y
    ensures c * x < c * y
  {
    assert c * y - c * x == c * (y - x);
    MulAtLeast(c, y - x);
  }

  /** Truncating division by a divisor of the dividend is exact. */
  lemma TruncDivExact(a: int, b: int)
    requires b > 0 && Abs(a) % b == 0
    ensures b * TruncDiv(a, b) == a && TruncMod(a, b) == 0
  {
    DivModIdentity(a, b);
  }

  // ---------------------------------------------------------------------
  // Divisibility and the greatest common divisor
  // ---------------------------------------------------------------------

  /** `d` divides `n` (zero divides only zero). */
  predicate Divides(d: nat, n: nat)
  {
    if d == 0 then n == 0 else n % d == 0
  }

  /** Euclid's algorithm, the reference definition of the gcd of two
      non-negative integers; `Gcd(a, 0) == a`, so `Gcd(0, 0) == 0`. */
  function Gcd(a: nat, b: nat): nat
    decreases b
  {
    if b == 0 then a else Gcd(b, a % b)
  }

  /** The library's `gcd`: strip the signs, then alternate `a %= b` and
      `b %= a` until one of them reaches zero. Both operands are
      non-negative inside the loop, where C++ `%` and Dafny `%` agree. */
  method ComputeGcd(a0: int, b0: int) returns (g: int)
    ensures g == Gcd(Abs(a0), Abs(b0))
    ensures g >= 0 && Divides(g, Abs(a0)) && Divides(g, Abs(b0))
    ensures b0 == 0 ==> g == Abs(a0)
    ensures a0 == 0 ==> g == Abs(b0)
  {
    var a, b := a0, b0;
    if a < 0 {
      a := -a;
    }
    if b < 0 {
      b := -b;
    }
    while b != 0
      invariant 0 <= a && 0 <= b
      invariant Gcd(a, b) == Gcd(Abs(a0), Abs(b0))
      decreases b
    {
      GcdComm(a % b, b);
      a := a % b;
      if a == 0 {
        g := b;
        GcdDivides(Abs(a0), Abs(b0));
        GcdComm(Abs(a0), Abs(b0));
        return;
      }
      GcdComm(a, b);
      b := b % a;
    }
    g := a;
    GcdDivides(Abs(a0), Abs(b0));
    GcdComm(Abs(a0), Abs(b0));
  }

  /** The gcd does not depend on the order of its arguments. */
  lemma {:induction false} GcdComm(a: nat, b: nat)
    ensures Gcd(a, b) == Gcd(b, a)
  {
    if a < b {
      DivModUnique(a, b, 0, a);
      assert Gcd(a, b) == Gcd(b, a % b);
    } else if b < a {
      DivModUnique(b, a, 0, b);
      assert Gcd(b, a) == Gcd(a, b % a);
    }
  }

  /** A multiple of `d` is divisible by `d`. */
  lemma MulDivides(d: nat, k: nat)
    ensures Divides(d, d * k)
  {
    if d > 0 {
      DivModUnique(d * k, d, k, 0);
    }
  }

  /** A positive multiple of `d` is at least `d`. */
  lemma DividesLe(d: nat, n: nat)
    requires n > 0 && Divides(d, n)
    ensures d <= n
  {
    assert n == d * (n / d);
    if n / d == 0 {
      assert false;
    }
    MulAtLeast(d, n / d);
  }

  /** Two non-negative integers that divide each other are equal. */
  lemma DividesAntisym(x: nat, y: nat)
    requires Divides(x, y) && Divides(y, x)
    ensures x == y
  {
    if x > 0 && y > 0 {
      DividesLe(x, y);
      DividesLe(y, x);
    }
  }

  /** A common divisor of `a` and `b` divides `a % b`. */
  lemma DividesMod(d: nat, a: nat, b: nat)
    requires b > 0 && Divides(d, a) && Divides(d, b)
    ensures Divides(d, a % b)
  {
    var ka, kb, q := a / d, b / d, a / b;
    assert a == d * ka && b == d * kb;
    assert a % b == a - b * q;
    assert a % b == d * (ka - kb * q);
    assert ka - kb * q >= 0 by {
      if ka - kb * q < 0 {
        MulStrictMono(d, ka - kb * q, 0);
      }
    }
    MulDivides(d, ka - kb * q);
  }

  /** A common divisor of `b` and `a % b` divides `a`. */
  lemma DividesFromMod(d: nat, a: nat, b: nat)
    requires b > 0 && Divides(d, b) && Divides(d, a % b)
    ensures Divides(d, a)
  {
    var kb, kr, q := b / d, (a % b) / d, a / b;
    assert b == d * kb && a % b == d * kr;
    assert a == d * (kb * q + kr);
    MulNonNegative(kb, q);
    MulDivides(d, kb * q + kr);
  }

  /** The gcd divides both of its arguments. */
  lemma {:induction false} GcdDivides(a: nat, b: nat)
    ensures Divides(Gcd(a, b), a) && Divides(Gcd(a, b), b)
    decreases b
  {
    if b == 0 {
      if a > 0 {
        MulDivides(a, 1);
      }
    } else {
      GcdDivides(b, a % b);
      DividesFromMod(Gcd(b, a % b), a, b);
    }
  }

  /** Every common divisor of `a` and `b` divides their gcd: it is the
      greatest common divisor. */
  lemma {:induction false} GcdGreatest(a: nat, b: nat, d: nat)
    requires Divides(d, a) && Divides(d, b)
    ensures Divides(d, Gcd(a, b))
    decreases b
  {
    if b > 0 {
      DividesMod(d, a, b);
      GcdGreatest(b, a % b, d);
    }
  }

  /** The gcd is zero only when both arguments are. */
  lemma GcdPositive(a: nat, b: nat)
    requires a > 0 || b > 0
    ensures Gcd(a, b) > 0
  {
    GcdDivides(a, b);
  }

  /** Scaling both arguments scales the gcd: `gcd(c·a, c·b) == c·gcd(a, b)`. */
  lemma {:induction false} GcdMul(c: nat, a: nat, b: nat)
    ensures Gcd(c * a, c * b) == c * Gcd(a, b)
    decreases b
  {
    if b == 0 {
      assert c * b == 0;
    } else if c == 0 {
      assert c * a == 0 && c * b == 0;
      assert Gcd(0, 0) == 0;
    } else {
      var q, r := a / b, a % b;
      assert a == b * q + r;
      assert c * a == (c * b) * q + c * r;
      MulStrictMono(c, r, b);
      MulNonNegative(c, r);
      DivModUnique(c * a, c * b, q, c * r);
      assert Gcd(c * a, c * b) == Gcd(c * b, c * r);
      GcdMul(c, b, r);
    }
  }

  /** Numbers whose gcd is the common factor taken out of them leave
      coprime cofactors: the quotients by the gcd are coprime. */
  lemma {:induction false} CoprimeCofactors(a': nat, b': nat, g: nat)
    requires g > 0 && Gcd(g * a', g * b') == g
    ensures Gcd(a', b') == 1
  {
    GcdMul(g, a', b');
    var h := Gcd(a', b');
    assert g * h == g * 1;
    DivModUnique(g, g, h, 0);
    DivModUnique(g, g, 1, 0);
  }

  /** If `d` divides `n·k` and is coprime to `n`, it divides `k`
      (Euclid's lemma). */
  lemma {:induction false} CoprimeDivides(d: nat, n: nat, k: nat)
    requires Gcd(n, d) == 1 && Divides(d, n * k)
    ensures Divides(d, k)
  {
    var x, y := k * n, k * d;
    assert x == n * k;
    MulDivides(d, k);
    assert Divides(d, y) by {
      assert y == d * k;
    }
    GcdGreatest(x, y, d);
    GcdMul(k, n, d);
    assert Gcd(x, y) == k;
  }
}
