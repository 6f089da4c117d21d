# Verified model of `rational::Ratio<T>`

This project models the core of the header-only C++ library rational.hpp. The core is the exact rational number type `Ratio<T>`. It holds a numerator and a denominator of an integral type `T`. Every checked operation leaves the pair in lowest terms with a positive denominator, and zero is `0/1`. The project proves the model's properties in Dafny.

`T` is modelled as Dafny's unbounded `int`. The C++ integer `/` and `%` truncate toward zero, so they are modelled explicitly by `Integers.TruncDiv` and `Integers.TruncMod`. Dafny's own `/` and `%` are Euclidean and are used only where both operands are known to be non-negative, or as independent reference definitions.

The modules follow the header:

- `Integers`: the library's `gcd` loop (`ComputeGcd`), proved against the recursive Euclid definition `Gcd`, plus the divisibility facts that reduction needs.
- `Rationals`: the pair as a datatype `Ratio`; the invariant `Valid` (`denom > 0` and `gcd(|numer|, denom) == 1`); the meaning of a pair as a real number `Val`; `reduced()` as `Reduce`; the checked two-argument constructor and `make_ratio` as `Make`, which returns a `Result` with a `DivideByZero` error; the integer constructor; the constants.
- `Arithmetic`: the binary operators `+ - * / %` and unary minus. Each result is stated as a real-number value: `Val(Add(a, b)) == Val(a) + Val(b)` and so on. The algebraic laws follow from the fact that a pair in lowest terms is determined by its value (`ValidUnique`).
- `Comparison`: the relational operators exactly as written. They compare `numer·denom` of each side, not the cross products. The module proves what still holds, and gives the corrected cross-product comparisons with proofs.
- `Signs`: `is_zero`, `is_positive`, `is_negative`, `abs`, `abs_sub` and `signum`.
- `Rounding`: `to_integer`, `trunc`, `fract`, `floor`, `ceil` and `round`, each tied to an independent definition (Euclidean floor and ceiling division, round half away from zero) and to real-number bounds.
- `Objects`: the class `RatioVar` with the two fields that the source updates in place. It has:
  - the constructors;
  - `reduce()`, which calls the gcd loop;
  - `reduced()`, assignment and the compound assignments;
  - prefix and postfix `++`/`--`.

  Each method is specified by the value functions of the other modules, applied to the object's old value.

The operations that take an operand require `denom > 0`. This is the part of the invariant that the sign logic relies on. Values built by the unchecked no-reduce constructor may break it. The equality and rounding lemmas require `Valid`, or only `denom > 0` where that is enough.

Two members of the header do not compile as written. For each, the model follows the evident intent:
- `round()` assigns to an uninitialised `const bool`. The model computes that boolean by the even/odd test the source spells out (`HalfOrLarger`). It then proves that both branches decide "the fractional part is at least one half".
- `abs_sub` calls the zero-argument member `abs` with an argument. The model computes `abs(lhs - rhs)`.

The two-argument constructor is declared `noexcept` and throws `DivideByZeroException`. The model returns the `DivideByZero` error.

## Model

| member | source | states |
|---|---|---|
| `Integers.ComputeGcd` | rational.hpp:51-63 | The loop terminates and returns Euclid's gcd of the magnitudes, which is non-negative and divides both arguments; `gcd(a, 0) == abs(a)`, `gcd(0, b) == abs(b)`, so `gcd(0, 0) == 0` |
| `Integers.GcdDivides` | rational.hpp:51-63 | The gcd divides both of its arguments |
| `Integers.GcdGreatest` | rational.hpp:51-63 | Every common divisor divides the gcd, so it is the greatest common divisor |
| `Integers.GcdComm` | rational.hpp:53-61 | The gcd does not depend on argument order, which is what lets the loop alternate `a %= b` and `b %= a` |
| `Integers.TruncDiv` | rational.hpp:135 | C++ `/`: the quotient is non-negative when the operands' signs agree and non-positive otherwise |
| `Integers.TruncDivBounds` | rational.hpp:135 | C++ `/` truncates toward zero: `abs(b)·abs(q) <= abs(a) < abs(b)·(abs(q)+1)` |
| `Integers.TruncMod` | rational.hpp:249 | C++ `%`: the remainder is smaller than the divisor in magnitude and has the dividend's sign |
| `Integers.DivModIdentity` | rational.hpp:249 | `b·(a/b) + a%b == a` for the truncating pair |
| `Rationals.Reduce` | rational.hpp:172-183 | `reduced()` keeps the value (`r.numer·denom == numer·r.denom`) and, for a non-zero denominator, yields lowest terms with a positive denominator |
| `Rationals.ReduceValid` | rational.hpp:172-183 | Reducing a pair already in lowest terms changes nothing |
| `Rationals.ReduceIdempotent` | rational.hpp:172-183 | Reducing twice is reducing once |
| `Rationals.ZeroCanonical` | rational.hpp:172-183 | A reduced zero is always `0/1` |
| `Rationals.ValidUnique` | rational.hpp:172-183 | Two pairs in lowest terms with a positive denominator are equal exactly when their values are |
| `Rationals.Make` | rational.hpp:84-94 | The two-argument constructor fails with `DivideByZero` if and only if `denom == 0`; otherwise its result is valid, has the value `numer/denom` and satisfies `numer'·denom == numer·denom'` |
| `Rationals.MakeZero` | rational.hpp:84-94 | A zero numerator always produces the canonical `0/1` |
| `Rationals.MakeValid` | rational.hpp:84-94 | Constructing from a pair already in lowest terms gives that pair back |
| `Rationals.FromInt` | rational.hpp:76-82 | The integer constructor gives `u/1`, which is valid and has the value `u` |
| `Rationals.Zero` | rational.hpp:278-281 | `zero()` is valid with value 0 |
| `Rationals.One` | rational.hpp:283-286 | `one()` is valid with value 1 |
| `Rationals.Pi` | rational.hpp:288-291 | `pi()` is `6283/2000`, which is in lowest terms and is exactly 3.1415 |
| `Rationals.IsInteger` | rational.hpp:167-170 | `is_integer()` tests `denom == 1`; when it holds the value is the numerator |
| `Rationals.IsIntegerMeaning` | rational.hpp:167-170 | For a valid pair, `is_integer()` holds exactly when the denominator divides the numerator |
| `Arithmetic.Add` | rational.hpp:344-348 | `+` returns a valid pair whose value is the sum of the operands' values |
| `Arithmetic.Sub` | rational.hpp:350-354 | `-` returns a valid pair whose value is the difference |
| `Arithmetic.Mul` | rational.hpp:362-366 | `*` returns a valid pair whose value is the product |
| `Arithmetic.Div` | rational.hpp:368-372 | `/` fails with `DivideByZero` exactly when `rhs.numer == 0`; otherwise it returns a valid pair whose value is the quotient |
| `Arithmetic.Mod` | rational.hpp:356-360 | `%` returns a valid `r` with `lhs == q·rhs + r`, where `q` is the truncated quotient; `abs(r) < abs(rhs)` and `r` has the sign of `lhs` |
| `Arithmetic.Neg` | rational.hpp:410-414 | Unary minus flips the numerator's sign, keeps the denominator, negates the value and preserves the invariant without reducing |
| `Arithmetic.AddZero` | rational.hpp:344-348 | `a + 0 == a` on either side |
| `Arithmetic.MulOne` | rational.hpp:362-366 | `a * 1 == a` on either side |
| `Arithmetic.SubSelf` | rational.hpp:350-354 | `a - a` is the canonical zero |
| `Arithmetic.DivSelf` | rational.hpp:368-372 | `a / a == 1` for non-zero `a` |
| `Arithmetic.AddThenSub` | rational.hpp:344-354 | Subtraction undoes addition: `(a + b) - b == a` |
| `Arithmetic.DivThenMul` | rational.hpp:362-372 | Multiplication undoes division by a non-zero value: `(a / b) * b == a` |
| `Arithmetic.SubIsAddNeg` | rational.hpp:350-354 | `a - b == a + (-b)` |
| `Arithmetic.SubAntisymmetric` | rational.hpp:350-354 | `b - a == -(a - b)` |
| `Arithmetic.AddCommutative` | rational.hpp:344-348 | `a + b == b + a` |
| `Arithmetic.AddAssociative` | rational.hpp:344-348 | `(a + b) + c == a + (b + c)`, although every step normalises |
| `Arithmetic.MulCommutative` | rational.hpp:362-366 | `a * b == b * a` |
| `Arithmetic.MulAssociative` | rational.hpp:362-366 | `(a * b) * c == a * (b * c)` |
| `Arithmetic.QuotientPlusOneExample` | example.cpp:24-27 | `7 / (7/3) + 1` normalises to exactly `4/1` |
| `Arithmetic.ThirdsPlusOneExample` | rational.hpp:344-348 | `10/3 + 1` is `13/3` |
| `Comparison.Eq` | rational.hpp:416-420 | `operator==` as written compares `numer·denom` of each side: it is reflexive and never equates a zero with a non-zero value (for non-zero denominators), but it is not value equality (`EqDefect`) |
| `Comparison.Ne` | rational.hpp:422-426 | `operator!=` is the negation of `==`: false on identical pairs, true between a zero and a non-zero value |
| `Comparison.Gt` | rational.hpp:428-432 | `operator>` as written compares `numer·denom`: irreflexive, and against a zero with positive denominators it holds exactly for a positive numerator; not value order (`GtDefect`) |
| `Comparison.Lt` | rational.hpp:434-438 | `operator<` is `rhs > lhs`: irreflexive, and against a zero it holds exactly for a negative numerator |
| `Comparison.Le` | rational.hpp:440-444 | `operator<=` is `!(lhs > rhs)`: reflexive, and against a zero it holds exactly for a numerator that is not positive |
| `Comparison.Ge` | rational.hpp:446-450 | `operator>=` is `!(lhs < rhs)`: reflexive, and against a zero it holds exactly for a numerator that is not negative |
| `Comparison.Trichotomy` | rational.hpp:416-451 | `<=` is `<` or `==`, `>=` is `>` or `==`, `!=` is `<` or `>`, and exactly one of `<`, `==`, `>` holds |
| `Comparison.CompareWithZero` | rational.hpp:416-439 | For a positive denominator, comparing with `0/1` tests the sign of the value |
| `Comparison.CommonDenominator` | rational.hpp:416-432 | With a common positive denominator, `==` and `>` as written order the values correctly |
| `Comparison.EqDefect` | rational.hpp:416-420 | `1/2 == 2/1` holds as written, although the two values differ |
| `Comparison.GtDefect` | rational.hpp:428-432 | `1/3 > 1/2` holds as written, although `1/3` is the smaller value |
| `Comparison.ValueEqMeaning` | rational.hpp:416-420 | The corrected cross-product equality holds exactly when the values are equal |
| `Comparison.ValueEqCanonical` | rational.hpp:416-420 | On pairs in lowest terms, the corrected equality is equality of the pairs |
| `Comparison.ValueGtMeaning` | rational.hpp:428-432 | The corrected cross-product `>` holds exactly when the left value is larger |
| `Comparison.ValueTrichotomy` | rational.hpp:416-451 | The corrected comparisons satisfy trichotomy |
| `Comparison.ValueGtTransitive` | rational.hpp:428-439 | The corrected `>` is transitive |
| `Comparison.AgreeWithZero` | rational.hpp:416-439 | Against zero, the comparisons as written and the corrected ones agree |
| `Signs.IsZero` | rational.hpp:263-266 | `is_zero()` tests the numerator; for a non-zero denominator it holds exactly when the value is 0 |
| `Signs.IsPositive` | rational.hpp:268-271 | `is_positive()` tests the numerator; for a positive denominator it holds exactly when the value is above 0 |
| `Signs.IsNegative` | rational.hpp:273-276 | `is_negative()` tests the numerator; for a positive denominator it holds exactly when the value is below 0 |
| `Signs.Abs` | rational.hpp:293-296 | `abs()` has a non-negative numerator and the same denominator and magnitude; for a positive denominator its value is the absolute value; it keeps the invariant |
| `Signs.AbsSub` | rational.hpp:298-301 | `abs_sub` returns a valid pair whose value is the distance `abs(lhs - rhs)` |
| `Signs.AbsSubSymmetric` | rational.hpp:298-301 | The distance does not depend on operand order |
| `Signs.AbsSubZero` | rational.hpp:298-301 | The distance is zero exactly between equal values |
| `Signs.Signum` | rational.hpp:303-312 | `signum()` is -1, 0 or 1; multiplied by the numerator it gives the numerator's magnitude; it is 0 exactly for a zero numerator |
| `Signs.SignumMeaning` | rational.hpp:303-312 | For a positive denominator, `signum()` is the sign of the value |
| `Signs.SignMatchesComparison` | rational.hpp:263-312 | The sign predicates and `signum()` agree with comparing against zero by `>`, `<` and `==` |
| `Signs.SignumTimesAbs` | rational.hpp:293-312 | For a valid `x`, `signum()·abs()` gives back `x` itself |
| `Rounding.Trunc` | rational.hpp:242-245 | `trunc()` is a valid integer `q/1` whose value is `to_integer()` |
| `Rounding.Fract` | rational.hpp:247-250 | `fract()` keeps the denominator; its numerator is smaller in magnitude than the denominator and has the sign of the input's numerator |
| `Rounding.TruncPlusFractValue` | rational.hpp:242-250 | The values of `trunc()` and `fract()` add up to the value |
| `Rounding.TruncPlusFract` | rational.hpp:242-250 | `trunc(x) + fract(x) == x` for a valid `x` |
| `Rounding.FractValid` | rational.hpp:247-250 | `fract()` of a pair in lowest terms is itself in lowest terms, although it is not reduced |
| `Rounding.FractBounds` | rational.hpp:247-250 | The fractional part lies strictly between -1 and 1 and has the sign of the value |
| `Rounding.ToInteger` | rational.hpp:133-136 | `to_integer()` is the C++ quotient `numer / denom`: it keeps the sign for a positive denominator, is 0 for every proper fraction and is odd in the numerator (`q(-n) == -q(n)`), which is truncation rather than floor |
| `Rounding.ToIntegerTruncates` | rational.hpp:133-136 | `to_integer()` truncates toward zero: it is at most the value and within 1 of it for non-negative values, and mirrored for negative ones |
| `Rounding.Floor` | rational.hpp:192-200 | `floor()` returns a valid integer `k/1` |
| `Rounding.Ceil` | rational.hpp:202-210 | `ceil()` returns a valid integer `k/1` |
| `Rounding.FloorIsFloorDivision` | rational.hpp:192-200 | `floor()` equals the floor division `⌊numer / denom⌋`; below zero, `(n - d + 1) / d` rounds the truncating quotient down |
| `Rounding.CeilIsCeilingDivision` | rational.hpp:202-210 | `ceil()` equals the ceiling division `-⌊-numer / denom⌋` |
| `Rounding.FloorBounds` | rational.hpp:192-200 | `floor(x) <= x < floor(x) + 1` |
| `Rounding.CeilBounds` | rational.hpp:202-210 | `ceil(x) - 1 < x <= ceil(x)` |
| `Rounding.HalfOrLarger` | rational.hpp:223-228 | Both the even-denominator and the odd-denominator tests decide `2·numer >= denom`, that is `numer/denom >= 1/2` |
| `Rounding.HalfMeaning` | rational.hpp:223-228 | For a positive denominator, `2·numer >= denom` means the value is at least one half |
| `Rounding.Round` | rational.hpp:212-240 | `round()` returns a valid pair |
| `Rounding.RoundCases` | rational.hpp:212-240 | `round()` is the truncated quotient, stepped one unit away from zero when the remainder has `2·abs(m) >= denom` |
| `Rounding.RoundIsHalfAway` | rational.hpp:212-240 | `round()` equals the independent definition of rounding half away from zero, `⌊(2n + d) / 2d⌋` mirrored for negative `n` |
| `Rounding.RoundNearest` | rational.hpp:212-240 | `round(x)` is an integer with `abs(round(x) - x) <= 1/2`, and a tie goes to the integer of larger magnitude |
| `Rounding.NegativeHalfExample` | rational.hpp:192-250 | For `-7/2`: `trunc` is -3, `fract` is -1/2, `floor` is -4, `ceil` is -3 and `round` is -4 |
| `Rounding.RoundTieExamples` | rational.hpp:212-240 | `round(1/2) == 1` and `round(-1/2) == -1` |
| `Rounding.RoundDownExample` | rational.hpp:212-240 | `round(7/3) == 2` |
| `Rounding.RoundNegativeExample` | rational.hpp:212-240 | `round(-8/3) == -3` |
| `Objects.RatioVar.constructor` | rational.hpp:71-74 | The default constructor builds `0/1` |
| `Objects.RatioVar.FromInteger` | rational.hpp:76-82 | The integer constructor builds `u/1`, unreduced and valid |
| `Objects.RatioVar.NoReduce` | rational.hpp:96-99 | The no-reduce constructor stores the pair as given |
| `Objects.RatioVar.Copy` | rational.hpp:101-104 | The copy constructor copies both fields |
| `Objects.RatioVar.Create` | rational.hpp:84-94 | The checked constructor fails with `DivideByZero` if and only if `denom == 0`; otherwise it reduces a fresh no-reduce temporary in place, giving exactly `Make(numer, denom)` |
| `Objects.RatioVar.Reduce` | rational.hpp:172-183 | `reduce()` overwrites the fields with `Reduce` of their old value; for a non-zero denominator this is valid and has the same value |
| `Objects.RatioVar.Reduced` | rational.hpp:185-190 | `reduced()` returns a reduced copy with the same value and leaves the object unchanged |
| `Objects.RatioVar.Assign` | rational.hpp:106-111 | Assignment copies the other object's old fields |
| `Objects.RatioVar.AddAssign` | rational.hpp:374-378 | `+=` sets the object to `old + rhs` and returns that value; a distinct `rhs` is unchanged; `x += x` reads `x` before writing |
| `Objects.RatioVar.SubAssign` | rational.hpp:380-384 | `-=` sets the object to `old - rhs` and returns it; `rhs` is unchanged |
| `Objects.RatioVar.MulAssign` | rational.hpp:386-390 | `*=` sets the object to `old * rhs` and returns it; `rhs` is unchanged |
| `Objects.RatioVar.DivAssign` | rational.hpp:392-396 | `/=` fails with `DivideByZero` exactly when `rhs` is zero and then leaves the object as it was; otherwise it sets the object to `old / rhs` |
| `Objects.RatioVar.ModAssign` | rational.hpp:398-402 | `%=` sets the object to `old % rhs` and returns it; `rhs` is unchanged |
| `Objects.RatioVar.PreIncrement` | rational.hpp:453-457 | Prefix `++` adds exactly one and returns the new value |
| `Objects.RatioVar.PreDecrement` | rational.hpp:459-463 | Prefix `--` subtracts exactly one and returns the new value |
| `Objects.RatioVar.PostIncrement` | rational.hpp:465-471 | Postfix `++` adds one and returns the value from before |
| `Objects.RatioVar.PostDecrement` | rational.hpp:473-479 | Postfix `--` subtracts one and returns the value from before |
| `Objects.IncrementDecrementInverse` | rational.hpp:453-463 | For a valid value, `++` then `--` restores it, and so does `--` then `++` |

## Left out

- Overflow of `T`: integers are unbounded. Cross products that overflow a fixed-width `T` in the source (rational.hpp:347-371), and the negation of the most negative value, are not modelled. The underlying type is only required to be integral and fixed-width.
- Stream input and output (`operator<<`, `operator>>`): I/O.
- `to_float` and `from_float`: floating point. `from_float` also does not compile as written.
- `pow`, `cpow` and `pow10_cap`: they rely on floating-point `std::pow`, and `pow` calls a `recip` that does not exist.
- Conversions between `Ratio<T>` and `Ratio<U>`, and the `Rational`/`Rational32`/`Rational64` typedefs. With a single unbounded integer type these are plain field copies.
- `Rationals.FromInt` and `Objects.RatioVar.FromInteger` take only an integer. The converting constructor (rational.hpp:76-82) accepts any `U` convertible to `T`, floating types included, and `T(u)` truncates those: `Ratio<int>(2.7)` is `2/1`. Conversion from a non-integral `U` is not modelled.
- `Objects.RatioVar.Assign`, `Objects.RatioVar.PreIncrement` and `Objects.RatioVar.PreDecrement` do not return a reference to the object. In the source, `operator=` (rational.hpp:106-111) and prefix `++`/`--` (rational.hpp:453-463) return `Ratio<T>&`. `Assign` returns nothing, and the prefix operators return a copy of the new value. So chained updates through the returned reference, such as `++(++x)` or `(x = y) += z`, are not modelled; each must be written as two calls on the object.
- The literal suffixes `_r` and `_R`: they are `n/1` built without reduction, which is `Rationals.FromInt`.
- Unary plus: it returns a copy, which is `Objects.RatioVar.Copy`.
- The accessors `numer()` and `denom()`: they are the datatype's and the class's fields.
- Exceptions: the two-argument constructor throws under a `noexcept` declaration. A C++ program would call `std::terminate` there. The model returns the `DivideByZero` error instead.
- `Arithmetic.Mod` and `Objects.RatioVar.ModAssign` require `rhs.numer != 0`. The source divides by zero there, which C++ leaves undefined.
- The operators require operands with positive denominators. A pair made by the no-reduce constructor with a non-positive denominator is outside the invariant. On such pairs the sign tests of `abs`, `floor`, `ceil` and `round` do not read the value's sign, and the model proves nothing about them.
- `to_integer`, `trunc`, `fract`, `floor`, `ceil`, `round`, `abs`, `abs_sub`, `signum`, the sign predicates and the comparisons are const members. They are modelled as functions of the value the object holds (`RatioVar.Get()`), not as class methods.
- The header does not compile in two places, as described above. The model uses the evident intent for `abs_sub` (the distance `|lhs - rhs|`) and for the `half_or_larger` flag of `round`.

## Findings

| source | as written | input that shows it | evidently intended | confidence | as-written member | corrected member |
|---|---|---|---|---|---|---|
| rational.hpp:416-420 | `operator==` compares `lhs.numer·lhs.denom` with `rhs.numer·rhs.denom` | `1/2 == 2/1` holds, since both products are 2 | compare the cross products `lhs.numer·rhs.denom == rhs.numer·lhs.denom` | not executed | `Comparison.EqDefect` | `Comparison.ValueEqCanonical` |
| rational.hpp:428-432 | `operator>` compares `lhs.numer·lhs.denom` with `rhs.numer·rhs.denom` | `1/3 > 1/2` holds, since 3 > 2 | compare the cross products `lhs.numer·rhs.denom > rhs.numer·lhs.denom` | not executed | `Comparison.GtDefect` | `Comparison.ValueGtMeaning` |

The rest of the model compares only against zero. That is what `floor`, `ceil` and `round` do. For a positive denominator the comparisons as written and the corrected ones agree there (`Comparison.AgreeWithZero`), so the rounding functions keep the source's operators.
