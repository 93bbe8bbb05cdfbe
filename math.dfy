/** Integer math: `abs`, `pow`, `clamp`, `div_ceil` and `div_floor`, each a
    family of functions over the integer types of `IntTypes`. Operations whose
    result would not fit the type are panics, and are excluded by
    preconditions. */
module IntMath {
  import opened IntTypes

  /** `x` raised to `exp`, by definition. */
  function Power(x: int, exp: nat): int
  {
    if exp == 0 then 1 else x * Power(x, exp - 1)
  }

  lemma {:induction false} PowerAdd(x: int, a: nat, b: nat)
    ensures Power(x, a + b) == Power(x, a) * Power(x, b)
    decreases a
  {
    if a > 0 {
      PowerAdd(x, a - 1, b);
    }
  }

  /** Squaring the base doubles the exponent. */
  lemma {:induction false} PowerSquare(x: int, k: nat)
    ensures Power(x * x, k) == Power(x, 2 * k)
  {
    if k > 0 {
      PowerSquare(x, k - 1);
      PowerAdd(x, 2, 2 * k - 2);
    }
  }

  /** `x` raised to `exp` by repeated squaring, `exp`'s bits from the lowest
      up. */
  function SquarePow(x: int, exp: nat): (r: int)
    ensures r == Power(x, exp)
    decreases exp
  {
    if exp == 0 then 1
    else
      PowerSquare(x, exp / 2);
      var half := SquarePow(x * x, exp / 2);
      if exp % 2 == 0 then half else x * half
  }

  /** `nstd_core_math_abs_*`: the magnitude of `x`, for the signed types. */
  function Abs(t: IntType, x: int): (r: int)
    requires t.Valid() && t.signed && t.InRange(x) && x != t.Min()
    ensures t.InRange(r) && r >= 0
    ensures r == x || r == -x
  {
    if x < 0 then -x else x
  }

  /** The documented examples of `abs`. */
  lemma AbsExamples()
    ensures Abs(INT, 10) == 10 && Abs(INT, -10) == 10
  {
  }

  /** `nstd_core_math_pow_*`: `x` raised to the 32-bit unsigned `exp`. A
      result that does not fit the type is an overflow panic. */
  function Pow(t: IntType, x: int, exp: nat): (r: int)
    requires t.Valid() && t.InRange(x) && U32.InRange(exp)
    requires t.InRange(Power(x, exp))
    ensures r == Power(x, exp) && t.InRange(r)
  {
    SquarePow(x, exp)
  }

  /** The documented examples of `pow`. */
  lemma PowExamples()
    ensures Pow(INT, 2, 3) == 8 && Pow(INT, 4, 5) == 1024
  {
  }

  /** `nstd_core_math_clamp_*` (the integer ones): `x` brought into
      `[min, max]`; `min > max` is a panic. */
  function Clamp(t: IntType, x: int, min: int, max: int): (r: int)
    requires t.Valid() && t.InRange(x) && t.InRange(min) && t.InRange(max)
    requires min <= max
    ensures min <= r <= max && t.InRange(r)
    ensures min <= x <= max ==> r == x
    ensures x < min ==> r == min
    ensures x > max ==> r == max
  {
    if x < min then min else if x > max then max else x
  }

  /** Clamping twice is clamping once, and a value is its own clamp exactly
      when it lies inside the bounds. */
  lemma ClampIdempotent(t: IntType, x: int, min: int, max: int)
    requires t.Valid() && t.InRange(x) && t.InRange(min) && t.InRange(max)
    requires min <= max
    ensures Clamp(t, Clamp(t, x, min, max), min, max) == Clamp(t, x, min, max)
    ensures Clamp(t, x, min, max) == x <==> min <= x <= max
  {
  }

  /** Division whose quotient fits the type: a nonzero divisor, and not the
      signed minimum divided by -1. */
  predicate DivisionFits(t: IntType, x: int, y: int)
    requires t.Valid()
  {
    t.InRange(x) && t.InRange(y) && y != 0 && !(x == t.Min() && y == -1)
  }

  /** `r` is `x / y` rounded down. */
  predicate IsFloor(x: int, y: int, r: int) {
    && (y > 0 ==> r * y <= x < (r + 1) * y)
    && (y < 0 ==> (r + 1) * y < x <= r * y)
  }

  /** `r` is `x / y` rounded up. */
  predicate IsCeil(x: int, y: int, r: int) {
    && (y > 0 ==> (r - 1) * y < x <= r * y)
    && (y < 0 ==> r * y <= x < (r - 1) * y)
  }

  /** `nstd_core_math_div_floor_*`: the quotient `x / y` rounded down. A zero
      divisor is a panic. */
  function DivFloor(t: IntType, x: int, y: int): (r: int)
    requires t.Valid() && DivisionFits(t, x, y)
    ensures IsFloor(x, y, r) && t.InRange(r)
  {
    var q := x / y;
    var r := if y < 0 && x % y != 0 then q - 1 else q;
    EuclideanParts(x, y);
    assert IsFloor(x, y, r);
    RoundedQuotientFits(t, x, y, r);
    r
  }

  /** `nstd_core_math_div_ceil_*`: the quotient `x / y` rounded up. A zero
      divisor is a panic. */
  function DivCeil(t: IntType, x: int, y: int): (r: int)
    requires t.Valid() && DivisionFits(t, x, y)
    ensures IsCeil(x, y, r) && t.InRange(r)
  {
    var q := x / y;
    var r := if y > 0 && x % y != 0 then q + 1 else q;
    EuclideanParts(x, y);
    assert IsCeil(x, y, r);
    RoundedQuotientFits(t, x, y, r);
    r
  }

  /** Dafny's `/` and `%` on `int`: the remainder lies in `[0, |y|)`; the
      neighbouring multiples of `y` are one `y` away. */
  lemma EuclideanParts(x: int, y: int)
    requires y != 0
    ensures x == (x / y) * y + x % y
    ensures 0 <= x % y < Mag(y)
    ensures (x / y + 1) * y == (x / y) * y + y
    ensures (x / y - 1) * y == (x / y) * y - y
  {
  }

  function Mag(x: int): (m: int)
    ensures m >= 0 && (m == x || m == -x)
  {
    if x < 0 then -x else x
  }

  /** What fitting the type needs of a rounded quotient `r` of `x / y`: it
      is no larger in magnitude than `x`, is not negative when neither `x` nor
      `y` is, and is `-x` for an `x <= -2` only when `y` is -1. */
  predicate SmallQuotient(x: int, y: int, r: int) {
    && -Mag(x) <= r <= Mag(x)
    && (x >= 0 && y > 0 ==> r >= 0)
    && (x <= -2 && r == -x ==> y == -1)
  }

  /** The sign of a product. */
  lemma ProductSign(a: int, b: int)
    ensures (a >= 0 && b >= 0) || (a <= 0 && b <= 0) ==> a * b >= 0
    ensures (a >= 0 && b <= 0) || (a <= 0 && b >= 0) ==> a * b <= 0
  {
  }

  lemma FloorPositiveSmall(x: int, y: int, r: int)
    requires y > 0 && r * y <= x < (r + 1) * y
    ensures SmallQuotient(x, y, r)
  {
    if r >= 0 {
      ProductSign(r, y - 1);
      assert r * (y - 1) == r * y - r;
      assert 0 <= r <= x;
    } else {
      ProductSign(r + 1, y - 1);
      assert (r + 1) * (y - 1) == (r + 1) * y - (r + 1);
      assert x <= r < 0;
    }
  }

  lemma FloorNegativeSmall(x: int, y: int, r: int)
    requires y < 0 && (r + 1) * y < x <= r * y
    ensures SmallQuotient(x, y, r)
  {
    if r >= 0 {
      ProductSign(r, y + 1);
      assert r * (y + 1) == r * y + r;
      assert x <= -r <= 0;
      if y <= -2 {
        ProductSign(r, y + 2);
        assert r * (y + 2) == r * y + 2 * r;
        assert x <= -2 * r;
      }
    } else {
      ProductSign(r + 1, y + 1);
      assert (r + 1) * (y + 1) == (r + 1) * y + (r + 1);
      assert x >= -r > 0;
    }
  }

  lemma CeilPositiveSmall(x: int, y: int, r: int)
    requires y > 0 && (r - 1) * y < x <= r * y
    ensures SmallQuotient(x, y, r)
  {
    if r > 0 {
      ProductSign(r - 1, y - 1);
      assert (r - 1) * (y - 1) == (r - 1) * y - (r - 1);
      assert 0 < r <= x;
    } else {
      ProductSign(r, y - 1);
      assert r * (y - 1) == r * y - r;
      assert x <= r <= 0;
    }
  }

  lemma CeilNegativeSmall(x: int, y: int, r: int)
    requires y < 0 && r * y <= x < (r - 1) * y
    ensures SmallQuotient(x, y, r)
  {
    if r > 0 {
      ProductSign(r - 1, y + 1);
      assert (r - 1) * (y + 1) == (r - 1) * y + (r - 1);
      assert x <= -r < 0;
      if y <= -2 {
        ProductSign(r - 1, y + 2);
        assert (r - 1) * (y + 2) == (r - 1) * y + 2 * (r - 1);
        assert x < 2 - 2 * r;
      }
    } else {
      ProductSign(r, y + 1);
      assert r * (y + 1) == r * y + r;
      assert x >= -r >= 0;
    }
  }

  /** A rounded quotient fits the type whenever the division does. */
  lemma RoundedQuotientFits(t: IntType, x: int, y: int, r: int)
    requires t.Valid() && DivisionFits(t, x, y)
    requires IsFloor(x, y, r) || IsCeil(x, y, r)
    ensures t.InRange(r)
  {
    if IsFloor(x, y, r) {
      if y > 0 { FloorPositiveSmall(x, y, r); } else { FloorNegativeSmall(x, y, r); }
    } else {
      if y > 0 { CeilPositiveSmall(x, y, r); } else { CeilNegativeSmall(x, y, r); }
    }
  }

  /** At most one integer is `x / y` rounded down. */
  lemma FloorUnique(x: int, y: int, r1: int, r2: int)
    requires y != 0 && IsFloor(x, y, r1) && IsFloor(x, y, r2)
    ensures r1 == r2
  {
    if y > 0 {
      ProductSign(r1 - r2 - 1, y);
      ProductSign(r2 - r1 - 1, y);
      assert (r1 - r2 - 1) * y == r1 * y - (r2 + 1) * y;
      assert (r2 - r1 - 1) * y == r2 * y - (r1 + 1) * y;
    } else {
      ProductSign(r1 - r2 - 1, y);
      ProductSign(r2 - r1 - 1, y);
      assert (r1 - r2 - 1) * y == r1 * y - (r2 + 1) * y;
      assert (r2 - r1 - 1) * y == r2 * y - (r1 + 1) * y;
    }
  }

  /** At most one integer is `x / y` rounded up. */
  lemma CeilUnique(x: int, y: int, r1: int, r2: int)
    requires y != 0 && IsCeil(x, y, r1) && IsCeil(x, y, r2)
    ensures r1 == r2
  {
    ProductSign(r1 - r2 - 1, y);
    ProductSign(r2 - r1 - 1, y);
    assert (r1 - r2 - 1) * y == (r1 - 1) * y - r2 * y;
    assert (r2 - r1 - 1) * y == (r2 - 1) * y - r1 * y;
  }

  /** Rounding down and rounding up agree exactly when `y` divides `x`, and
      otherwise differ by one. */
  lemma FloorCeil(t: IntType, x: int, y: int)
    requires t.Valid() && DivisionFits(t, x, y)
    ensures DivFloor(t, x, y) <= DivCeil(t, x, y) <= DivFloor(t, x, y) + 1
    ensures DivFloor(t, x, y) == DivCeil(t, x, y) <==> x % y == 0
  {
  }
}
