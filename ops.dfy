/** The integer operators of `nstd_core_ops_*`: increment and decrement in
    place, and negation, addition, subtraction, multiplication, division,
    remainder and the shifts as functions, one family per integer type. An
    operation whose result does not fit its type is an overflow panic, and is
    excluded by preconditions. */
module Ops {
  import opened IntTypes
  import opened IntMath

  /** An integer variable of a fixed type, the target of `inc` and `dec`. */
  class Cell {
    const ty: IntType
    var value: int

    ghost predicate Valid()
      reads this
    {
      ty.Valid() && ty.InRange(value)
    }

    constructor (t: IntType, v: int)
      requires t.Valid() && t.InRange(v)
      ensures ty == t && value == v && Valid()
    {
      ty := t;
      value := v;
    }

    /** `nstd_core_ops_inc_*`: adds one in place; at the type's maximum this
        is an overflow panic. */
    method Inc()
      requires Valid() && value < ty.Max()
      modifies this
      ensures Valid() && value == old(value) + 1
      ensures value == Add(ty, old(value), 1)
    {
      value := value + 1;
    }

    /** `nstd_core_ops_dec_*`: subtracts one in place; at the type's minimum
        this is an overflow panic. */
    method Dec()
      requires Valid() && value > ty.Min()
      modifies this
      ensures Valid() && value == old(value) - 1
      ensures value == Sub(ty, old(value), 1)
    {
      value := value - 1;
    }
  }

  /** Incrementing and then decrementing a variable gives back its value. */
  method IncThenDec(c: Cell)
    requires c.Valid() && c.value < c.ty.Max()
    modifies c
    ensures c.Valid() && c.value == old(c.value)
  {
    c.Inc();
    c.Dec();
  }

  /** `nstd_core_ops_neg_*`, signed types only: `-x`; the minimum, whose
      negation does not fit, is an overflow panic. */
  function Neg(t: IntType, x: int): (r: int)
    requires t.Valid() && t.signed && t.InRange(x) && x != t.Min()
    ensures t.InRange(r) && r != t.Min()
    ensures r + x == 0
  {
    -x
  }

  /** `nstd_core_ops_add_*`. */
  function Add(t: IntType, x: int, y: int): (r: int)
    requires t.Valid() && t.InRange(x) && t.InRange(y) && t.InRange(x + y)
    ensures t.InRange(r) && r == x + y
  {
    x + y
  }

  /** `nstd_core_ops_sub_*`. */
  function Sub(t: IntType, x: int, y: int): (r: int)
    requires t.Valid() && t.InRange(x) && t.InRange(y) && t.InRange(x - y)
    ensures t.InRange(r) && r == x - y
  {
    x - y
  }

  /** `nstd_core_ops_mul_*`. */
  function Mul(t: IntType, x: int, y: int): (r: int)
    requires t.Valid() && t.InRange(x) && t.InRange(y) && t.InRange(x * y)
    ensures t.InRange(r) && r == x * y
  {
    x * y
  }

  /** Negating twice gives back the value, and negating is subtracting from
      zero. */
  lemma NegInvolution(t: IntType, x: int)
    requires t.Valid() && t.signed && t.InRange(x) && x != t.Min()
    ensures Neg(t, Neg(t, x)) == x
    ensures Neg(t, x) == Sub(t, 0, x)
  {
  }

  /** Subtracting what was added, or adding what was subtracted, gives back
      the first operand. */
  lemma AddSubInverse(t: IntType, x: int, y: int)
    requires t.Valid() && t.InRange(x) && t.InRange(y)
    ensures t.InRange(x + y) ==> Sub(t, Add(t, x, y), y) == x
    ensures t.InRange(x - y) ==> Add(t, Sub(t, x, y), y) == x
  {
  }

  /** `r` is `x / y` rounded toward zero: down when the exact quotient is not
      negative, up when it is. */
  predicate TowardZero(x: int, y: int, r: int) {
    if (x >= 0) == (y > 0) then IsFloor(x, y, r) else IsCeil(x, y, r)
  }

  /** `nstd_core_ops_div_*`: the quotient rounded toward zero. A zero divisor
      is a panic, and so is the signed minimum divided by -1, whose quotient
      does not fit. */
  function Div(t: IntType, x: int, y: int): (r: int)
    requires t.Valid() && DivisionFits(t, x, y)
    ensures TowardZero(x, y, r) && t.InRange(r)
  {
    var q := Mag(x) / Mag(y);
    var r := if (x < 0) == (y < 0) then q else -q;
    SignedQuotient(x, y);
    RoundedQuotientFits(t, x, y, r);
    r
  }

  /** The quotient of the magnitudes, given the sign of the exact quotient,
      is the quotient rounded toward zero. */
  lemma SignedQuotient(x: int, y: int)
    requires y != 0
    ensures var q := Mag(x) / Mag(y);
            TowardZero(x, y, if (x < 0) == (y < 0) then q else -q)
  {
    var a, b := Mag(x), Mag(y);
    var q, m := a / b, a % b;
    EuclideanParts(a, b);
    assert a == q * b + m && 0 <= m < b;
    assert (q + 1) * b == q * b + b;
    if x >= 0 && y > 0 {
      assert IsFloor(x, y, q);
    } else if x < 0 && y < 0 {
      assert q * y == -(q * b) && (q + 1) * y == -(q * b) - b;
      assert IsFloor(x, y, q);
    } else if x >= 0 {
      assert (-q) * y == q * b && (-q - 1) * y == q * b + b;
      assert IsCeil(x, y, -q);
    } else {
      assert (-q) * y == -(q * b) && (-q - 1) * y == -(q * b) - b;
      assert IsCeil(x, y, -q);
    }
  }

  /** `nstd_core_ops_rem_*`: the remainder of the division rounded toward
      zero, which takes the sign of `x`; panics as `Div` does. */
  function Rem(t: IntType, x: int, y: int): (r: int)
    requires t.Valid() && DivisionFits(t, x, y)
    ensures Div(t, x, y) * y + r == x
    ensures Mag(r) < Mag(y)
    ensures r == 0 || (r < 0 <==> x < 0)
    ensures t.InRange(r)
  {
    var m := Mag(x) % Mag(y);
    var r := if x < 0 then -m else m;
    EuclideanParts(Mag(x), Mag(y));
    TowardZeroParts(x, y);
    r
  }

  /** The quotient and the remainder of the magnitudes, given the signs of
      rounding toward zero, rebuild the dividend. */
  lemma TowardZeroParts(x: int, y: int)
    requires y != 0
    ensures var q, m := Mag(x) / Mag(y), Mag(x) % Mag(y);
            (if (x < 0) == (y < 0) then q else -q) * y + (if x < 0 then -m else m) == x
    ensures Mag(x) % Mag(y) <= Mag(x)
  {
    var a, b := Mag(x), Mag(y);
    var q, m := a / b, a % b;
    EuclideanParts(a, b);
    assert a == q * b + m;
    if x >= 0 && y > 0 {
    } else if x < 0 && y < 0 {
      assert q * y == -(q * b);
    } else if x >= 0 {
      assert (-q) * y == q * b;
    } else {
      assert (-q) * y == -(q * b);
    }
    RemainderAtMost(a, b);
  }

  /** The remainder of a natural number is at most the number itself. */
  lemma RemainderAtMost(a: int, b: int)
    requires a >= 0 && b > 0
    ensures a % b <= a
  {
    if a < b {
      assert a / b == 0;
    } else {
      EuclideanParts(a, b);
    }
  }

  /** Rounding toward zero is rounding down for a quotient that is not
      negative and rounding up otherwise. */
  lemma DivIsFloorOrCeil(t: IntType, x: int, y: int)
    requires t.Valid() && DivisionFits(t, x, y)
    ensures (x >= 0) == (y > 0) ==> Div(t, x, y) == DivFloor(t, x, y)
    ensures (x >= 0) != (y > 0) ==> Div(t, x, y) == DivCeil(t, x, y)
  {
    if (x >= 0) == (y > 0) {
      FloorUnique(x, y, Div(t, x, y), DivFloor(t, x, y));
    } else {
      CeilUnique(x, y, Div(t, x, y), DivCeil(t, x, y));
    }
  }

  /** Dividing a product by one of its factors gives back the other. */
  lemma MulDivInverse(t: IntType, x: int, y: int)
    requires t.Valid() && t.InRange(x) && t.InRange(y) && y != 0
    requires t.InRange(x * y)
    ensures DivisionFits(t, Mul(t, x, y), y)
    ensures Div(t, Mul(t, x, y), y) == x && Rem(t, Mul(t, x, y), y) == 0
  {
    var p := x * y;
    assert (x + 1) * y == p + y && (x - 1) * y == p - y;
    if (p >= 0) == (y > 0) {
      assert IsFloor(p, y, x);
      FloorUnique(p, y, x, Div(t, p, y));
    } else {
      assert IsCeil(p, y, x);
      CeilUnique(p, y, x, Div(t, p, y));
    }
  }

  /** `nstd_core_ops_shl_*`: `x` shifted left by `y` bits; the bits shifted
      past the type's width are lost. A shift by the width or more is an
      overflow panic. */
  function Shl(t: IntType, x: int, y: int): (r: int)
    requires t.Valid() && t.InRange(x) && 0 <= y < t.bits
    ensures t.InRange(r)
    ensures t.InRange(x * Pow2(y)) ==> r == x * Pow2(y)
    ensures (x * Pow2(y) - r) % Pow2(t.bits) == 0
  {
    t.Wrap(x * Pow2(y))
  }

  /** Shifting a one into the sign bit of an 8-bit signed value gives the
      type's minimum. */
  lemma ShlExample()
    ensures Shl(I8, 1, 7) == -128
  {
    assert Pow2(7) == 128 && Pow2(8) == 256;
    assert I8.Wrap(128) == I8.Wrap(128 - 256);
  }

  /** `nstd_core_ops_shr_*`: `x` shifted right by `y` bits, arithmetic for
      the signed types, so the quotient by `2^y` rounded down. A shift by
      the width or more is an overflow panic. */
  function Shr(t: IntType, x: int, y: int): (r: int)
    requires t.Valid() && t.InRange(x) && 0 <= y < t.bits
    ensures t.InRange(r) && IsFloor(x, Pow2(y), r)
  {
    var p := Pow2(y);
    var r := x / p;
    EuclideanParts(x, p);
    FloorPositiveSmall(x, p, r);
    ProductSign(r, p);
    r
  }

  /** Shifting left without losing bits and then right by the same amount
      gives back the value. */
  lemma ShlShrInverse(t: IntType, x: int, y: int)
    requires t.Valid() && t.InRange(x) && 0 <= y < t.bits
    requires t.InRange(x * Pow2(y))
    ensures Shr(t, Shl(t, x, y), y) == x
  {
    var p := Pow2(y);
    assert (x + 1) * p == x * p + p;
    FloorUnique(x * p, p, x, Shr(t, x * p, y));
  }
}
