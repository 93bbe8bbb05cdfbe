/** The fixed-width integer types of the library (`NSTDInt`, `NSTDUInt`,
    `NSTDInt8` ... `NSTDUInt64`) as ranges of mathematical integers, with the
    two's-complement wrap-around that shifting relies on. */
module IntTypes {

  /** `2^n`. */
  function Pow2(n: nat): (p: nat)
    ensures p >= 1
  {
    if n == 0 then 1 else 2 * Pow2(n - 1)
  }

  /** A nonzero multiple of a positive `p` is at least `p` away from zero. */
  lemma MultipleBound(k: int, p: int)
    requires p > 0
    ensures k >= 1 ==> k * p >= p
    ensures k <= -1 ==> k * p <= -p
  {
    if k >= 1 {
      assert k * p == (k - 1) * p + p;
    } else if k <= -1 {
      assert k * p == (k + 1) * p - p;
    }
  }

  /** Adding the modulus does not change a remainder. */
  lemma ModShift(a: int, p: int)
    requires p > 0
    ensures (a + p) % p == a % p
  {
    var q, m := a / p, a % p;
    var q2, m2 := (a + p) / p, (a + p) % p;
    var k := q2 - q - 1;
    assert k * p == q2 * p - q * p - p;
    MultipleBound(k, p);
  }

  /** A `bits`-wide integer type, signed (two's complement) or not. */
  datatype IntType = IntType(bits: nat, signed: bool)
  {
    /** The library's integer types are 8 to 64 bits wide. */
    predicate Valid() {
      bits >= 8
    }

    /** The smallest value of the type. */
    function Min(): (m: int)
      requires Valid()
      ensures signed ==> m == -(Pow2(bits - 1) as int)
      ensures !signed ==> m == 0
    {
      if signed then -(Pow2(bits - 1) as int) else 0
    }

    /** The largest value of the type. */
    function Max(): (m: int)
      requires Valid()
      ensures m - Min() + 1 == Pow2(bits)
    {
      if signed then Pow2(bits - 1) - 1 else Pow2(bits) - 1
    }

    predicate InRange(x: int)
      requires Valid()
    {
      Min() <= x <= Max()
    }

    /** The value of the type that `x` wraps around to: `x` moved by whole
        multiples of `2^bits` into the type's range, which keeps its `bits`
        low bits (two's complement when the type is signed). */
    function Wrap(x: int): (r: int)
      requires Valid()
      ensures InRange(r)
      ensures InRange(x) ==> r == x
      ensures (x - r) % Pow2(bits) == 0
      decreases if x > Max() then x - Max() else if x < Min() then Min() - x else 0
    {
      if x > Max() then
        var r := Wrap(x - Pow2(bits));
        ModShift(x - Pow2(bits) - r, Pow2(bits));
        r
      else if x < Min() then
        var r := Wrap(x + Pow2(bits));
        ModShift(x - r, Pow2(bits));
        r
      else x
    }

    /** Wrapping ignores whole multiples of `2^bits`. */
    lemma WrapPeriodic(x: int)
      requires Valid()
      ensures Wrap(x + Pow2(bits)) == Wrap(x)
    {
    }
  }

  /** `NSTDInt` and `NSTDUInt`: pointer-sized on a 64-bit target. */
  const INT := IntType(64, true)
  const UINT := IntType(64, false)
  const I8 := IntType(8, true)
  const U8 := IntType(8, false)
  const I16 := IntType(16, true)
  const U16 := IntType(16, false)
  const I32 := IntType(32, true)
  const U32 := IntType(32, false)
  const I64 := IntType(64, true)
  const U64 := IntType(64, false)
}
