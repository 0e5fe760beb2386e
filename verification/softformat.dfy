/** Binary interchange formats: bit fields, exact values, and what correct rounding means. */
module SoftFormat {
  import opened Powers
  import opened Jamming
  import opened Rounding

  /** mant and exp are MANT_SIZE and EXP_SIZE: (23, 8), (52, 11) and (112, 15) in the C code. */
  datatype Format = Format(mant: nat, exp: nat) {
    predicate Valid() {
      5 <= exp <= mant && (mant + exp) % 2 == 1
    }

    /** F_SIZE */
    function Size(): nat {
      1 + mant + exp
    }

    /** RND_SIZE, the guard bits below the mantissa of an internal value. */
    function Rnd(): nat
      requires Valid()
    {
      exp - 1
    }

    function ExpMask(): nat {
      Pow2(exp) - 1
    }

    function Bias(): nat {
      ExpMask() / 2
    }
  }

  datatype Flags = Flags(invalid: bool, divZero: bool, overflow: bool, underflow: bool, inexact: bool) {
    function Or(other: Flags): Flags {
      Flags(invalid || other.invalid, divZero || other.divZero, overflow || other.overflow,
            underflow || other.underflow, inexact || other.inexact)
    }
  }

  const NO_FLAGS := Flags(false, false, false, false, false)
  const INVALID := Flags(true, false, false, false, false)
  const DIVIDE_ZERO := Flags(false, true, false, false, false)
  const OVERFLOW := Flags(false, false, true, false, false)
  const UNDERFLOW := Flags(false, false, false, true, false)
  const INEXACT := Flags(false, false, false, false, true)

  function SignOf(f: Format, a: nat): nat {
    Shr(a, f.mant + f.exp)
  }

  function ExpOf(f: Format, a: nat): nat {
    Low(Shr(a, f.mant), f.exp)
  }

  function MantOf(f: Format, a: nat): nat {
    Low(a, f.mant)
  }

  function Pack(f: Format, sign: nat, exp: nat, mant: nat): nat {
    Shl(sign, f.mant + f.exp) + Shl(exp, f.mant) + Low(mant, f.mant)
  }

  predicate IsWord(f: Format, a: nat) {
    a < Pow2(f.Size())
  }

  predicate IsNaN(f: Format, a: nat) {
    ExpOf(f, a) == f.ExpMask() && MantOf(f, a) != 0
  }

  predicate IsFinite(f: Format, a: nat) {
    ExpOf(f, a) != f.ExpMask()
  }

  /** The mantissa with its hidden bit. */
  function Significand(f: Format, a: nat): nat {
    if ExpOf(f, a) == 0 then MantOf(f, a) else MantOf(f, a) + Pow2(f.mant)
  }

  /** The biased exponent the significand is scaled by. */
  function Exponent(f: Format, a: nat): nat {
    if ExpOf(f, a) == 0 then 1 else ExpOf(f, a)
  }

  ghost function Magnitude(f: Format, a: nat): real {
    Scale(Significand(f, a) as real, Exponent(f, a) - f.Bias() - f.mant)
  }

  ghost function Value(f: Format, a: nat): real {
    if SignOf(f, a) == 1 then -Magnitude(f, a) else Magnitude(f, a)
  }

  ghost predicate InBinade(x: real, e: int) {
    1.0 <= Scale(x, -e) < 2.0
  }

  /** Doubling a value below a half brings its inverse down by at least one. */
  lemma DoubledInverse(x: real)
    requires 0.0 < x && 2.0 * x < 1.0
    ensures 0 <= (1.0 / (2.0 * x)).Floor < (1.0 / x).Floor
  {
    var z := 1.0 / x;
    assert z * x == 1.0;
    InverseAbove(z, x);
    assert (z / 2.0) * (2.0 * x) == z * x;
    InverseIs(2.0 * x, z / 2.0);
  }

  lemma InverseAbove(z: real, x: real)
    requires 0.0 < x && 2.0 * x < 1.0 && z * x == 1.0
    ensures z > 2.0
  {
    assert (z - 2.0) * x == 1.0 - 2.0 * x;
  }

  lemma InverseIs(y: real, w: real)
    requires y > 0.0 && w * y == 1.0
    ensures 1.0 / y == w
  {
  }

  /** The e with 2^e <= x < 2^(e+1). */
  ghost function Binade(x: real): int
    requires x > 0.0
    decreases if x >= 1.0 then x.Floor else (1.0 / x).Floor
  {
    if x >= 2.0 then Binade(x / 2.0) + 1
    else if x >= 1.0 then 0
    else if 2.0 * x >= 1.0 then -1
    else
      DoubledInverse(x);
      Binade(2.0 * x) - 1
  }

  lemma {:induction false} BinadeUnique(x: real, e: int)
    requires x > 0.0 && InBinade(x, e)
    ensures Binade(x) == e
    decreases if x >= 1.0 then x.Floor else (1.0 / x).Floor
  {
    ScaleScale(x, -1, -(e - 1));
    ScaleScale(x, 1, -(e + 1));
    assert Scale(x, -1) == x / 2.0 && Scale(x, 1) == 2.0 * x;
    if x >= 2.0 {
      BinadeUnique(x / 2.0, e - 1);
    } else if 2.0 * x >= 1.0 {
      ScaleBelowOne(x, e);
    } else {
      DoubledInverse(x);
      BinadeUnique(2.0 * x, e + 1);
    }
  }

  /** For 1/2 <= x < 2 the binade exponent can only be -1 or 0. */
  lemma ScaleBelowOne(x: real, e: int)
    requires InBinade(x, e) && 1.0 <= 2.0 * x < 4.0
    ensures e == if x >= 1.0 then 0 else -1
  {
    if e > 0 {
      ScaleShrinks(x, e);
    } else if e < -1 {
      ScaleGrows(2.0 * x, -1 - e);
      ScaleScale(x, 1, -1 - e);
    }
    assert Scale(x, 1) == 2.0 * x;
  }

  lemma {:induction false} ScaleShrinks(x: real, d: nat)
    requires x > 0.0 && d > 0
    ensures Scale(x, -(d as int)) <= x / 2.0
  {
    if d > 1 {
      ScaleShrinks(x, d - 1);
    }
  }

  lemma {:induction false} ScaleGrows(x: real, d: nat)
    requires x > 0.0 && d > 0
    ensures Scale(x, d) >= 2.0 * x
  {
    if d > 1 {
      ScaleGrows(x, d - 1);
    }
  }

  /* ---- correct rounding, IEEE 754-2019 sections 4.3 and 7 ---- */

  /** Exponent of the unit in the last place the format has around x, subnormals included. */
  ghost function Quantum(f: Format, x: real): int
    requires x > 0.0
  {
    (if Binade(x) < 1 - f.Bias() then 1 - f.Bias() else Binade(x)) - f.mant
  }

  ghost function RoundedUnits(f: Format, rm: RoundingMode, neg: bool, x: real): int
    requires x > 0.0
  {
    RoundReal(rm, neg, Scale(x, -Quantum(f, x)))
  }

  /** The rounded value, exponent unbounded above, reaches 2^(emax + 1). */
  ghost predicate Overflows(f: Format, rm: RoundingMode, neg: bool, x: real)
    requires x > 0.0
  {
    Scale(RoundedUnits(f, rm, neg, x) as real, Quantum(f, x) - (f.Bias() + 1)) >= 1.0
  }

  /** Tininess after rounding: with the exponent unbounded below, x rounds to less than 2^emin. */
  ghost predicate Tiny(f: Format, rm: RoundingMode, neg: bool, x: real)
    requires x > 0.0
  {
    var q := Binade(x) - f.mant;
    Scale(RoundReal(rm, neg, Scale(x, -q)) as real, q - (1 - f.Bias())) < 1.0
  }

  ghost predicate Exact(f: Format, rm: RoundingMode, neg: bool, x: real)
    requires x > 0.0
  {
    Scale(x, -Quantum(f, x)) == RoundedUnits(f, rm, neg, x) as real
  }

  function Infinity(f: Format, sign: nat): nat {
    Pack(f, sign, f.ExpMask(), 0)
  }

  function LargestFinite(f: Format, sign: nat): nat
    requires f.Valid()
  {
    Pack(f, sign, f.ExpMask() - 1, Pow2(f.mant) - 1)
  }

  predicate AwayFromZero(rm: RoundingMode, neg: bool) {
    rm == RNE || rm == RMM || rm == (if neg then RDN else RUP)
  }

  /** r is what rounding the nonzero value (-1)^sign * x delivers. */
  ghost predicate Delivers(f: Format, rm: RoundingMode, sign: nat, x: real, r: nat)
    requires f.Valid() && x > 0.0
  {
    if Overflows(f, rm, sign == 1, x) then
      r == if AwayFromZero(rm, sign == 1) then Infinity(f, sign) else LargestFinite(f, sign)
    else
      && IsWord(f, r) && IsFinite(f, r) && SignOf(f, r) == sign
      && Magnitude(f, r) == Scale(RoundedUnits(f, rm, sign == 1, x) as real, Quantum(f, x))
  }

  /** The flags that rounding the nonzero value raises. */
  ghost function Raised(f: Format, rm: RoundingMode, neg: bool, x: real): Flags
    requires x > 0.0
  {
    if Overflows(f, rm, neg, x) then OVERFLOW.Or(INEXACT)
    else if Exact(f, rm, neg, x) then NO_FLAGS
    else if Tiny(f, rm, neg, x) then UNDERFLOW.Or(INEXACT)
    else INEXACT
  }
}
