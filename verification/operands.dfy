/** What the operations read off their operand words, and the values those words stand for. */
module Operands {
  import opened Powers
  import opened Jamming
  import opened Rounding
  import opened SoftFormat
  import opened RoundPack
  import opened Normalize

  /** F_QNAN */
  function QuietNaN(f: Format): nat
    requires f.Valid()
  {
    Pack(f, 0, f.ExpMask(), Pow2(f.mant - 1))
  }

  /** A NaN whose quiet bit is clear. */
  predicate IsSignalling(f: Format, a: nat)
    requires f.Valid()
  {
    IsNaN(f, a) && MantOf(f, a) < Pow2(f.mant - 1)
  }

  predicate IsInf(f: Format, a: nat) {
    ExpOf(f, a) == f.ExpMask() && MantOf(f, a) == 0
  }

  predicate IsZero(f: Format, a: nat) {
    ExpOf(f, a) == 0 && MantOf(f, a) == 0
  }

  /** A word is its fields, packed. */
  lemma FieldsOf(f: Format, a: nat)
    requires f.Valid() && IsWord(f, a)
    ensures SignOf(f, a) <= 1 && ExpOf(f, a) <= f.ExpMask() && MantOf(f, a) < Pow2(f.mant)
    ensures a == Shl(SignOf(f, a), f.mant + f.exp) + Shl(ExpOf(f, a), f.mant) + MantOf(f, a)
    ensures Low(a, f.Size() - 1) == Shl(ExpOf(f, a), f.mant) + MantOf(f, a) < Pow2(f.Size() - 1)
  {
    hide Pow2, Shl, Shr, Low;
    var m, e := f.mant, f.exp;
    var upper := Shr(a, m);
    Split(a, m);
    Split(upper, e);
    ShrShr(a, m, e);
    Split(a, m + e);
    ShlAdd(Shl(Shr(upper, e), e), Low(upper, e), m);
    ShlShl(Shr(upper, e), e, m);
    Pow2Next(m + e);
    ShlAdd(1, 1, m + e);
    ShlOne(m + e);
    ShrOrder(a, m + e, 2);
  }

  /** issignan_sf */
  predicate IssignanSf(f: Format, a: nat)
    requires f.Valid() && IsWord(f, a)
    ensures IssignanSf(f, a) <==> IsSignalling(f, a)
  {
    SignallingBits(f, a);
    Low(Shr(a, f.mant - 1), f.exp + 1) == 2 * f.ExpMask() && MantOf(f, a) != 0
  }

  /** The exponent field with the quiet bit below it, read as one field. */
  lemma SignallingBits(f: Format, a: nat)
    requires f.Valid()
    ensures Low(Shr(a, f.mant - 1), f.exp + 1) == 2 * ExpOf(f, a) + (if MantOf(f, a) < Pow2(f.mant - 1) then 0 else 1)
  {
    hide Pow2;
    var b, m := Shr(a, f.mant - 1), f.mant - 1;
    ShrShr(a, m, 1);
    assert Shr(b, 1) == b / 2 && Low(b, f.exp + 1) == b % 2 + 2 * Low(b / 2, f.exp);
    Split(a, m + 1);
    Split(a, m);
    QuietBit(a, m);
  }

  lemma QuietBit(a: nat, m: nat)
    ensures Low(a, m + 1) < Pow2(m) <==> Shr(a, m) % 2 == 0
  {
    hide Pow2, Shr, Low;
    var q := Shr(a, m);
    Split(a, m);
    ShlShl(q / 2, 1, m);
    DoubleIs(q / 2);
    ShlAdd(2 * (q / 2), q % 2, m);
    ShlShl(q / 2, m, 1);
    ShlOne(m);
    Pow2Next(m);
    ShlAdd(q / 2, 1, m + 1);
    SplitUnique(a, m + 1, q / 2);
  }

  lemma DoubleIs(q: int)
    ensures Shl(q, 1) == 2 * q
  {
  }

  /** b ^ SIGN_MASK */
  function Negated(f: Format, b: nat): nat
    requires f.Valid() && IsWord(f, b)
    ensures IsWord(f, Negated(f, b))
  {
    FieldsOf(f, b);
    SignWord(f, b);
    if SignOf(f, b) == 1 then b - Pow2(f.Size() - 1) else b + Pow2(f.Size() - 1)
  }

  lemma SignWord(f: Format, b: nat)
    requires f.Valid() && IsWord(f, b)
    ensures SignOf(f, b) == if b >= Pow2(f.Size() - 1) then 1 else 0
    ensures Pow2(f.Size()) == 2 * Pow2(f.Size() - 1)
  {
    hide Pow2, Shl, Shr, Low;
    FieldsOf(f, b);
    ShlOne(f.Size() - 1);
    Pow2Next(f.Size() - 1);
  }

  lemma NegatedFields(f: Format, b: nat)
    requires f.Valid() && IsWord(f, b)
    ensures SignOf(f, Negated(f, b)) == 1 - SignOf(f, b)
    ensures ExpOf(f, Negated(f, b)) == ExpOf(f, b) && MantOf(f, Negated(f, b)) == MantOf(f, b)
  {
    hide Pow2, Shl, Shr, Low;
    FieldsOf(f, b);
    SignWord(f, b);
    ShlOne(f.Size() - 1);
    PackFields(f, 1 - SignOf(f, b), ExpOf(f, b), MantOf(f, b));
    Split(MantOf(f, b), f.mant);
    ShrSmall(MantOf(f, b), f.mant);
  }

  /** Negation flips the value and nothing else. */
  lemma NegatedValue(f: Format, b: nat)
    requires f.Valid() && IsWord(f, b)
    ensures Value(f, Negated(f, b)) == 0.0 - Value(f, b)
    ensures Magnitude(f, Negated(f, b)) == Magnitude(f, b)
    ensures IsFinite(f, Negated(f, b)) == IsFinite(f, b) && IsNaN(f, Negated(f, b)) == IsNaN(f, b)
  {
    hide Pow2, Shl, Shr, Low;
    FieldsOf(f, b);
    NegatedFields(f, b);
  }

  /** normalize_subnormal_sf */
  method NormalizeSubnormalSf(f: Format, aMant: nat) returns (exp: int, mant: nat)
    requires f.Valid() && 0 < aMant < Pow2(f.mant)
    ensures Pow2(f.mant) <= mant < Pow2(f.mant + 1) && 1 - f.mant <= exp <= 0
    ensures Scale(mant as real, exp) == Scale(aMant as real, 1)
  {
    hide Pow2, Shl, BitLen, Scale;
    BitLenBound(aMant, f.mant);
    BitLenRange(aMant);
    var shift := f.mant - (f.Size() - 1 - (f.Size() - BitLen(aMant)));
    ShlRange(aMant, BitLen(aMant), shift);
    exp := 1 - shift;
    mant := Shl(aMant, shift);
    ScaleInt(aMant, shift);
    ScaleScale(aMant as real, shift, exp);
  }

  /** (exp, mant) is a finite nonzero operand with its top bit at MANT_SIZE. */
  ghost predicate Unpacked(f: Format, a: nat, exp: int, mant: nat)
    requires f.Valid()
  {
    && Pow2(f.mant) <= mant < Pow2(f.mant + 1)
    && Magnitude(f, a) == Scale(mant as real, exp - f.Bias() - f.mant)
    && Magnitude(f, a) > 0.0
  }

  lemma HiddenBit(f: Format, a: nat)
    requires f.Valid() && IsFinite(f, a) && ExpOf(f, a) != 0
    ensures Unpacked(f, a, ExpOf(f, a), MantOf(f, a) + Pow2(f.mant))
  {
    hide Shr, Low, Scale, Format.Bias, Format.ExpMask;
    Split(a, f.mant);
    ScalePositive(Significand(f, a) as real, Exponent(f, a) - f.Bias() - f.mant);
  }

  lemma SubnormalUnpacked(f: Format, a: nat, exp: int, mant: nat)
    requires f.Valid() && ExpOf(f, a) == 0 && MantOf(f, a) > 0 && Pow2(f.mant) <= mant < Pow2(f.mant + 1)
    requires Scale(mant as real, exp) == Scale(MantOf(f, a) as real, 1)
    ensures Unpacked(f, a, exp, mant)
  {
    hide Pow2, Shl, Shr, Low, Scale, Format.Bias, Format.ExpMask;
    ScaleScale(mant as real, exp, 0 - f.Bias() - f.mant);
    ScaleScale(MantOf(f, a) as real, 1, 0 - f.Bias() - f.mant);
    ScalePositive(MantOf(f, a) as real, 1 - f.Bias() - f.mant);
  }

  lemma ScalePositive(x: real, k: int)
    ensures x > 0.0 <==> Scale(x, k) > 0.0
    ensures x == 0.0 <==> Scale(x, k) == 0.0
  {
    ScaleOrder(0.0, x, k);
    ScaleZero(k);
  }

  /** The unpacking of a finite nonzero operand that mul_sf, div_sf, sqrt_sf and fma_sf share. */
  method UnpackNonzero(f: Format, a: nat, aExp: int, aMant: nat) returns (exp: int, mant: nat)
    requires f.Valid() && IsWord(f, a) && IsFinite(f, a) && !IsZero(f, a)
    requires aExp == ExpOf(f, a) && aMant == MantOf(f, a)
    ensures Unpacked(f, a, exp, mant)
  {
    hide Pow2, Shl, Shr, Low, Scale, Format.Bias, Format.ExpMask;
    FieldsOf(f, a);
    exp, mant := aExp, aMant;
    if exp == 0 {
      exp, mant := NormalizeSubnormalSf(f, mant);
      SubnormalUnpacked(f, a, exp, mant);
    } else {
      mant := mant + Pow2(f.mant);
      HiddenBit(f, a);
    }
  }

  lemma GuardedWord(f: Format, m: nat, d: nat)
    requires f.Valid() && m < Pow2(f.mant + 1) && d <= f.Rnd() + 1
    ensures IsWord(f, Shl(m, d))
  {
    hide Pow2, Shl;
    ShlOrder(m, Pow2(f.mant + 1), d);
    ShlPow2(f.mant + 1, d);
    Pow2Mono(f.mant + 1 + d, f.Size());
  }

  /** Correct rounding of an exact signed value: a zero takes the sign given for it. */
  ghost predicate RoundsTo(f: Format, rm: RoundingMode, v: real, zeroSign: nat, fflags: Flags, r: nat, fl: Flags)
    requires f.Valid()
  {
    if v == 0.0 then
      r == Pack(f, zeroSign, 0, 0) && fl == fflags
    else if v > 0.0 then
      Delivers(f, rm, 0, v, r) && fl == fflags.Or(Raised(f, rm, false, v))
    else
      Delivers(f, rm, 1, 0.0 - v, r) && fl == fflags.Or(Raised(f, rm, true, 0.0 - v))
  }

  ghost function Signed(sign: nat, x: real): real {
    if sign == 1 then 0.0 - x else x
  }

  lemma RoundedValue(f: Format, rm: RoundingMode, sign: nat, exp: int, y: real, v: real, fflags: Flags, r: nat, fl: Flags)
    requires f.Valid() && sign <= 1
    requires Rounded(f, rm, sign, exp, y, fflags, r, fl) && y >= 0.0
    requires v == Signed(sign, Exactly(f, exp, y))
    ensures RoundsTo(f, rm, v, sign, fflags, r, fl)
  {
    hide Delivers, Raised, Pack, Format.Bias, Scale;
    ScalePositive(y, exp - f.Bias() - Top(f));
  }

  lemma ZeroMagnitude(f: Format, a: nat)
    requires IsZero(f, a)
    ensures Magnitude(f, a) == 0.0 && Value(f, a) == 0.0
  {
    hide Pow2, Shl, Shr, Low, Format.ExpMask, Format.Bias, Scale;
    ScaleZero(1 - f.Bias() - f.mant);
  }

  lemma NonzeroMagnitude(f: Format, b: nat)
    requires !IsZero(f, b)
    ensures Magnitude(f, b) > 0.0
  {
    hide Shl, Shr, Low, Format.ExpMask, Format.Bias, Scale;
    ScalePositive(Significand(f, b) as real, Exponent(f, b) - f.Bias() - f.mant);
  }

  lemma NonzeroRounds(f: Format, rm: RoundingMode, v: real, s: nat, s': nat, fflags: Flags, r: nat, fl: Flags)
    requires f.Valid() && v != 0.0 && RoundsTo(f, rm, v, s, fflags, r, fl)
    ensures RoundsTo(f, rm, v, s', fflags, r, fl)
  {
    hide Delivers, Raised;
  }
}
