/** Conversions between floats and integers and between float formats. */
module Convert {
  import opened Powers
  import opened Jamming
  import opened Rounding
  import opened SoftFormat
  import opened RoundPack
  import opened Normalize
  import opened Operands
  import opened Representable
  import opened Fma

  /* ---- float to integer ---- */

  /** The greatest and least n-bit integer, with or without sign. */
  function MaxInt(n: nat, unsigned: bool): nat
    requires n >= 1
  {
    if unsigned then Pow2(n) - 1 else Pow2(n - 1) - 1
  }

  function MinInt(n: nat, unsigned: bool): int
    requires n >= 1
  {
    if unsigned then 0 else 0 - Pow2(n - 1)
  }

  /** The n-bit word of an integer. */
  function WordOf(n: nat, i: int): int {
    if i < 0 then i + Pow2(n) else i
  }

  /** The integer a finite operand rounds to. */
  ghost function RoundedInt(f: Format, rm: RoundingMode, a: nat): int {
    var m := RoundReal(rm, SignOf(f, a) == 1, Magnitude(f, a));
    if SignOf(f, a) == 1 then 0 - m else m
  }

  /** Section 5.4.1 and 5.8 of IEEE 754-2019, with the RISC-V choice for what does not fit. */
  ghost predicate ConvertsToInt(f: Format, n: nat, unsigned: bool, a: nat, rm: RoundingMode, fflags: Flags,
                                r: int, fl: Flags)
    requires f.Valid() && n >= 1
  {
    if IsNaN(f, a) then
      r == MaxInt(n, unsigned) && fl == fflags.Or(INVALID)
    else if IsInf(f, a) || !(MinInt(n, unsigned) <= RoundedInt(f, rm, a) <= MaxInt(n, unsigned)) then
      r == WordOf(n, if SignOf(f, a) == 1 then MinInt(n, unsigned) else MaxInt(n, unsigned)) && fl == fflags.Or(INVALID)
    else
      && r == WordOf(n, RoundedInt(f, rm, a))
      && fl == fflags.Or(if Magnitude(f, a) == RoundReal(rm, SignOf(f, a) == 1, Magnitude(f, a)) as real
                         then NO_FLAGS else INEXACT)
  }

  /** r_max: the magnitude bound on the side of the operand's sign. */
  function Limit(n: nat, unsigned: bool, sign: nat): nat
    requires n >= 1 && sign <= 1
  {
    if unsigned then if sign == 1 then 0 else Pow2(n) - 1
    else Pow2(n - 1) - (1 - sign)
  }

  /** An operand of the unit's exponent or above is an integer, and past the word's width it cannot fit. */
  lemma IntegerMagnitude(f: Format, rm: RoundingMode, neg: bool, sig: nat, e: nat)
    ensures Scale(sig as real, e) == Shl(sig, e) as real
    ensures RoundReal(rm, neg, Scale(sig as real, e)) == Shl(sig, e)
  {
    ScaleInt(sig, e);
    RoundInteger(rm, neg, Shl(sig, e));
  }

  lemma TooLarge(f: Format, n: nat, sig: nat, e: nat)
    requires f.Valid() && sig >= Pow2(f.mant) && e + f.mant >= n
    ensures Shl(sig, e) >= Pow2(n)
  {
    hide Pow2, Shl;
    ShlPow2(f.mant, e);
    ShlOrder(sig, Pow2(f.mant), e);
    Pow2Mono(n, f.mant + e);
  }

  /** Below the unit's exponent the jammed significand rounds like the exact magnitude. */
  lemma FractionRounds(f: Format, rm: RoundingMode, neg: bool, sig: nat, d: nat)
    requires f.Valid()
    ensures var j := ShiftJam(Shl(sig, f.Rnd()), d);
            var x := Scale(sig as real, 0 - d);
            && RoundBits(rm, neg, j, f.Rnd()) == RoundReal(rm, neg, x)
            && (Low(j, f.Rnd()) == 0 <==> x == RoundReal(rm, neg, x) as real)
  {
    hide Shl, Shr, Low, Scale, ShiftJam, RoundBits, RoundReal, Pow2;
    var r: int, s := f.Rnd(), Shl(sig, f.Rnd());
    JamExact(s, 0);
    JamRight(s as real, s, 0, d, 1);
    RoundingIsExact(rm, neg, Scale(s as real, 0 - d), ShiftJam(s, d), 1, f.Rnd());
    ScaleInt(sig, f.Rnd());
    ScaleScale(sig as real, r, 0 - d);
    ScaleScale(sig as real, r - d, 0 - r);
  }

  lemma LimitIs(n: nat, unsigned: bool, sign: nat)
    requires n >= 1 && sign <= 1
    ensures Limit(n, unsigned, sign) == if sign == 1 then 0 - MinInt(n, unsigned) else MaxInt(n, unsigned)
    ensures sign == 1 ==> WordOf(n, MinInt(n, unsigned)) == Limit(n, unsigned, sign)
    ensures Limit(n, unsigned, sign) < Pow2(n) == 2 * Pow2(n - 1)
  {
  }

  /** What does not fit is clamped to the limit on its side. */
  lemma Clamped(f: Format, n: nat, unsigned: bool, a: nat, sign: nat, rm: RoundingMode, fflags: Flags)
    requires f.Valid() && n >= 1 && SignOf(f, a) <= 1 && sign == if IsNaN(f, a) then 0 else SignOf(f, a)
    requires !IsFinite(f, a) || RoundReal(rm, sign == 1, Magnitude(f, a)) > Limit(n, unsigned, sign)
    ensures ConvertsToInt(f, n, unsigned, a, rm, fflags, Limit(n, unsigned, sign), fflags.Or(INVALID))
  {
    hide Pow2, Magnitude, RoundReal, SignOf, ExpOf, MantOf, Format.ExpMask;
    LimitIs(n, unsigned, sign);
  }

  lemma Fitting(f: Format, n: nat, unsigned: bool, a: nat, sign: nat, rm: RoundingMode, fflags: Flags, m: nat)
    requires f.Valid() && n >= 1 && sign <= 1 && sign == SignOf(f, a) && IsFinite(f, a)
    requires m == RoundReal(rm, sign == 1, Magnitude(f, a)) && m <= Limit(n, unsigned, sign)
    ensures ConvertsToInt(f, n, unsigned, a, rm, fflags, WordOf(n, if sign == 1 then 0 - m else m),
                          if Magnitude(f, a) == m as real then fflags else fflags.Or(INEXACT))
  {
    hide Pow2, Magnitude, RoundReal, SignOf, ExpOf, MantOf, Format.ExpMask;
    LimitIs(n, unsigned, sign);
  }

  /**
   Where an infinity or NaN passes for a number: its unpacked significand, shifted to the width, is not past the limit.
   Then no flag is raised; a signed width two above the bias still gives the right word for a negative infinity.
   */
  predicate Slips(f: Format, n: nat, unsigned: bool, a: nat, fflags: Flags) {
    && !IsFinite(f, a)
    && if unsigned then n >= f.Bias() + 2 && (IsNaN(f, a) || SignOf(f, a) == 0)
       else n >= f.Bias() + 3 || (n == f.Bias() + 2 && IsInf(f, a) && SignOf(f, a) == 1 && !fflags.invalid)
  }

  /** The integer an infinity or NaN passes for. */
  lemma SpecialRange(f: Format, sig: nat)
    requires f.Valid() && f.mant <= f.Bias() && Pow2(f.mant) <= sig < 2 * Pow2(f.mant)
    ensures var r, p := Shl(sig, f.Bias() + 1 - f.mant), Pow2(f.Bias() + 1);
            r % 2 == p % 2 == 0 && p <= r < 2 * p && (r == p <==> sig == Pow2(f.mant))
  {
    hide Pow2, Shl, Format.Bias, Format.ExpMask;
    var e := f.Bias() + 1 - f.mant;
    ShlPow2(f.mant, e);
    ShlPow2(f.mant + 1, e);
    Pow2Next(f.mant);
    Pow2Next(f.Bias());
    Pow2Next(f.Bias() + 1);
    ShlOrder(sig, Pow2(f.mant), e);
    ShlOrder(Pow2(f.mant), sig, e);
    ShlOrder(sig, Pow2(f.mant + 1), e);
    ShlDoubles(sig, e - 1);
  }

  lemma ShlDoubles(a: nat, d: nat)
    ensures Shl(a, d + 1) == 2 * Shl(a, d)
  {
  }

  /** The word widths against that integer. */
  lemma WidthRange(f: Format, n: nat)
    requires f.Valid() && n >= f.Bias() + 2
    ensures var q, p := Pow2(n - 1), Pow2(f.Bias() + 1);
            p >= 2 && Pow2(n) == 2 * q && q >= p && (n == f.Bias() + 2 <==> q == p) && (n > f.Bias() + 2 ==> q >= 2 * p)
  {
    hide Pow2, Format.Bias, Format.ExpMask;
    Pow2Next(n - 1);
    Pow2Next(f.Bias());
    Pow2Mono(f.Bias() + 1, n - 1);
    if n > f.Bias() + 2 {
      Pow2Next(f.Bias() + 1);
      Pow2Mono(f.Bias() + 2, n - 1);
    }
  }

  lemma SpecialPasses(f: Format, n: nat, unsigned: bool, a: nat, sign: nat, sig: nat, rm: RoundingMode, fflags: Flags)
    requires f.Valid() && f.mant <= f.Bias() && n >= f.Bias() + 2 && !IsFinite(f, a)
    requires SignOf(f, a) <= 1 && sign == (if IsNaN(f, a) then 0 else SignOf(f, a))
    requires Pow2(f.mant) <= sig < 2 * Pow2(f.mant) && (IsInf(f, a) <==> sig == Pow2(f.mant))
    ensures var r := Shl(sig, f.Bias() + 1 - f.mant);
            && (r > Limit(n, unsigned, sign) ==> !Slips(f, n, unsigned, a, fflags))
            && (r <= Limit(n, unsigned, sign) ==>
                  (ConvertsToInt(f, n, unsigned, a, rm, fflags, WordOf(n, if sign == 1 then 0 - r else r), fflags) <==>
                   !Slips(f, n, unsigned, a, fflags)))
  {
    hide Pow2, Shl, Format.Bias, Format.ExpMask, SignOf, ExpOf, MantOf, RoundedInt, Magnitude;
    SpecialRange(f, sig);
    WidthRange(f, n);
  }

  lemma MagnitudeIs(f: Format, a: nat)
    requires f.Valid()
    ensures Magnitude(f, a) == Scale(Significand(f, a) as real, Exponent(f, a) - f.ExpMask() / 2 - f.mant)
  {
  }

  lemma FiniteNeverSlips(f: Format, n: nat, unsigned: bool, a: nat, fflags: Flags)
    ensures IsFinite(f, a) || n < f.Bias() + 2 ==> !Slips(f, n, unsigned, a, fflags)
  {
  }

  /** internal_cvt_sf_i: the n-bit word of the rounded integer, unless an infinity or NaN passes for one */
  method CvtSfToInt(f: Format, n: nat, a: nat, rm: RoundingMode, unsigned: bool, fflags: Flags)
    returns (r: int, fl: Flags)
    requires f.Valid() && IsWord(f, a) && n >= 1 && f.mant <= f.Bias()
    ensures ConvertsToInt(f, n, unsigned, a, rm, fflags, r, fl) <==> !Slips(f, n, unsigned, a, fflags)
  {
    hide Pow2, Shl, Shr, Low, Scale, Format.ExpMask, Format.Bias, ShiftJam, RoundBits, RoundReal, SignOf, ExpOf, MantOf,
         ConvertsToInt, Limit, Magnitude, Slips;
    FieldsOf(f, a);
    FiniteNeverSlips(f, n, unsigned, a, fflags);
    ExpMaskIsOdd(f);
    MagnitudeIs(f, a);
    var sign, exp, mant := SignOf(f, a), ExpOf(f, a), MantOf(f, a);
    if exp == f.ExpMask() && mant != 0 {
      sign := 0;
    }
    if exp == 0 {
      exp := 1;
    } else {
      mant := mant + Pow2(f.mant);
    }
    LimitIs(n, unsigned, sign);
    ghost var sig := mant;
    var e: int := exp - f.ExpMask() / 2 - f.mant;
    var limit := Limit(n, unsigned, sign);
    if !IsFinite(f, a) && n >= f.Bias() + 2 {
      SpecialPasses(f, n, unsigned, a, sign, sig, rm, fflags);
    }
    if e >= 0 {
      IntegerMagnitude(f, rm, sign == 1, sig, e);
      if e <= n - 1 - f.mant {
        r := Shl(mant, e);
      } else {
        TooLarge(f, n, sig, e);
        Clamped(f, n, unsigned, a, sign, rm, fflags);
        return limit, fflags.Or(INVALID);
      }
      fl := fflags;
    } else {
      FractionRounds(f, rm, sign == 1, sig, -e);
      Pow2Next(f.mant);
      GuardedWord(f, mant, f.Rnd());
      mant := RshiftRnd(f, Shl(mant, f.Rnd()), -e);
      fl := if Low(mant, f.Rnd()) != 0 then fflags.Or(INEXACT) else fflags;
      r := RoundBits(rm, sign == 1, mant, f.Rnd());
    }
    if r > limit {
      Clamped(f, n, unsigned, a, sign, rm, fflags);
      return limit, fflags.Or(INVALID);
    }
    if IsFinite(f, a) {
      Fitting(f, n, unsigned, a, sign, rm, fflags, r);
    }
    if sign == 1 {
      r := WordOf(n, 0 - r);
    }
  }

  /* ---- integer to float ---- */

  /** The reduced integer stands for the exact one. */
  lemma ReducedInteger(f: Format, m: nat, l: nat)
    requires f.Valid() && l == if BitLen(m) > f.Size() - 1 then BitLen(m) - (f.Size() - 1) else 0
    ensures ShiftJam(m, l) < Pow2(f.Size() - 1)
    ensures Roundable(f, ShiftJam(m, l), Scale(m as real, 0 - l), 1)
  {
    hide Pow2, Shl, Shr, Low, Scale, Jams, ShiftJam, BitLen;
    BitLenRange(m);
    BitLenBound(m, f.Size() - 1);
    if l == 0 {
      ShiftJamNone(m);
      ScaleZeroIs(m as real);
    } else {
      JamExact(m, 0);
      JamRight(m as real, m, 0, l, 1);
      ShiftJamRange(m, l, f.Size() - 2);
      Pow2Mono(f.mant + 2, f.Size() - 2);
    }
  }

  /** internal_cvt_i_sf: a is the integer an n-bit word holds, read with or without sign */
  method CvtIntToSf(f: Format, n: nat, a: int, rm: RoundingMode, unsigned: bool, fflags: Flags)
    returns (r: nat, fl: Flags)
    requires f.Valid() && n >= 1 && MinInt(n, unsigned) <= a <= MaxInt(n, unsigned)
    ensures RoundsTo(f, rm, a as real, 0, fflags, r, fl)
  {
    hide Pow2, Shl, Shr, Low, Scale, ShiftJam, BitLen, Rounded, Roundable, RoundsTo, Format.Bias;
    var sign, m: nat := 0, 0;
    if !unsigned && a < 0 {
      sign := 1;
      m := -a;
    } else {
      m := a;
    }
    var exp := f.Bias() + f.Size() - 2;
    var clz := n - BitLen(m);
    var l := n - clz - (f.Size() - 1);
    ghost var d := if l > 0 then l else 0;
    ReducedInteger(f, m, d);
    ShiftJamIs(m, d);
    ShiftJamNone(m);
    var mant := m;
    if l > 0 {
      mant := OrBit(Shr(m, l), Low(m, l) != 0);
      exp := exp + l;
    }
    r, fl := NormalizeSf(f, sign, exp, mant, rm, fflags);
    ghost var y := Scale(m as real, 0 - d);
    assert Roundable(f, mant, y, 1);
    ScaleScale(m as real, 0 - d, d);
    ScaleZeroIs(m as real);
    ScalePositive(m as real, 0 - d);
    RoundedValue(f, rm, sign, exp, y, Signed(sign, m as real), fflags, r, fl);
    if a < 0 {
      NonzeroRounds(f, rm, a as real, sign, 0, fflags, r, fl);
    }
  }

  /* ---- float to float ---- */

  /** What a conversion between formats delivers: section 5.4.2 of IEEE 754-2019. */
  ghost predicate Converts(f: Format, g: Format, a: nat, rm: RoundingMode, fflags: Flags, r: nat, fl: Flags)
    requires f.Valid() && g.Valid()
  {
    if IsNaN(f, a) then
      r == QuietNaN(g) && fl == fflags.Or(if IsSignalling(f, a) then INVALID else NO_FLAGS)
    else if IsInf(f, a) then
      r == Infinity(g, SignOf(f, a)) && fl == fflags
    else
      RoundsTo(g, rm, Value(f, a), SignOf(f, a), fflags, r, fl)
  }

  /** Every value of f is a value of g. */
  predicate Wider(g: Format, f: Format) {
    f.mant <= g.mant && f.Bias() + f.mant < g.Bias()
  }

  const F32 := Format(23, 8)
  const F64 := Format(52, 11)

  /** The two formats the port is built with, and what the conversions between them need. */
  lemma Instances()
    ensures F32.Valid() && F64.Valid() && F32.Size() == 32 && F64.Size() == 64
    ensures F32.Bias() == 127 && F64.Bias() == 1023 && Wider(F64, F32) && Top(F32) <= F64.mant
  {
    assert Pow2(8) == 256 && Pow2(11) == 2048;
  }

  lemma DropHidden(m: nat, d: nat)
    requires Pow2(d) <= m < Pow2(d + 1)
    ensures Low(m, d) == m - Pow2(d)
  {
    ShlOne(d);
    ShlAdd(1, 1, d);
    SplitUnique(m, d, 1);
  }

  lemma WidenedMagnitude(f: Format, g: Format, a: nat, exp: int, mant: nat, r: nat)
    requires f.Valid() && g.Valid() && f.mant <= g.mant && Unpacked(f, a, exp, mant)
    requires ExpOf(g, r) == exp - f.Bias() + g.Bias() >= 1
    requires Significand(g, r) == Shl(mant, g.mant - f.mant)
    ensures Magnitude(g, r) == Magnitude(f, a)
  {
    hide Pow2, Shl, Shr, Low, Scale, Format.ExpMask, Format.Bias, ExpOf, Significand;
    ScaleInt(mant, g.mant - f.mant);
    ScaleScale(mant as real, g.mant - f.mant, exp - f.Bias() - g.mant);
  }

  lemma ExpMaskIs(g: Format)
    ensures g.ExpMask() == Pow2(g.exp) - 1
  {
  }

  /** Moving a significand and its exponent to a wider format keeps the value. */
  lemma WidenedWord(f: Format, g: Format, a: nat, exp: int, mant: nat, fflags: Flags)
    requires f.Valid() && g.Valid() && Wider(g, f) && IsWord(f, a) && Unpacked(f, a, exp, mant)
    requires 1 - f.mant <= exp < f.ExpMask()
    ensures exp - f.Bias() + g.Bias() >= 1
    ensures var r := Pack(g, SignOf(f, a), exp - f.Bias() + g.Bias(), Shl(mant, g.mant - f.mant));
            && Value(g, r) == Value(f, a)
            && forall rm: RoundingMode :: RoundsTo(g, rm, Value(f, a), SignOf(f, a), fflags, r, fflags)
  {
    hide Pow2, Shl, Shr, Low, Scale, RoundsTo, Format.ExpMask, Format.Bias, Magnitude;
    var e: nat, k := exp - f.Bias() + g.Bias(), g.mant - f.mant;
    var m := Shl(mant, k);
    var r := Pack(g, SignOf(f, a), e, m);
    FieldsOf(f, a);
    ExpMaskIsOdd(f);
    ExpMaskIsOdd(g);
    ExpMaskIs(g);
    PackFields(g, SignOf(f, a), e, m);
    ShlRange(mant, f.mant + 1, k);
    DropHidden(m, g.mant);
    WidenedMagnitude(f, g, a, exp, mant, r);
    forall rm: RoundingMode
      ensures RoundsTo(g, rm, Value(f, a), SignOf(f, a), fflags, r, fflags)
    {
      RoundingRepresentable(g, rm, r, fflags);
      assert RoundsTo(g, rm, Value(g, r), SignOf(f, a), fflags, r, fflags);
    }
  }

  /** Packing masks the hidden bit off, so it need not be there. */
  lemma HiddenBitMasked(g: Format, sign: nat, e: nat, m: nat, d: nat)
    requires d <= g.mant && m < Pow2(d)
    ensures Pack(g, sign, e, Shl(m, g.mant - d)) == Pack(g, sign, e, Shl(m + Pow2(d), g.mant - d))
  {
    hide Pow2, Shl, Low, Shr;
    var k := g.mant - d;
    ShlAdd(m, Pow2(d), k);
    ShlPow2(d, k);
    ShlOrder(m, Pow2(d), k);
    ShlOne(g.mant);
    TwoFields(1, Shl(m, k), g.mant);
    ShrSmall(Shl(m, k), g.mant);
  }

  lemma PackedZero(g: Format, sign: nat)
    requires g.Valid() && sign <= 1
    ensures Value(g, Pack(g, sign, 0, 0)) == 0.0
  {
    hide Shl, Shr, Low, Format.ExpMask, Format.Bias, Scale, Pow2;
    ShrSmall(0, g.mant);
    PackFields(g, sign, 0, 0);
    ZeroMagnitude(g, Pack(g, sign, 0, 0));
  }

  /** cvt_sf32_sf64: exact, and never raises anything but invalid for a signalling NaN */
  method Widen(f: Format, g: Format, a: nat, fflags: Flags) returns (r: nat, fl: Flags)
    requires f.Valid() && g.Valid() && Wider(g, f) && IsWord(f, a)
    ensures forall rm: RoundingMode :: Converts(f, g, a, rm, fflags, r, fl)
    ensures IsFinite(f, a) ==> Value(g, r) == Value(f, a) && fl == fflags
  {
    hide Pow2, Shl, Shr, Low, Scale, Format.ExpMask, Format.Bias, RoundsTo, Pack, Value, IsSignalling, SignOf, Unpacked;
    var sign, exp, mant: nat := SignOf(f, a), ExpOf(f, a), MantOf(f, a);
    FieldsOf(f, a);
    if exp == f.ExpMask() {
      if mant != 0 {
        fl := if IssignanSf(f, a) then fflags.Or(INVALID) else fflags;
        return QuietNaN(g), fl;
      } else {
        return Pack(g, sign, g.ExpMask(), 0), fflags;
      }
    }
    fl := fflags;
    ExpMaskIsOdd(f);
    if exp == 0 {
      if mant == 0 {
        ZeroConverts(f, g, a, fflags);
        return Pack(g, sign, 0, 0), fflags;
      }
      exp, mant := NormalizeSubnormalSf(f, mant);
      SubnormalUnpacked(f, a, exp, mant);
      WidenedWord(f, g, a, exp, mant, fflags);
    } else {
      HiddenBit(f, a);
      WidenedWord(f, g, a, exp, mant + Pow2(f.mant), fflags);
      HiddenBitMasked(g, sign, exp - f.Bias() + g.Bias(), mant, f.mant);
    }
    exp := exp - f.Bias() + g.Bias();
    r := Pack(g, sign, exp, Shl(mant, g.mant - f.mant));
  }

  lemma ZeroConverts(f: Format, g: Format, a: nat, fflags: Flags)
    requires f.Valid() && g.Valid() && IsWord(f, a) && IsZero(f, a)
    ensures Value(f, a) == 0.0 == Value(g, Pack(g, SignOf(f, a), 0, 0))
    ensures forall rm: RoundingMode ::
              RoundsTo(g, rm, Value(f, a), SignOf(f, a), fflags, Pack(g, SignOf(f, a), 0, 0), fflags)
  {
    hide Pow2, Shl, Shr, Low, Scale, Format.ExpMask, Format.Bias, Pack, Value, SignOf;
    FieldsOf(f, a);
    ZeroMagnitude(f, a);
    PackedZero(g, SignOf(f, a));
  }

  /* ---- narrowing ---- */

  /** The jammed significand handed to the narrower format's rounding. */
  lemma NarrowedRoundable(g: Format, mant: nat, d: nat)
    requires g.Valid() && Pow2(Top(g) + d) <= mant < Pow2(Top(g) + d + 1)
    ensures ShiftJam(mant, d) < Pow2(g.Size() - 1)
    ensures Roundable(g, ShiftJam(mant, d), Scale(mant as real, 0 - d), 1)
  {
    hide Pow2, Shl, Shr, Low, Scale, Jams, ShiftJam;
    JamExact(mant, 0);
    JamRight(mant as real, mant, 0, d, 1);
    ShiftJamRange(mant, d, Top(g));
    Pow2Mono(g.mant + 2, Top(g));
  }

  /** Deep below the least subnormal, every nonzero magnitude rounds the same way. */
  ghost predicate Negligible(g: Format, x: real)
    requires g.Valid()
  {
    x > 0.0 && Binade(x) < 0 - g.Bias() - g.mant
  }

  lemma BinadeBelow(x: real, k: int)
    requires 0.0 < x < Scale(1.0, k)
    ensures Binade(x) < k
  {
    hide Binade, Scale;
    BinadeBound(x);
    var e := Binade(x);
    ScaleOrder(x, Scale(1.0, k), -e);
    ScaleScale(1.0, k, -e);
    if e > k {
      ScaleShrinks(1.0, e - k);
    } else if e == k {
      ScaleZeroIs(1.0);
    }
  }

  /** A negligible magnitude is less than half the least subnormal. */
  lemma NegligibleUnits(g: Format, x: real)
    requires g.Valid() && Negligible(g, x)
    ensures Quantum(g, x) == 1 - g.Bias() - g.mant
    ensures 0.0 < Scale(x, -Quantum(g, x)) < 0.5
  {
    hide Scale, Binade, Format.Bias;
    var q, e := Quantum(g, x), Binade(x);
    BinadeBound(x);
    ScaleScale(x, -e, e - q);
    ScaleOrder(Scale(x, -e), 2.0, e - q);
    ScaleTwice(1.0);
    ScaleScale(1.0, 1, e - q);
    ScaleShrinks(1.0, q - e - 1);
    ScalePositive(x, -q);
  }

  lemma RoundTail(rm: RoundingMode, neg: bool, y: real)
    requires 0.0 < y < 0.5
    ensures RoundReal(rm, neg, y) == if rm == (if neg then RDN else RUP) then 1 else 0
  {
    assert y.Floor == 0;
  }

  lemma RoundRealNear(rm: RoundingMode, neg: bool, y: real)
    ensures y.Floor <= RoundReal(rm, neg, y) <= y.Floor + 1
  {
  }

  lemma NegligibleIsTiny(g: Format, rm: RoundingMode, neg: bool, x: real)
    requires g.Valid() && Negligible(g, x)
    ensures Tiny(g, rm, neg, x)
  {
    hide Scale, Binade, Format.Bias, RoundReal, Pow2;
    var e, m := Binade(x), g.mant;
    BinadeBound(x);
    var y := Scale(x, m - e);
    ScaleScale(x, -e, m);
    ScaleOrder(Scale(x, -e), 2.0, m);
    ScaleInt(2, m);
    ShlAdd(1, 1, m);
    ShlOne(m);
    Pow2Next(m);
    Pow2Next(m + 1);
    RoundRealNear(rm, neg, y);
    var n := RoundReal(rm, neg, y);
    ScaleOrder(1.0, Scale(x, -e), m);
    ScaleInt(1, m);
    var d := m + 1 - e - g.Bias();
    ScaleAtLeastOne(n, d);
    Pow2Mono(m + 2, d);
  }

  /** So what rounding delivers and raises does not depend on which negligible magnitude it was. */
  lemma NegligibleAlike(g: Format, rm: RoundingMode, sign: nat, x: real, x': real, r: nat)
    requires g.Valid() && Negligible(g, x) && Negligible(g, x')
    ensures Delivers(g, rm, sign, x, r) == Delivers(g, rm, sign, x', r)
    ensures Raised(g, rm, sign == 1, x) == Raised(g, rm, sign == 1, x')
  {
    hide Scale, Binade, Format.Bias, RoundReal, Quantum, Tiny, Magnitude, Infinity, LargestFinite;
    NegligibleUnits(g, x);
    NegligibleUnits(g, x');
    RoundTail(rm, sign == 1, Scale(x, -Quantum(g, x)));
    RoundTail(rm, sign == 1, Scale(x', -Quantum(g, x')));
    NegligibleIsTiny(g, rm, sign == 1, x);
    NegligibleIsTiny(g, rm, sign == 1, x');
  }

  /** Overwriting only the exponent of a subnormal leaves another negligible value. */
  lemma SubnormalNegligible(f: Format, g: Format, a: nat, exp: int, j: nat)
    requires f.Valid() && g.Valid() && Wider(f, g) && ExpOf(f, a) == 0 && MantOf(f, a) != 0
    requires 0 < j < Pow2(Top(g)) && exp <= 0
    ensures Negligible(g, Magnitude(f, a))
    ensures Negligible(g, Exactly(g, exp - f.Bias() + g.Bias(), j as real))
  {
    hide Scale, Binade, Format.Bias, Pow2, Shl, Shr, Low, Format.ExpMask;
    var m, k, t: int := MantOf(f, a), 1 - f.Bias() - f.mant, Top(g);
    Split(a, f.mant);
    ShlOne(f.mant);
    ShlOne(Top(g));
    ScaleInt(1, f.mant);
    ScaleInt(1, Top(g));
    ScalePositive(m as real, k);
    ScalePositive(j as real, exp - f.Bias() - t);
    ScaleOrder(m as real, Pow2(f.mant) as real, k);
    ScaleScale(1.0, f.mant, k);
    BinadeBelow(Magnitude(f, a), 1 - f.Bias());
    ScaleOrder(j as real, Pow2(Top(g)) as real, exp - f.Bias() - t);
    ScaleScale(1.0, t, exp - f.Bias() - t);
    BinadeBelow(Exactly(g, exp - f.Bias() + g.Bias(), j as real), exp - f.Bias());
  }

  /**
   cvt_sf64_sf32. For a subnormal operand the code drops the shifted significand and keeps only the
   new exponent; the value it then rounds is wrong but just as negligible, so the result is right.
   */
  method Narrow(f: Format, g: Format, a: nat, rm: RoundingMode, fflags: Flags) returns (r: nat, fl: Flags)
    requires f.Valid() && g.Valid() && Wider(f, g) && Top(g) <= f.mant && IsWord(f, a)
    ensures Converts(f, g, a, rm, fflags, r, fl)
  {
    hide Pow2, Shl, Shr, Low, Scale, Format.ExpMask, Format.Bias, RoundsTo, Pack, Value, IsSignalling, SignOf, Unpacked,
         Rounded, Roundable, ShiftJam, Exactly;
    var sign, exp, mant: nat := SignOf(f, a), ExpOf(f, a), MantOf(f, a);
    FieldsOf(f, a);
    Pow2Mono(f.mant + 1, f.Size());
    if exp == f.ExpMask() {
      if mant != 0 {
        fl := if IssignanSf(f, a) then fflags.Or(INVALID) else fflags;
        return QuietNaN(g), fl;
      } else {
        return Pack(g, sign, g.ExpMask(), 0), fflags;
      }
    }
    var d := f.mant - (g.Size() - 2);
    if exp == 0 {
      if mant == 0 {
        ZeroConverts(f, g, a, fflags);
        return Pack(g, sign, 0, 0), fflags;
      }
      var e, dropped := NormalizeSubnormalSf(f, mant);
      exp := e;
      Pow2Next(f.mant);
      NarrowedSubnormal(f, g, mant, d);
      SubnormalNegligible(f, g, a, exp, ShiftJam(mant, d));
      exp := exp - f.Bias() + g.Bias();
      mant := RshiftRnd(f, mant, d);
      r, fl := NormalizeSf(g, sign, exp, mant, rm, fflags);
      assert Roundable(g, mant, mant as real, 0) by {
        ExactIsRoundable(g, mant);
      }
      NegligibleRounded(f, g, a, rm, exp, mant, fflags, r, fl);
    } else {
      mant := mant + Pow2(f.mant);
      HiddenBit(f, a);
      UnpackedRange(f, a, exp, mant);
      NarrowedRoundable(g, mant, d);
      NarrowedPlace(f, g, a, exp, mant);
      ghost var y := Scale(mant as real, 0 - (d as int));
      exp := exp - f.Bias() + g.Bias();
      mant := RshiftRnd(f, mant, d);
      r, fl := NormalizeSf(g, sign, exp, mant, rm, fflags);
      assert Roundable(g, mant, y, 1);
      RoundedValue(g, rm, sign, exp, y, Value(f, a), fflags, r, fl);
    }
  }

  lemma UnpackedRange(f: Format, a: nat, exp: int, mant: nat)
    requires f.Valid() && Unpacked(f, a, exp, mant)
    ensures Pow2(f.mant) <= mant < Pow2(f.mant + 1)
  {
  }

  lemma ExactIsRoundable(g: Format, mant: nat)
    requires g.Valid()
    ensures Roundable(g, mant, mant as real, 0)
  {
  }

  lemma NarrowedSubnormal(f: Format, g: Format, mant: nat, d: nat)
    requires g.Valid() && 0 < mant < Pow2(f.mant) && f.mant == Top(g) + d
    ensures 0 < ShiftJam(mant, d) < Pow2(Top(g)) < Pow2(g.Size() - 1)
  {
    hide Pow2, ShiftJam;
    ShiftJamBound(mant, d, Top(g));
    ShiftJamNonzero(mant, d);
    Pow2Next(Top(g));
    Pow2AtLeast(Top(g));
  }

  lemma NarrowedPlace(f: Format, g: Format, a: nat, exp: int, mant: nat)
    requires f.Valid() && g.Valid() && Top(g) <= f.mant && Unpacked(f, a, exp, mant)
    ensures var y := Scale(mant as real, 0 - (f.mant - Top(g)));
            Exactly(g, exp - f.Bias() + g.Bias(), y) == Magnitude(f, a) && y > 0.0
    ensures Value(f, a) == Signed(SignOf(f, a), Magnitude(f, a))
  {
    hide Scale, Format.Bias, Magnitude, SignOf;
    ScaleScale(mant as real, 0 - (f.mant - Top(g)), exp - f.Bias() - Top(g));
    Pow2AtLeast(f.mant);
    ScalePositive(mant as real, 0 - (f.mant - Top(g)));
  }

  lemma NegligibleRounded(f: Format, g: Format, a: nat, rm: RoundingMode, exp: int, j: nat, fflags: Flags, r: nat, fl: Flags)
    requires f.Valid() && g.Valid() && j > 0 && SignOf(f, a) <= 1
    requires Negligible(g, Magnitude(f, a)) && Negligible(g, Exactly(g, exp, j as real))
    requires Rounded(g, rm, SignOf(f, a), exp, j as real, fflags, r, fl)
    ensures RoundsTo(g, rm, Value(f, a), SignOf(f, a), fflags, r, fl)
  {
    hide Delivers, Raised, Magnitude, Exactly, SignOf, Binade, Pack;
    NegligibleAlike(g, rm, SignOf(f, a), Magnitude(f, a), Exactly(g, exp, j as real), r);
  }
}
