/** add_sf and sub_sf. */
module Addition {
  import opened Powers
  import opened Jamming
  import opened Rounding
  import opened SoftFormat
  import opened RoundPack
  import opened Normalize
  import opened Operands

  /** What IEEE 754-2019 asks of a + b: sections 4.3 and 6.3 for numbers, 6.1, 6.2 and 7.2 for the rest. */
  ghost predicate IsSum(f: Format, a: nat, b: nat, rm: RoundingMode, fflags: Flags, r: nat, fl: Flags)
    requires f.Valid()
  {
    if IsNaN(f, a) || IsNaN(f, b) then
      && r == QuietNaN(f)
      && fl == fflags.Or(if IsSignalling(f, a) || IsSignalling(f, b) then INVALID else NO_FLAGS)
    else if IsInf(f, a) && IsInf(f, b) && SignOf(f, a) != SignOf(f, b) then
      r == QuietNaN(f) && fl == fflags.Or(INVALID)
    else if IsInf(f, a) || IsInf(f, b) then
      r == (if IsInf(f, a) then a else b) && fl == fflags
    else
      RoundsTo(f, rm, Value(f, a) + Value(f, b), ZeroSumSign(f, a, b, rm), fflags, r, fl)
  }

  /** The sign of a zero sum. */
  function ZeroSumSign(f: Format, a: nat, b: nat, rm: RoundingMode): nat {
    if SignOf(f, a) == SignOf(f, b) then SignOf(f, a) else if rm == RDN then 1 else 0
  }

  /** Ordering the words without their signs orders the exponents, then the significands. */
  lemma MagnitudeOrder(f: Format, a: nat, b: nat)
    requires f.Valid() && IsWord(f, a) && IsWord(f, b) && Low(a, f.Size() - 1) >= Low(b, f.Size() - 1)
    ensures ExpOf(f, a) >= ExpOf(f, b)
    ensures ExpOf(f, a) == ExpOf(f, b) ==> MantOf(f, a) >= MantOf(f, b)
    ensures Exponent(f, a) >= Exponent(f, b)
    ensures Exponent(f, a) == Exponent(f, b) ==> Significand(f, a) >= Significand(f, b)
    ensures Exponent(f, a) > Exponent(f, b) ==> Significand(f, a) >= Pow2(f.mant)
    ensures Significand(f, a) < 2 * Pow2(f.mant) && Significand(f, b) < 2 * Pow2(f.mant)
  {
    hide Pow2, Shl, Shr, Low, Format.Bias, Format.ExpMask;
    FieldsOf(f, a);
    FieldsOf(f, b);
    ShlOrder(ExpOf(f, a) + 1, ExpOf(f, b), f.mant);
    ShlOrder(ExpOf(f, a), ExpOf(f, b), f.mant);
    ShlAdd(ExpOf(f, a), 1, f.mant);
    ShlOne(f.mant);
  }

  /** The exact sum or difference of two magnitudes, in units of the larger operand's guarded significand. */
  ghost function Combined(subtract: bool, sa: nat, sb: nat, d: nat): real {
    var x, y := Shl(sa, 3) as real, Scale(Shl(sb, 3) as real, 0 - d);
    if subtract then x - y else x + y
  }

  lemma CombinedValue(f: Format, a: nat, b: nat, subtract: bool)
    requires f.Valid() && Exponent(f, a) >= Exponent(f, b)
    ensures Exactly(f, Exponent(f, a) + f.Rnd() - 3,
                    Combined(subtract, Significand(f, a), Significand(f, b), Exponent(f, a) - Exponent(f, b)))
            == if subtract then Magnitude(f, a) - Magnitude(f, b) else Magnitude(f, a) + Magnitude(f, b)
  {
    hide Shl, Scale, Format.Bias, Significand, Exponent;
    var sa, sb, d: int := Significand(f, a), Significand(f, b), Exponent(f, a) - Exponent(f, b);
    var k := Exponent(f, a) - f.Bias() - f.mant - 3;
    ScaleLinear(Shl(sa, 3) as real, Scale(Shl(sb, 3) as real, 0 - d), k);
    ScaleInt(sa, 3);
    ScaleInt(sb, 3);
    ScaleScale(sa as real, 3, k);
    ScaleScale(sb as real, 3, 0 - d);
    ScaleScale(sb as real, 3 - d, k);
  }

  lemma Eight(a: int)
    ensures Shl(a, 3) == 8 * a
    ensures Shl(4 * a, 1) == 8 * a
  {
    assert Shl(a, 1) == 2 * a;
    assert Shl(a, 2) == 2 * Shl(a, 1);
    assert Shl(a, 3) == 2 * Shl(a, 2);
  }

  lemma Pow2Plus3(n: nat)
    ensures Pow2(n + 1) == 2 * Pow2(n) && Pow2(n + 2) == 4 * Pow2(n)
    ensures Pow2(n + 3) == 8 * Pow2(n) && Pow2(n + 4) == 16 * Pow2(n) && Pow2(n + 5) == 32 * Pow2(n)
  {
    assert Pow2(n + 3) == 2 * Pow2(n + 2);
    assert Pow2(n + 5) == 2 * Pow2(n + 4);
  }

  /** Three guard bits hold a shift by up to three exactly. */
  lemma CloseOperands(sb: nat, d: nat)
    requires d <= 3
    ensures ShiftJam(Shl(sb, 3), d) as real == Scale(Shl(sb, 3) as real, 0 - d)
    ensures ShiftJam(Shl(sb, 3), d) <= 8 * sb
  {
    hide Shl, Scale, Shr, Low;
    ShlShl(sb, 3 - d, d);
    Split(Shl(sb, 3), d);
    ShrOrder(Shl(sb, 3), d, Shl(sb, 3 - d));
    ScaleInt(sb, 3);
    ScaleInt(sb, 3 - d);
    ScaleScale(sb as real, 3, 0 - d);
    ShlMul(sb, 3 - d);
    Pow2Mono(3 - d, 3);
    EightIs();
    Product(sb, Pow2(3 - d), 8);
  }

  lemma EightIs()
    ensures Pow2(3) == 8
  {
  }

  lemma Product(s: nat, x: nat, y: nat)
    requires x <= y
    ensures s * x <= s * y
  {
  }

  /** A shift by four or more leaves the smaller operand far below the larger one's top bit. */
  lemma FarOperands(f: Format, sa: nat, sb: nat, d: nat, subtract: bool)
    requires f.Valid() && Pow2(f.mant) <= sa < 2 * Pow2(f.mant) && sb < 2 * Pow2(f.mant) && d >= 4
    ensures ShiftJam(Shl(sb, 3), d) < Pow2(f.mant)
    ensures var b := ShiftJam(Shl(sb, 3), d);
            Jams(Combined(subtract, sa, sb, d), if subtract then Shl(sa, 3) - b else Shl(sa, 3) + b, 1)
  {
    hide Shl, Scale, Shr, Low, Pow2, ShiftJam, Jams;
    var b := ShiftJam(Shl(sb, 3), d);
    Eight(sb);
    Eight(sa);
    Pow2Plus3(f.mant);
    Pow2Mono(f.mant + 4, f.mant + d);
    ShiftJamBound(Shl(sb, 3), d, f.mant);
    JamExact(Shl(sb, 3), 0);
    JamRight(Shl(sb, 3) as real, Shl(sb, 3), 0, d, 1);
    JamOffset(Scale(Shl(sb, 3) as real, 0 - d), b, 1, 4 * sa);
  }

  /** The mantissa add_sf hands to normalize_sf is fit to round. */
  lemma SumIsRoundable(f: Format, sa: nat, sb: nat, d: nat, subtract: bool)
    requires f.Valid() && sa < 2 * Pow2(f.mant) && sb < 2 * Pow2(f.mant)
    requires if d == 0 then sa >= sb else sa >= Pow2(f.mant)
    ensures var b := ShiftJam(Shl(sb, 3), d);
            var m := if subtract then Shl(sa, 3) - b else Shl(sa, 3) + b;
            && 0 <= m < Pow2(f.Size() - 1)
            && Combined(subtract, sa, sb, d) >= 0.0
            && Roundable(f, m, Combined(subtract, sa, sb, d), 1)
            && (m == 0 <==> Combined(subtract, sa, sb, d) == 0.0)
  {
    hide Shl, Scale, Shr, Low, Pow2, ShiftJam, Jams;
    var b := ShiftJam(Shl(sb, 3), d);
    Eight(sa);
    Eight(sb);
    Pow2Plus3(f.mant);
    Pow2Mono(f.mant + 5, f.Size() - 1);
    if d >= 4 {
      FarOperands(f, sa, sb, d, subtract);
      var m := if subtract then Shl(sa, 3) - b else Shl(sa, 3) + b;
      JamAt(Combined(subtract, sa, sb, d), m, 1, 0, 1);
      ShlOne(1);
    } else {
      CloseOperands(sb, d);
      if d == 0 {
        ShiftJamNone(Shl(sb, 3));
      } else {
        CloseBound(sb, d);
      }
    }
  }

  lemma CloseBound(sb: nat, d: nat)
    requires 1 <= d <= 3
    ensures ShiftJam(Shl(sb, 3), d) <= 4 * sb
  {
    hide Shl, Shr, Low;
    ShlShl(sb, 3 - d, d);
    ShrOrder(Shl(sb, 3), d, Shl(sb, 3 - d));
    ShlMul(sb, 3 - d);
    Pow2Mono(3 - d, 2);
    FourIs();
    Product(sb, Pow2(3 - d), 4);
  }

  lemma FourIs()
    ensures Pow2(2) == 4
  {
  }

  /** add_sf on finite operands, the larger magnitude first. */
  method AddOrdered(f: Format, a: nat, b: nat, rm: RoundingMode, fflags: Flags) returns (r: nat, fl: Flags)
    requires f.Valid() && IsWord(f, a) && IsWord(f, b) && IsFinite(f, a) && IsFinite(f, b)
    requires Low(a, f.Size() - 1) >= Low(b, f.Size() - 1)
    ensures RoundsTo(f, rm, Value(f, a) + Value(f, b), ZeroSumSign(f, a, b, rm), fflags, r, fl)
  {
    hide Pow2, Shl, Shr, Low, Format.ExpMask, Format.Bias, Scale, Rounded, Roundable, Combined, ShiftJam, RoundsTo,
         Pack, Exactly, Magnitude, Value;
    MagnitudeOrder(f, a, b);
    FieldsOf(f, a);
    var aSign, bSign := SignOf(f, a), SignOf(f, b);
    var aExp, bExp := ExpOf(f, a), ExpOf(f, b);
    var aMant, bMant := MantOf(f, a), MantOf(f, b);
    if aExp == 0 {
      aExp := 1;
    } else {
      aMant := aMant + Pow2(f.mant);
    }
    if bExp == 0 {
      bExp := 1;
    } else {
      bMant := bMant + Pow2(f.mant);
    }
    var d := aExp - bExp;
    SumIsRoundable(f, aMant, bMant, d, aSign != bSign);
    CombinedValue(f, a, b, aSign != bSign);
    ghost var y := Combined(aSign != bSign, aMant, bMant, d);
    GuardedFits(f, bMant);
    var bGuarded := RshiftRnd(f, Shl(bMant, 3), d);
    var mant := Shl(aMant, 3);
    if aSign == bSign {
      mant := mant + bGuarded;
    } else {
      mant := mant - bGuarded;
      if mant == 0 {
        aSign := if rm == RDN then 1 else 0;
      }
    }
    r, fl := NormalizeSf(f, aSign, aExp + f.Rnd() - 3, mant, rm, fflags);
    SumRounded(f, a, b, rm, aSign, y, fflags, r, fl);
  }

  lemma SumCommutes(f: Format, a: nat, b: nat, rm: RoundingMode, fflags: Flags, r: nat, fl: Flags)
    requires f.Valid() && IsWord(f, a) && IsWord(f, b) && IsSum(f, a, b, rm, fflags, r, fl)
    ensures IsSum(f, b, a, rm, fflags, r, fl)
  {
    hide Pow2, Shl, Shr, Low, Format.ExpMask, RoundsTo, Pack, Value, SignOf, ExpOf, MantOf, IsSignalling;
    FieldsOf(f, a);
    FieldsOf(f, b);
  }

  /** add_sf after its swap */
  method AddSorted(f: Format, a: nat, b: nat, rm: RoundingMode, fflags: Flags) returns (r: nat, fl: Flags)
    requires f.Valid() && IsWord(f, a) && IsWord(f, b) && Low(a, f.Size() - 1) >= Low(b, f.Size() - 1)
    ensures IsSum(f, a, b, rm, fflags, r, fl)
  {
    hide Pow2, Shl, Shr, Low, Format.ExpMask, RoundsTo, Pack, Value;
    FieldsOf(f, a);
    FieldsOf(f, b);
    MagnitudeOrder(f, a, b);
    if ExpOf(f, a) == f.ExpMask() {
      if MantOf(f, a) != 0 {
        fl := if MantOf(f, a) < Pow2(f.mant - 1) || IssignanSf(f, b) then fflags.Or(INVALID) else fflags;
        return QuietNaN(f), fl;
      } else if ExpOf(f, b) == f.ExpMask() && SignOf(f, a) != SignOf(f, b) {
        return QuietNaN(f), fflags.Or(INVALID);
      } else {
        return a, fflags;
      }
    }
    r, fl := AddOrdered(f, a, b, rm, fflags);
  }

  /** add_sf */
  method AddSf(f: Format, a: nat, b: nat, rm: RoundingMode, fflags: Flags) returns (r: nat, fl: Flags)
    requires f.Valid() && IsWord(f, a) && IsWord(f, b)
    ensures IsSum(f, a, b, rm, fflags, r, fl)
  {
    hide IsSum;
    if Low(a, f.Size() - 1) < Low(b, f.Size() - 1) {
      r, fl := AddSorted(f, b, a, rm, fflags);
      SumCommutes(f, b, a, rm, fflags, r, fl);
    } else {
      r, fl := AddSorted(f, a, b, rm, fflags);
    }
  }

  lemma GuardedFits(f: Format, s: nat)
    requires f.Valid() && s < 2 * Pow2(f.mant)
    ensures IsWord(f, Shl(s, 3))
  {
    hide Pow2, Shl;
    Eight(s);
    Pow2Plus3(f.mant);
    Pow2Mono(f.mant + 5, f.Size());
  }

  /** The rounded difference of magnitudes is the rounded signed sum. */
  lemma SumRounded(f: Format, a: nat, b: nat, rm: RoundingMode, sign: nat, y: real, fflags: Flags, r: nat, fl: Flags)
    requires f.Valid() && IsWord(f, a) && IsWord(f, b) && sign <= 1 && y >= 0.0
    requires Rounded(f, rm, sign, Exponent(f, a) + f.Rnd() - 3, y, fflags, r, fl)
    requires Exactly(f, Exponent(f, a) + f.Rnd() - 3, y)
             == if SignOf(f, a) != SignOf(f, b) then Magnitude(f, a) - Magnitude(f, b) else Magnitude(f, a) + Magnitude(f, b)
    requires sign == if y == 0.0 then ZeroSumSign(f, a, b, rm) else SignOf(f, a)
    ensures RoundsTo(f, rm, Value(f, a) + Value(f, b), ZeroSumSign(f, a, b, rm), fflags, r, fl)
  {
    hide Pow2, Shl, Shr, Low, Format.ExpMask, Format.Bias, Scale, Rounded, Delivers, Raised, Magnitude;
    FieldsOf(f, a);
    FieldsOf(f, b);
    var e := Exponent(f, a) + f.Rnd() - 3;
    ScalePositive(y, e - f.Bias() - Top(f));
    RoundedValue(f, rm, sign, e, y, Signed(sign, Exactly(f, e, y)), fflags, r, fl);
  }

  /** sub_sf */
  method SubSf(f: Format, a: nat, b: nat, rm: RoundingMode, fflags: Flags) returns (r: nat, fl: Flags)
    requires f.Valid() && IsWord(f, a) && IsWord(f, b)
    ensures IsSum(f, a, Negated(f, b), rm, fflags, r, fl)
    ensures IsFinite(f, a) && IsFinite(f, b) ==>
              RoundsTo(f, rm, Value(f, a) - Value(f, b), ZeroSumSign(f, a, Negated(f, b), rm), fflags, r, fl)
  {
    hide RoundsTo, Negated, Value;
    NegatedValue(f, b);
    r, fl := AddSf(f, a, Negated(f, b), rm, fflags);
  }
}
