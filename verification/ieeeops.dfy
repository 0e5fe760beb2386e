/**
 What each operation's contract comes to for its callers: the correct rounding of the exact result, and the special
 operands one by one.
 */
module IeeeOperations {
  import opened Powers
  import opened Jamming
  import opened Rounding
  import opened SoftFormat
  import opened RoundPack
  import opened Operands
  import opened Representable
  import opened Ieee
  import opened Addition
  import opened Multiplicative
  import opened SquareRoot
  import opened Fma
  import opened Convert

  /** A quiet NaN, and no flag but invalid, which is raised if `raised`. */
  ghost predicate GivesNaN(f: Format, fflags: Flags, r: nat, fl: Flags, raised: bool)
    requires f.Valid()
  {
    && IsWord(f, r) && IsNaN(f, r) && MantOf(f, r) >= Pow2(f.mant - 1)
    && fl == fflags.(invalid := fflags.invalid || raised)
  }

  /** An infinity of that sign, and no flag. */
  ghost predicate GivesInfinity(f: Format, fflags: Flags, r: nat, fl: Flags, sign: nat)
    requires f.Valid()
  {
    IsWord(f, r) && IsInf(f, r) && SignOf(f, r) == sign && fl == fflags
  }

  /** v correctly rounded with its flags; a zero has the given sign. */
  ghost predicate GivesRounded(f: Format, rm: RoundingMode, v: real, zeroSign: nat, fflags: Flags, r: nat, fl: Flags) {
    && IsWord(f, r) && Correct(f, rm, v, r) && CorrectFlags(f, rm, v, fflags, r, fl)
    && (v == 0.0 ==> IsZero(f, r) && SignOf(f, r) == zeroSign)
  }

  /** The NaN that operations deliver is quiet. */
  lemma QuietNaNIs(f: Format)
    requires f.Valid()
    ensures var r := QuietNaN(f);
            IsWord(f, r) && IsNaN(f, r) && MantOf(f, r) >= Pow2(f.mant - 1) && !IsSignalling(f, r)
  {
    hide Pow2, Shl, Shr, Low, Format.ExpMask;
    ExpMaskBelow(f);
    Pow2Next(f.mant - 1);
    PositivePow2(f.mant - 1);
    PackFields(f, 0, f.ExpMask(), Pow2(f.mant - 1));
    LowWhole(Pow2(f.mant - 1), f.mant);
  }

  lemma Rounds(f: Format, rm: RoundingMode, v: real, zeroSign: nat, fflags: Flags, r: nat, fl: Flags)
    requires f.Valid() && zeroSign <= 1 && RoundsTo(f, rm, v, zeroSign, fflags, r, fl)
    ensures GivesRounded(f, rm, v, zeroSign, fflags, r, fl)
  {
    hide Pow2, Shl, Shr, Low, Delivers, Raised, Correct, CorrectFlags, Format.ExpMask;
    RoundsCorrectly(f, rm, v, zeroSign, fflags, r, fl);
    PositivePow2(f.exp);
    PositivePow2(f.mant);
    PackFields(f, zeroSign, 0, 0);
    LowWhole(0, f.mant);
  }

  lemma FlagIs(fflags: Flags)
    ensures fflags.Or(INVALID) == fflags.(invalid := true) && fflags.Or(NO_FLAGS) == fflags
    ensures fflags.Or(DIVIDE_ZERO) == fflags.(divZero := true)
  {
  }

  /** Numbers are neither infinite nor NaN, and an infinity is no NaN. */
  lemma Classes(f: Format, a: nat)
    requires f.Valid() && IsWord(f, a)
    ensures IsFinite(f, a) <==> !IsNaN(f, a) && !IsInf(f, a)
    ensures !(IsNaN(f, a) && IsInf(f, a)) && SignOf(f, a) <= 1 && (IsZero(f, a) ==> IsFinite(f, a))
  {
    hide Pow2, Shl, Shr, Low;
    FieldsOf(f, a);
    ExpMaskIsOdd(f);
  }

  /** add_sf */
  lemma SumMeans(f: Format, a: nat, b: nat, rm: RoundingMode, fflags: Flags, r: nat, fl: Flags)
    requires f.Valid() && IsWord(f, a) && IsWord(f, b) && IsSum(f, a, b, rm, fflags, r, fl)
    ensures IsNaN(f, a) || IsNaN(f, b) ==> GivesNaN(f, fflags, r, fl, IsSignalling(f, a) || IsSignalling(f, b))
    ensures IsInf(f, a) && IsInf(f, b) && SignOf(f, a) != SignOf(f, b) ==> GivesNaN(f, fflags, r, fl, true)
    ensures IsInf(f, a) && IsInf(f, b) && SignOf(f, a) == SignOf(f, b) ==> GivesInfinity(f, fflags, r, fl, SignOf(f, a))
    ensures IsInf(f, a) && IsFinite(f, b) ==> GivesInfinity(f, fflags, r, fl, SignOf(f, a))
    ensures IsFinite(f, a) && IsInf(f, b) ==> GivesInfinity(f, fflags, r, fl, SignOf(f, b))
    ensures IsFinite(f, a) && IsFinite(f, b) ==>
              GivesRounded(f, rm, Value(f, a) + Value(f, b),
                           if SignOf(f, a) == SignOf(f, b) then SignOf(f, a) else if rm == RDN then 1 else 0,
                           fflags, r, fl)
  {
    hide IsNaN, IsInf, IsFinite, IsZero, IsWord, SignOf, MantOf, Value, RoundsTo, GivesRounded, QuietNaN, IsSignalling,
         Pow2, Flags.Or;
    Classes(f, a);
    Classes(f, b);
    QuietNaNIs(f);
    FlagIs(fflags);
    if IsFinite(f, a) && IsFinite(f, b) {
      Rounds(f, rm, Value(f, a) + Value(f, b), ZeroSumSign(f, a, b, rm), fflags, r, fl);
    }
  }

  /** sub_sf: the same of a and the number b negated */
  lemma DifferenceMeans(f: Format, a: nat, b: nat, rm: RoundingMode, fflags: Flags, r: nat, fl: Flags)
    requires f.Valid() && IsWord(f, a) && IsWord(f, b) && IsSum(f, a, Negated(f, b), rm, fflags, r, fl)
    requires IsFinite(f, a) && IsFinite(f, b)
    ensures GivesRounded(f, rm, Value(f, a) - Value(f, b),
                         if SignOf(f, a) != SignOf(f, b) then SignOf(f, a) else if rm == RDN then 1 else 0, fflags, r, fl)
  {
    hide IsSum, Negated, Value, GivesRounded, SignOf, Pow2, IsWord;
    NegatedValue(f, b);
    NegatedFields(f, b);
    Classes(f, a);
    Classes(f, b);
    NegatedFinite(f, b);
    SumMeans(f, a, Negated(f, b), rm, fflags, r, fl);
  }

  lemma NegatedFinite(f: Format, b: nat)
    requires f.Valid() && IsWord(f, b) && IsFinite(f, b)
    ensures IsWord(f, Negated(f, b)) && IsFinite(f, Negated(f, b))
  {
    hide Negated, Pow2, Shl, Shr, Low, MantOf, ExpOf;
    NegatedFields(f, b);
    NegatedValue(f, b);
  }

  /** mul_sf */
  lemma ProductMeans(f: Format, a: nat, b: nat, rm: RoundingMode, fflags: Flags, r: nat, fl: Flags)
    requires f.Valid() && IsWord(f, a) && IsWord(f, b) && IsProduct(f, a, b, rm, fflags, r, fl)
    ensures var sign := if SignOf(f, a) == SignOf(f, b) then 0 else 1;
            && (IsNaN(f, a) || IsNaN(f, b) ==> GivesNaN(f, fflags, r, fl, IsSignalling(f, a) || IsSignalling(f, b)))
            && ((IsInf(f, a) && IsZero(f, b)) || (IsZero(f, a) && IsInf(f, b)) ==> GivesNaN(f, fflags, r, fl, true))
            && (!IsNaN(f, a) && !IsNaN(f, b) && !IsZero(f, a) && !IsZero(f, b) && (IsInf(f, a) || IsInf(f, b)) ==>
                  GivesInfinity(f, fflags, r, fl, sign))
            && (IsFinite(f, a) && IsFinite(f, b) ==>
                  GivesRounded(f, rm, Value(f, a) * Value(f, b), sign, fflags, r, fl))
  {
    hide IsNaN, IsInf, IsFinite, IsZero, IsWord, SignOf, MantOf, Value, RoundsTo, GivesRounded, QuietNaN, IsSignalling,
         Pow2, Infinity, Flags.Or;
    Classes(f, a);
    Classes(f, b);
    QuietNaNIs(f);
    FlagIs(fflags);
    InfinityIs(f, SignXor(f, a, b));
    if IsFinite(f, a) && IsFinite(f, b) {
      ProductRounded(f, a, b, rm, fflags, r, fl);
    }
  }

  lemma ProductRounded(f: Format, a: nat, b: nat, rm: RoundingMode, fflags: Flags, r: nat, fl: Flags)
    requires f.Valid() && ProductRounds(f, a, b, rm, fflags, r, fl)
    ensures GivesRounded(f, rm, Value(f, a) * Value(f, b), SignXor(f, a, b), fflags, r, fl)
  {
    hide Pow2, Shl, Shr, Low, Value, RoundsTo, GivesRounded;
    Rounds(f, rm, ExactProduct(f, a, b), SignXor(f, a, b), fflags, r, fl);
    assert ExactProduct(f, a, b) == Value(f, a) * Value(f, b);
  }

  lemma ZeroIs(f: Format, sign: nat)
    requires f.Valid() && sign <= 1
    ensures var r := Pack(f, sign, 0, 0); IsWord(f, r) && IsZero(f, r) && SignOf(f, r) == sign
  {
    hide Pow2, Shl, Shr, Low;
    PositivePow2(f.exp);
    PositivePow2(f.mant);
    PackFields(f, sign, 0, 0);
    LowWhole(0, f.mant);
  }

  /** div_sf */
  lemma QuotientMeans(f: Format, a: nat, b: nat, rm: RoundingMode, fflags: Flags, r: nat, fl: Flags)
    requires f.Valid() && IsWord(f, a) && IsWord(f, b) && IsQuotient(f, a, b, rm, fflags, r, fl)
    ensures var sign := if SignOf(f, a) == SignOf(f, b) then 0 else 1;
            && (IsNaN(f, a) || IsNaN(f, b) ==> GivesNaN(f, fflags, r, fl, IsSignalling(f, a) || IsSignalling(f, b)))
            && ((IsInf(f, a) && IsInf(f, b)) || (IsZero(f, a) && IsZero(f, b)) ==> GivesNaN(f, fflags, r, fl, true))
            && (IsInf(f, a) && IsFinite(f, b) ==> GivesInfinity(f, fflags, r, fl, sign))
            && (IsFinite(f, a) && IsInf(f, b) ==>
                  IsWord(f, r) && IsZero(f, r) && SignOf(f, r) == sign && fl == fflags)
            && (IsFinite(f, a) && !IsZero(f, a) && IsZero(f, b) ==>
                  GivesInfinity(f, fl, r, fl, sign) && fl == fflags.(divZero := true))
            && (IsFinite(f, a) && IsFinite(f, b) && !IsZero(f, b) ==>
                  Value(f, b) != 0.0 && GivesRounded(f, rm, Value(f, a) / Value(f, b), sign, fflags, r, fl))
  {
    hide IsNaN, IsInf, IsFinite, IsZero, IsWord, SignOf, MantOf, Value, RoundsTo, GivesRounded, QuietNaN, IsSignalling,
         Pow2, Infinity, Pack, Flags.Or, RatioRounds;
    Classes(f, a);
    Classes(f, b);
    QuietNaNIs(f);
    FlagIs(fflags);
    InfinityIs(f, SignXor(f, a, b));
    ZeroIs(f, SignXor(f, a, b));
    if IsFinite(f, a) && IsFinite(f, b) && !IsZero(f, b) {
      QuotientRounded(f, a, b, rm, fflags, r, fl);
    }
  }

  lemma QuotientRounded(f: Format, a: nat, b: nat, rm: RoundingMode, fflags: Flags, r: nat, fl: Flags)
    requires f.Valid() && RatioRounds(f, a, b, rm, fflags, r, fl)
    ensures Value(f, b) != 0.0 && GivesRounded(f, rm, Value(f, a) / Value(f, b), SignXor(f, a, b), fflags, r, fl)
  {
    hide Pow2, Shl, Shr, Low, Value, RoundsTo, GivesRounded;
    Rounds(f, rm, Value(f, a) / Value(f, b), SignXor(f, a, b), fflags, r, fl);
  }

  /** sqrt_sf: x is the square root, where there is a real number that is */
  lemma RootMeans(f: Format, a: nat, rm: RoundingMode, fflags: Flags, r: nat, fl: Flags, x: real)
    requires f.Valid() && IsWord(f, a) && IsRoot(f, a, rm, fflags, r, fl)
    ensures IsNaN(f, a) ==> GivesNaN(f, fflags, r, fl, IsSignalling(f, a))
    ensures IsZero(f, a) ==> r == a && fl == fflags
    ensures !IsNaN(f, a) && !IsZero(f, a) && SignOf(f, a) == 1 ==> GivesNaN(f, fflags, r, fl, true)
    ensures IsInf(f, a) && SignOf(f, a) == 0 ==> r == a && fl == fflags
    ensures IsFinite(f, a) && !IsZero(f, a) && SignOf(f, a) == 0 && x > 0.0 && x * x == Value(f, a) ==>
              GivesRounded(f, rm, x, 0, fflags, r, fl)
  {
    hide IsNaN, IsInf, IsFinite, IsZero, IsWord, SignOf, MantOf, Value, RoundsTo, GivesRounded, QuietNaN, IsSignalling,
         Pow2, RootLike, Flags.Or;
    Classes(f, a);
    QuietNaNIs(f);
    FlagIs(fflags);
    if IsFinite(f, a) && !IsZero(f, a) && SignOf(f, a) == 0 && x > 0.0 && x * x == Value(f, a) {
      TrueRootIsRootLike(f, x, Value(f, a));
      Rounds(f, rm, x, 0, fflags, r, fl);
    }
  }

  /** fma_sf */
  lemma FusedMeans(f: Format, a: nat, b: nat, c: nat, rm: RoundingMode, fflags: Flags, r: nat, fl: Flags)
    requires f.Valid() && IsWord(f, a) && IsWord(f, b) && IsWord(f, c) && IsFused(f, a, b, c, rm, fflags, r, fl)
    ensures var sign := if SignOf(f, a) == SignOf(f, b) then 0 else 1;
            && (IsNaN(f, a) || IsNaN(f, b) || IsNaN(f, c) ==>
                  GivesNaN(f, fflags, r, fl, IsSignalling(f, a) || IsSignalling(f, b) || IsSignalling(f, c)))
            && (!IsNaN(f, c) && ((IsInf(f, a) && IsZero(f, b)) || (IsZero(f, a) && IsInf(f, b))) ==>
                  GivesNaN(f, fflags, r, fl, true))
            && (!IsNaN(f, a) && !IsNaN(f, b) && (IsInf(f, a) || IsInf(f, b)) && IsInf(f, c) && sign != SignOf(f, c) ==>
                  GivesNaN(f, fflags, r, fl, true))
            && (IsFinite(f, a) && IsFinite(f, b) && IsInf(f, c) ==> GivesInfinity(f, fflags, r, fl, SignOf(f, c)))
            && (!IsNaN(f, a) && !IsNaN(f, b) && !IsZero(f, a) && !IsZero(f, b) && (IsInf(f, a) || IsInf(f, b)) ==>
                  (IsFinite(f, c) || (IsInf(f, c) && SignOf(f, c) == sign) ==> GivesInfinity(f, fflags, r, fl, sign)))
            && (IsFinite(f, a) && IsFinite(f, b) && IsFinite(f, c) ==>
                  GivesRounded(f, rm, Value(f, a) * Value(f, b) + Value(f, c),
                               if sign == SignOf(f, c) then sign else if rm == RDN then 1 else 0, fflags, r, fl))
  {
    hide IsNaN, IsInf, IsFinite, IsZero, IsWord, SignOf, MantOf, Value, RoundsTo, GivesRounded, QuietNaN, IsSignalling,
         Pow2, Infinity, Flags.Or;
    Classes(f, a);
    Classes(f, b);
    Classes(f, c);
    QuietNaNIs(f);
    FlagIs(fflags);
    InfinityIs(f, SignXor(f, a, b));
    InfinityIs(f, SignOf(f, c));
    if IsFinite(f, a) && IsFinite(f, b) && IsFinite(f, c) {
      FusedRound(f, a, b, c, rm, fflags, r, fl);
    }
  }

  lemma FusedRound(f: Format, a: nat, b: nat, c: nat, rm: RoundingMode, fflags: Flags, r: nat, fl: Flags)
    requires f.Valid() && IsWord(f, a) && IsWord(f, b) && IsWord(f, c) && IsFused(f, a, b, c, rm, fflags, r, fl)
    requires IsFinite(f, a) && IsFinite(f, b) && IsFinite(f, c)
    ensures GivesRounded(f, rm, Value(f, a) * Value(f, b) + Value(f, c), ZeroFusedSign(f, a, b, c, rm), fflags, r, fl)
  {
    hide Pow2, Shl, Shr, Low, Value, RoundsTo, GivesRounded;
    Classes(f, a);
    Classes(f, b);
    Classes(f, c);
    var v := ExactFused(f, a, b, c);
    assert RoundsTo(f, rm, v, ZeroFusedSign(f, a, b, c, rm), fflags, r, fl);
    Rounds(f, rm, v, ZeroFusedSign(f, a, b, c, rm), fflags, r, fl);
    assert v == Value(f, a) * Value(f, b) + Value(f, c);
  }

  /* ---- conversions ---- */

  /** i is the integer v rounds to. */
  ghost predicate CorrectInt(rm: RoundingMode, v: real, i: int) {
    match rm
    case RUP => v <= i as real < v + 1.0
    case RDN => v - 1.0 < i as real <= v
    case RTZ => if v >= 0.0 then v - 1.0 < i as real <= v else v <= i as real < v + 1.0
    case RNE => v - 0.5 <= i as real <= v + 0.5 && (i as real == v - 0.5 || i as real == v + 0.5 ==> i % 2 == 0)
    case RMM => if v >= 0.0 then v - 0.5 < i as real <= v + 0.5 else v - 0.5 <= i as real < v + 0.5
  }

  /** The magnitude x and the sign are the value. */
  lemma RoundRealMeans(rm: RoundingMode, neg: bool, x: real)
    requires x >= 0.0
    ensures CorrectInt(rm, if neg then -x else x, if neg then -RoundReal(rm, neg, x) else RoundReal(rm, neg, x))
  {
    var n := x.Floor;
    assert n as real <= x < n as real + 1.0;
    assert (-n) as real == -(n as real) && (n + 1) as real == n as real + 1.0 && (-(n + 1)) as real == -(n as real) - 1.0;
  }

  lemma RoundedIntMeans(f: Format, rm: RoundingMode, a: nat)
    requires f.Valid() && IsWord(f, a)
    ensures CorrectInt(rm, Value(f, a), RoundedInt(f, rm, a))
  {
    hide Magnitude, SignOf, RoundReal, CorrectInt;
    ValueOf(f, a);
    RoundRealMeans(rm, SignOf(f, a) == 1, Magnitude(f, a));
  }

  /** cvt_sf_i: r is an n-bit word, read as a number without sign */
  lemma ToIntMeans(f: Format, n: nat, unsigned: bool, a: nat, rm: RoundingMode, fflags: Flags, r: int, fl: Flags)
    requires f.Valid() && IsWord(f, a) && n >= 1 && ConvertsToInt(f, n, unsigned, a, rm, fflags, r, fl)
    ensures var least, most := if unsigned then 0 else 0 - Pow2(n - 1), if unsigned then Pow2(n) - 1 else Pow2(n - 1) - 1;
            && (IsNaN(f, a) ==> r == most && fl == fflags.(invalid := true))
            && (!IsNaN(f, a) ==>
                  exists i: int ::
                    && (IsFinite(f, a) ==> CorrectInt(rm, Value(f, a), i))
                    && (if IsInf(f, a) || i < least || i > most then
                          && r == (if SignOf(f, a) == 0 then most else if unsigned then 0 else Pow2(n) - Pow2(n - 1))
                          && fl == fflags.(invalid := true)
                        else
                          && r == (if i < 0 then i + Pow2(n) else i)
                          && fl == fflags.(inexact := fflags.inexact || Value(f, a) != i as real)))
  {
    hide Value, Magnitude, RoundReal, SignOf, Pow2, IsNaN, IsInf, IsFinite, RoundedInt, CorrectInt, Flags.Or;
    Classes(f, a);
    FlagIs(fflags);
    RoundedIntMeans(f, rm, a);
    if !IsNaN(f, a) && !IsInf(f, a) {
      RoundedIntExact(f, rm, a, fflags);
      RangeSigns(f, n, unsigned, rm, a);
    }
    assert !IsNaN(f, a) && !IsInf(f, a) ==> CorrectInt(rm, Value(f, a), RoundedInt(f, rm, a));
  }

  /** cvt_sf_sf, to a narrower or a wider format */
  lemma ConversionMeans(f: Format, g: Format, a: nat, rm: RoundingMode, fflags: Flags, r: nat, fl: Flags)
    requires f.Valid() && g.Valid() && IsWord(f, a) && Converts(f, g, a, rm, fflags, r, fl)
    ensures IsNaN(f, a) ==> GivesNaN(g, fflags, r, fl, IsSignalling(f, a))
    ensures IsInf(f, a) ==> GivesInfinity(g, fflags, r, fl, SignOf(f, a))
    ensures IsFinite(f, a) ==> GivesRounded(g, rm, Value(f, a), SignOf(f, a), fflags, r, fl)
  {
    hide IsNaN, IsInf, IsFinite, IsZero, IsWord, SignOf, MantOf, Value, RoundsTo, GivesRounded, QuietNaN, IsSignalling,
         Pow2, Infinity, Flags.Or;
    Classes(f, a);
    QuietNaNIs(g);
    FlagIs(fflags);
    InfinityIs(g, SignOf(f, a));
    if IsFinite(f, a) {
      Rounds(g, rm, Value(f, a), SignOf(f, a), fflags, r, fl);
    }
  }

  lemma RoundedIntExact(f: Format, rm: RoundingMode, a: nat, fflags: Flags)
    requires f.Valid() && IsWord(f, a)
    ensures Magnitude(f, a) == RoundReal(rm, SignOf(f, a) == 1, Magnitude(f, a)) as real <==>
            Value(f, a) == RoundedInt(f, rm, a) as real
    ensures fflags.Or(INEXACT) == fflags.(inexact := true)
  {
    hide Magnitude, RoundReal, SignOf;
    ValueOf(f, a);
  }

  /** What lies past the range lies past its end on the operand's side. */
  lemma RangeSigns(f: Format, n: nat, unsigned: bool, rm: RoundingMode, a: nat)
    requires f.Valid() && IsWord(f, a) && n >= 1
    ensures SignOf(f, a) == 1 ==> RoundedInt(f, rm, a) <= MaxInt(n, unsigned)
    ensures SignOf(f, a) == 0 ==> RoundedInt(f, rm, a) >= MinInt(n, unsigned)
  {
    hide Magnitude, SignOf, Pow2;
    ValueOf(f, a);
    PositivePow2(n);
    PositivePow2(n - 1);
  }

  /* ---- the encoding ---- */

  lemma WordPowers()
    ensures Pow2(8) == 0x100 && Pow2(11) == 0x800 && Pow2(22) == 0x40_0000 && Pow2(23) == 0x80_0000
    ensures Pow2(31) == 0x8000_0000 && Pow2(51) == 0x8_0000_0000_0000 && Pow2(52) == 0x10_0000_0000_0000
    ensures Pow2(63) == 0x8000_0000_0000_0000
  {
    assert Pow2(8) == 0x100 && Pow2(11) == 0x800;
    Pow2Sum(11, 11);
    Pow2Next(22);
    Pow2Sum(8, 23);
    Pow2Sum(23, 8);
    Pow2Sum(31, 20);
    Pow2Sum(11, 9);
    assert Pow2(9) == 0x200;
    Pow2Next(51);
    Pow2Sum(52, 11);
  }

  lemma Pow2Sum(a: nat, b: nat)
    ensures Pow2(a + b) == Pow2(a) * Pow2(b)
  {
    hide Pow2, Shl;
    ShlPow2(a, b);
    ShlMul(Pow2(a), b);
  }

  /** The fields of a single, from the top bit down: sign, eight bits of exponent, 23 of mantissa. */
  lemma SingleFields(f: Format, a: nat, sign: nat, exp: nat, mant: nat)
    requires f.mant == 23 && f.exp == 8 && sign <= 1 && exp < 0x100 && mant < 0x80_0000
    requires a == sign * 0x8000_0000 + exp * 0x80_0000 + mant
    ensures IsWord(f, a) && SignOf(f, a) == sign && ExpOf(f, a) == exp && MantOf(f, a) == mant
    ensures a == Pack(f, sign, exp, mant) && f.Valid() && f.ExpMask() == 255 && f.Bias() == 127
  {
    hide Pow2, Shl, Shr, Low;
    WordPowers();
    ShlMul(sign, 31);
    ShlMul(exp, 23);
    PackFields(f, sign, exp, mant);
    LowWhole(mant, 23);
  }

  /** What a single is, by its fields. */
  lemma SingleMeans(f: Format, a: nat, sign: nat, exp: nat, mant: nat)
    requires f.mant == 23 && f.exp == 8 && sign <= 1 && exp < 0x100 && mant < 0x80_0000
    requires a == sign * 0x8000_0000 + exp * 0x80_0000 + mant
    ensures IsWord(f, a) && f.Valid() && (SignOf(f, a) == 1 <==> sign == 1)
    ensures IsNaN(f, a) <==> exp == 255 && mant != 0
    ensures IsSignalling(f, a) <==> exp == 255 && 0 < mant < 0x40_0000
    ensures IsInf(f, a) <==> exp == 255 && mant == 0
    ensures IsZero(f, a) <==> exp == 0 && mant == 0
    ensures IsFinite(f, a) <==> exp < 255
    ensures Value(f, a) == (if sign == 1 then -1.0 else 1.0)
                           * if exp == 0 then Scale(mant as real, -149) else Scale((0x80_0000 + mant) as real, exp - 150)
  {
    hide Pow2, Shl, Shr, Low, Scale, SignOf, ExpOf, MantOf, Pack, Format.ExpMask, Format.Bias;
    WordPowers();
    SingleFields(f, a, sign, exp, mant);
  }

  /** Some singles: one, minus three, and the least positive number. */
  lemma SingleValues(f: Format, a: nat)
    requires f.mant == 23 && f.exp == 8
    ensures a == 0x3f80_0000 ==> Value(f, a) == 1.0
    ensures a == 0xc040_0000 ==> Value(f, a) == -3.0
    ensures a == 0x0000_0001 ==> Value(f, a) == Power(-149)
  {
    hide Pow2, Shl, Shr, Low, Scale, SignOf, ExpOf, MantOf, Pack, Format.ExpMask, Format.Bias;
    WordPowers();
    if a == 0x3f80_0000 {
      SingleFields(f, a, 0, 127, 0);
      PowerInt(23);
      ScaleScale(1.0, 23, -23);
      ScaleZeroIs(1.0);
    } else if a == 0xc040_0000 {
      SingleFields(f, a, 1, 128, 0x40_0000);
      ThreeHalves();
    } else if a == 1 {
      SingleFields(f, a, 0, 0, 1);
    }
  }

  /** The largest single, an infinity, the NaN delivered, and one that signals. */
  lemma SpecialSingles(f: Format, a: nat)
    requires f.mant == 23 && f.exp == 8
    ensures f.Valid() && LargestFinite(f, 0) == 0x7f7f_ffff && Infinity(f, 1) == 0xff80_0000 && QuietNaN(f) == 0x7fc0_0000
    ensures a == 0x7f80_0001 ==> IsSignalling(f, a)
  {
    hide Pow2, Shl, Shr, Low, Pack, SignOf, ExpOf, MantOf, Format.Bias, Format.ExpMask;
    WordPowers();
    SingleFields(f, 0x7f7f_ffff, 0, 254, 0x7f_ffff);
    SingleFields(f, 0xff80_0000, 1, 255, 0);
    SingleFields(f, 0x7fc0_0000, 0, 255, 0x40_0000);
    SingleFields(f, 0x7f80_0001, 0, 255, 1);
  }

  /** 1.5 times two. */
  lemma ThreeHalves()
    ensures Scale(0xc0_0000 as real, -22) == 3.0
  {
    hide Scale;
    WordPowers();
    ScaleInt(3, 22);
    ShlMul(3, 22);
    ScaleScale(3.0, 22, -22);
    ScaleZeroIs(3.0);
  }

  /** The integer widths: the ends of 32-bit words. */
  lemma Words32()
    ensures MaxInt(32, false) == 0x7fff_ffff && MinInt(32, false) == -0x8000_0000
    ensures MaxInt(32, true) == 0xffff_ffff && MinInt(32, true) == 0 && WordOf(32, -1) == 0xffff_ffff
  {
    hide Pow2;
    WordPowers();
    Pow2Next(31);
  }
}
