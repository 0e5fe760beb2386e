/** mul_sf, div_sf and sqrt_sf. */
module Multiplicative {
  import opened Powers
  import opened Jamming
  import opened Rounding
  import opened SoftFormat
  import opened RoundPack
  import opened Normalize
  import opened Operands
  import opened WordArith

  /** a_sign ^ b_sign */
  function SignXor(f: Format, a: nat, b: nat): (s: nat)
    ensures s <= 1
  {
    if SignOf(f, a) == SignOf(f, b) then 0 else 1
  }

  /** What IEEE 754-2019 asks of a * b. */
  ghost predicate IsProduct(f: Format, a: nat, b: nat, rm: RoundingMode, fflags: Flags, r: nat, fl: Flags)
    requires f.Valid()
  {
    if IsNaN(f, a) || IsNaN(f, b) then
      && r == QuietNaN(f)
      && fl == fflags.Or(if IsSignalling(f, a) || IsSignalling(f, b) then INVALID else NO_FLAGS)
    else if (IsInf(f, a) && IsZero(f, b)) || (IsInf(f, b) && IsZero(f, a)) then
      r == QuietNaN(f) && fl == fflags.Or(INVALID)
    else if IsInf(f, a) || IsInf(f, b) then
      r == Infinity(f, SignXor(f, a, b)) && fl == fflags
    else
      ProductRounds(f, a, b, rm, fflags, r, fl)
  }

  ghost predicate ProductRounds(f: Format, a: nat, b: nat, rm: RoundingMode, fflags: Flags, r: nat, fl: Flags)
    requires f.Valid()
  {
    RoundsTo(f, rm, ExactProduct(f, a, b), SignXor(f, a, b), fflags, r, fl)
  }

  ghost function ExactProduct(f: Format, a: nat, b: nat): real {
    Value(f, a) * Value(f, b)
  }

  lemma SignedProduct(f: Format, a: nat, b: nat)
    requires f.Valid() && IsWord(f, a) && IsWord(f, b)
    ensures Value(f, a) * Value(f, b) == Signed(SignXor(f, a, b), Magnitude(f, a) * Magnitude(f, b))
  {
    hide Pow2, Shl, Shr, Low, Format.ExpMask, Format.Bias, Scale, Magnitude;
    FieldsOf(f, a);
    FieldsOf(f, b);
    NegateTimes(Magnitude(f, a), Magnitude(f, b));
  }

  lemma NegateTimes(x: real, y: real)
    ensures (-x) * y == 0.0 - x * y && x * (-y) == 0.0 - x * y && (-x) * (-y) == x * y
  {
  }

  lemma ScaledTimes(x: real, i: int, y: real, k: int)
    ensures Scale(x, i) * Scale(y, k) == Scale(x * y, i + k)
  {
    hide Scale;
    var z := Scale(y, k);
    ScaleProduct(x, z, i);
    ScaleProductRight(x, y, k);
    var p := x * z;
    assert Scale(p, i) == Scale(x, i) * z;
    var q := x * y;
    assert p == Scale(q, k);
    ScaleScale(q, k, i);
  }

  lemma TimesReal(x: int, y: int)
    ensures Times(x, y) as real == x as real * y as real
  {
  }

  lemma ScaledTimesInt(x: int, i: int, y: int, k: int)
    ensures Scale(x as real, i) * Scale(y as real, k) == Scale(Times(x, y) as real, i + k)
  {
    hide Scale;
    TimesReal(x, y);
    ScaledTimes(x as real, i, y as real, k);
  }

  /** The range of a product of mantissas. */
  lemma ProductRange(f: Format, ma: nat, mb: nat)
    requires f.Valid() && Pow2(f.mant) <= ma < Pow2(f.mant + 1) && Pow2(f.mant) <= mb < Pow2(f.mant + 1)
    ensures Pow2(2 * f.mant) <= Times(ma, mb) < Pow2(2 * f.mant + 2)
  {
    hide Pow2;
    TimesBound(ma, mb, f.mant + 1, f.mant + 1);
    SquareOfPow2(f.mant);
    TimesMono(Pow2(f.mant), ma, Pow2(f.mant), mb);
  }

  lemma TimesMono(u: nat, x: nat, v: nat, y: nat)
    requires u <= x && v <= y
    ensures Times(u, v) <= Times(x, y)
  {
    ProductMono(u, x, v);
    ProductMono(v, y, x);
  }

  /** The double word mul_sf jams into one. */
  lemma ProductIsRoundable(f: Format, ma: nat, mb: nat, high: nat, low: nat)
    requires f.Valid() && Pow2(f.mant) <= ma < Pow2(f.mant + 1) && Pow2(f.mant) <= mb < Pow2(f.mant + 1)
    requires Shl(high, f.Size()) + low == Times(Shl(ma, f.Rnd()), Shl(mb, f.Rnd() + 1)) && low < Pow2(f.Size())
    ensures var y := Scale(Times(ma, mb) as real, 2 * f.Rnd() + 1 - f.Size());
            OrBit(high, low != 0) < Pow2(f.Size() - 1) && Roundable(f, OrBit(high, low != 0), y, 1) && y > 0.0
  {
    hide Pow2, Shl, Shr, Low, Times, Scale, Jams;
    var p, size, k := Times(ma, mb), f.Size(), 2 * f.Rnd() + 1;
    var t := Shl(p, k);
    TimesShl(ma, Shl(mb, f.Rnd() + 1), f.Rnd());
    TimesShl(ma, mb, f.Rnd() + 1);
    ShlShl(p, f.Rnd() + 1, f.Rnd());
    TwoFields(high, low, size);
    ProductRange(f, ma, mb);
    ShlPow2(2 * f.mant, k);
    ShlPow2(2 * f.mant + 2, k);
    ShlOrder(Pow2(2 * f.mant), p, k);
    ShlOrder(p, Pow2(2 * f.mant + 2), k);
    Pow2Mono(f.mant + 2, size - 3);
    JammedRange(t, size, size - 3, size - 1);
    JamExact(t, 0);
    JamRight(t as real, t, 0, size, 1);
    ScaleInt(p, k);
    ScaleScale(p as real, k, -(size as int));
    Pow2AtLeast(2 * f.mant);
    ScalePositive(p as real, k - size);
  }

  lemma JammedRange(t: nat, d: nat, lo: nat, hi: nat)
    requires Pow2(lo + d) <= t < Pow2(hi + d) && hi >= 1
    ensures Pow2(lo) <= ShiftJam(t, d) < Pow2(hi)
  {
    hide Pow2, Shl, Shr, Low;
    ShlPow2(lo, d);
    ShrOrder(t, d, Pow2(lo));
    ShiftJamBound(t, d, hi);
  }

  /** mul_sf on finite nonzero operands */
  method MulNonzero(f: Format, a: nat, b: nat, rm: RoundingMode, fflags: Flags) returns (r: nat, fl: Flags)
    requires f.Valid() && IsWord(f, a) && IsWord(f, b) && IsFinite(f, a) && IsFinite(f, b)
    requires !IsZero(f, a) && !IsZero(f, b)
    ensures RoundsTo(f, rm, Value(f, a) * Value(f, b), SignXor(f, a, b), fflags, r, fl)
  {
    hide Pow2, Shl, Shr, Low, Times, Scale, Jams, Rounded, Roundable, RoundsTo, IsZero, IsFinite, Magnitude, Value,
         Format.ExpMask;
    var aExp, aMant := UnpackNonzero(f, a, ExpOf(f, a), MantOf(f, a));
    var bExp, bMant := UnpackNonzero(f, b, ExpOf(f, b), MantOf(f, b));
    var rExp := aExp + bExp - Pow2(f.exp - 1) + 2;
    GuardedWord(f, aMant, f.Rnd());
    GuardedWord(f, bMant, f.Rnd() + 1);
    var high, low := MulU(f.Size() / 2, Shl(aMant, f.Rnd()), Shl(bMant, f.Rnd() + 1));
    ProductIsRoundable(f, aMant, bMant, high, low);
    var mant := OrBit(high, low != 0);
    ghost var y := Scale(Times(aMant, bMant) as real, 2 * f.Rnd() + 1 - f.Size());
    r, fl := NormalizeSf(f, SignXor(f, a, b), rExp, mant, rm, fflags);
    ProductExponent(f, a, b, aExp, aMant, bExp, bMant);
    SignedProduct(f, a, b);
    RoundedValue(f, rm, SignXor(f, a, b), rExp, y, Value(f, a) * Value(f, b), fflags, r, fl);
  }

  lemma BiasIs(f: Format)
    requires f.Valid()
    ensures Pow2(f.exp - 1) == f.Bias() + 1
  {
    Pow2Next(f.exp - 1);
  }

  /** The exponent mul_sf computes places the exact product. */
  lemma ProductExponent(f: Format, a: nat, b: nat, ea: int, ma: nat, eb: int, mb: nat)
    requires f.Valid() && Unpacked(f, a, ea, ma) && Unpacked(f, b, eb, mb)
    ensures Exactly(f, ea + eb - Pow2(f.exp - 1) + 2, Scale(Times(ma, mb) as real, 2 * f.Rnd() + 1 - f.Size()))
            == Magnitude(f, a) * Magnitude(f, b)
  {
    hide Pow2, Times, Scale, Magnitude, Format.Bias;
    BiasIs(f);
    ScaledTimesInt(ma, ea - f.Bias() - f.mant, mb, eb - f.Bias() - f.mant);
    ScaleScale(Times(ma, mb) as real, 2 * f.Rnd() + 1 - f.Size(), ea + eb - (f.Bias() + 1) + 2 - f.Bias() - Top(f));
  }

  /** mul_sf */
  method MulSf(f: Format, a: nat, b: nat, rm: RoundingMode, fflags: Flags) returns (r: nat, fl: Flags)
    requires f.Valid() && IsWord(f, a) && IsWord(f, b)
    ensures IsProduct(f, a, b, rm, fflags, r, fl)
  {
    hide Pow2, Shl, Shr, Low, Format.ExpMask, RoundsTo, Pack, Value, IsSignalling;
    var sign := SignXor(f, a, b);
    if ExpOf(f, a) == f.ExpMask() || ExpOf(f, b) == f.ExpMask() {
      ExpMaskIsOdd(f);
      if IsNaN(f, a) || IsNaN(f, b) {
        fl := if IssignanSf(f, a) || IssignanSf(f, b) then fflags.Or(INVALID) else fflags;
        return QuietNaN(f), fl;
      } else if (ExpOf(f, a) == f.ExpMask() && ExpOf(f, b) == 0 && MantOf(f, b) == 0)
                || (ExpOf(f, b) == f.ExpMask() && ExpOf(f, a) == 0 && MantOf(f, a) == 0) {
        return QuietNaN(f), fflags.Or(INVALID);
      } else {
        return Pack(f, sign, f.ExpMask(), 0), fflags;
      }
    }
    if (ExpOf(f, a) == 0 && MantOf(f, a) == 0) || (ExpOf(f, b) == 0 && MantOf(f, b) == 0) {
      ZeroProduct(f, a, b, rm, fflags);
      return Pack(f, sign, 0, 0), fflags;
    }
    r, fl := MulNonzero(f, a, b, rm, fflags);
  }

  lemma ZeroProduct(f: Format, a: nat, b: nat, rm: RoundingMode, fflags: Flags)
    requires f.Valid() && (IsZero(f, a) || IsZero(f, b))
    ensures RoundsTo(f, rm, Value(f, a) * Value(f, b), SignXor(f, a, b), fflags, Pack(f, SignXor(f, a, b), 0, 0), fflags)
  {
    hide Pow2, Shl, Shr, Low, Format.ExpMask, Pack, Value, Delivers, Raised;
    if IsZero(f, a) {
      ZeroMagnitude(f, a);
    } else {
      ZeroMagnitude(f, b);
    }
  }

  /** What IEEE 754-2019 asks of a / b. */
  ghost predicate IsQuotient(f: Format, a: nat, b: nat, rm: RoundingMode, fflags: Flags, r: nat, fl: Flags)
    requires f.Valid()
  {
    if IsNaN(f, a) || IsNaN(f, b) then
      && r == QuietNaN(f)
      && fl == fflags.Or(if IsSignalling(f, a) || IsSignalling(f, b) then INVALID else NO_FLAGS)
    else if (IsInf(f, a) && IsInf(f, b)) || (IsZero(f, a) && IsZero(f, b)) then
      r == QuietNaN(f) && fl == fflags.Or(INVALID)
    else if IsInf(f, a) then
      r == Infinity(f, SignXor(f, a, b)) && fl == fflags
    else if IsInf(f, b) then
      r == Pack(f, SignXor(f, a, b), 0, 0) && fl == fflags
    else if IsZero(f, b) then
      r == Infinity(f, SignXor(f, a, b)) && fl == fflags.Or(DIVIDE_ZERO)
    else
      RatioRounds(f, a, b, rm, fflags, r, fl)
  }

  ghost predicate RatioRounds(f: Format, a: nat, b: nat, rm: RoundingMode, fflags: Flags, r: nat, fl: Flags)
    requires f.Valid()
  {
    Value(f, b) != 0.0 && RoundsTo(f, rm, Value(f, a) / Value(f, b), SignXor(f, a, b), fflags, r, fl)
  }

  /** The bounds on a quotient of mantissas scaled by 2^(F_SIZE - 2), from an exact division. */
  lemma QuotientIsRoundable(f: Format, ma: nat, mb: nat, q: nat, rem: nat)
    requires f.Valid() && Pow2(f.mant) <= ma < Pow2(f.mant + 1) && Pow2(f.mant) <= mb < Pow2(f.mant + 1)
    requires Shl(ma, f.Size()) == Times(q, Shl(mb, 2)) + rem && rem < Shl(mb, 2)
    ensures var y := Shl(ma, f.Size()) as real / Shl(mb, 2) as real;
            OrBit(q, rem != 0) < Pow2(f.Size() - 1) && Roundable(f, OrBit(q, rem != 0), y, 1) && y > 0.0
  {
    hide Pow2, Shl, Times, Scale, Jams;
    var a, b := Shl(ma, f.Size()), Shl(mb, 2);
    QuotientRange(f, ma, mb, q, rem);
    FloorOfQuotient(a, b, q, rem);
    FloorJam(a as real / b as real, q, rem != 0);
    Pow2Mono(f.mant + 2, f.Size() - 3);
    EvenBound(q, f.Size() - 1);
    PositiveQuotient(a as real, b as real);
  }

  lemma EvenBound(q: nat, n: nat)
    requires q < Pow2(n) && n >= 1
    ensures OrBit(q, true) < Pow2(n)
  {
    hide Pow2;
    Pow2Next(n - 1);
  }

  lemma PositiveQuotient(x: real, y: real)
    requires x > 0.0 && y > 0.0
    ensures x / y > 0.0
  {
  }

  lemma FloorOfQuotient(a: nat, b: nat, q: nat, rem: nat)
    requires a == Times(q, b) + rem && rem < b
    ensures q as real <= a as real / b as real < q as real + 1.0
    ensures a as real / b as real == q as real <==> rem == 0
  {
    var x, y, z := a as real, b as real, q as real;
    TimesReal(q, b);
    assert x == z * y + rem as real;
    assert x / y == z + rem as real / y;
    SmallQuotient(rem as real, y);
  }

  lemma SmallQuotient(x: real, y: real)
    requires 0.0 <= x < y
    ensures 0.0 <= x / y < 1.0 && (x / y == 0.0 <==> x == 0.0)
  {
    var w := x / y;
    assert w * y == x;
    assert (1.0 - w) * y == y - x;
    SignOfFactor(w, y);
    SignOfFactor(1.0 - w, y);
  }

  lemma SignOfFactor(u: real, y: real)
    requires y > 0.0
    ensures u > 0.0 <==> u * y > 0.0
    ensures u == 0.0 <==> u * y == 0.0
  {
  }

  lemma QuotientRange(f: Format, ma: nat, mb: nat, q: nat, rem: nat)
    requires f.Valid() && Pow2(f.mant) <= ma < Pow2(f.mant + 1) && Pow2(f.mant) <= mb < Pow2(f.mant + 1)
    requires Shl(ma, f.Size()) == Times(q, Shl(mb, 2)) + rem && rem < Shl(mb, 2)
    ensures Pow2(f.Size() - 3) <= q < Pow2(f.Size() - 1)
    ensures ma > 0 && mb > 0 && Shl(ma, f.Size()) > 0 && Shl(mb, 2) > 0
  {
    hide Pow2, Shl, Times, Scale;
    var size := f.Size();
    Pow2Next(f.mant);
    Pow2AtLeast(f.mant);
    ShlOne(size);
    ShlOne(2);
    ShlOrder(0, ma, size);
    ShlOrder(0, mb, 2);
    TimesShl(Pow2(size - 1), mb, 2);
    ShlShl(mb, 2, size - 1);
    PowTimes(size - 1, mb);
    PowTimes(size - 3, mb);
    TimesShl(Pow2(size - 3), mb, 2);
    ShlShl(mb, size - 1, 2);
    ShlShl(mb, size - 3, 2);
    ShlShl(mb, 1, size);
    DoubleIs(mb);
    ShlOrder(ma, 2 * mb, size);
    ShlNext(ma, size - 1);
    ShlOrder(mb, 2 * ma, size - 1);
    DoubleShl(ma, size - 1);
    if q >= Pow2(size - 1) {
      TimesMono(Pow2(size - 1), q, Shl(mb, 2), Shl(mb, 2));
    }
    if q < Pow2(size - 3) {
      TimesMono(q + 1, Pow2(size - 3), Shl(mb, 2), Shl(mb, 2));
      TimesSum(q, 1, Shl(mb, 2));
      OneTimes(Shl(mb, 2));
    }
  }

  lemma OneTimes(x: int)
    ensures Times(1, x) == x
  {
  }

  lemma PowTimes(n: nat, b: int)
    ensures Times(Pow2(n), b) == Shl(b, n)
  {
    ShlOne(n);
    TimesShl(1, b, n);
    OneTimes(b);
  }

  lemma ScaleRatio(x: real, i: int, y: real, k: int)
    requires y > 0.0
    ensures Scale(y, k) > 0.0 && Scale(x, i) / Scale(y, k) == Scale(x / y, i - k)
  {
    hide Scale;
    ScalePositive(y, k);
    var z := x / y;
    ScaledTimes(z, i - k, y, k);
    assert z * y == x;
    DivideOut(Scale(x, i), Scale(z, i - k), Scale(y, k));
  }

  lemma DivideOut(p: real, q: real, s: real)
    requires s > 0.0 && q * s == p
    ensures p / s == q
  {
  }

  lemma QuotientExponent(f: Format, a: nat, b: nat, ea: int, ma: nat, eb: int, mb: nat)
    requires f.Valid() && Unpacked(f, a, ea, ma) && Unpacked(f, b, eb, mb)
    ensures Shl(mb, 2) > 0
    ensures Exactly(f, ea - eb + Pow2(f.exp - 1) - 1, Shl(ma, f.Size()) as real / Shl(mb, 2) as real)
            == Magnitude(f, a) / Magnitude(f, b)
  {
    hide Pow2, Shl, Scale, Magnitude, Format.Bias;
    BiasIs(f);
    Pow2AtLeast(f.mant);
    ShlOrder(0, mb, 2);
    ShlOne(2);
    ScaleInt(ma, f.Size());
    ScaleInt(mb, 2);
    ScaleRatio(ma as real, f.Size(), mb as real, 2);
    ScaleRatio(ma as real, ea - f.Bias() - f.mant, mb as real, eb - f.Bias() - f.mant);
    ScaleScale(ma as real / mb as real, f.Size() - 2, ea - eb + f.Bias() - f.Bias() - Top(f));
  }

  lemma SignedQuotient(f: Format, a: nat, b: nat)
    requires f.Valid() && IsWord(f, a) && IsWord(f, b) && Magnitude(f, b) > 0.0
    ensures Value(f, b) != 0.0
    ensures Value(f, a) / Value(f, b) == Signed(SignXor(f, a, b), Magnitude(f, a) / Magnitude(f, b))
  {
    hide Pow2, Shl, Shr, Low, Format.ExpMask, Format.Bias, Scale, Magnitude;
    FieldsOf(f, a);
    FieldsOf(f, b);
    NegateRatio(Magnitude(f, a), Magnitude(f, b));
  }

  lemma NegateRatio(x: real, y: real)
    requires y > 0.0
    ensures (-x) / y == 0.0 - x / y && x / (-y) == 0.0 - x / y && (-x) / (-y) == x / y
  {
    var z := x / y;
    assert z * y == x;
    DivideOut(-x, 0.0 - z, y);
    assert (0.0 - z) * (-y) == x;
    assert z * (-y) == -x;
  }

  /** div_sf on finite nonzero operands */
  method DivNonzero(f: Format, a: nat, b: nat, rm: RoundingMode, fflags: Flags) returns (r: nat, fl: Flags)
    requires f.Valid() && IsWord(f, a) && IsWord(f, b) && IsFinite(f, a) && IsFinite(f, b)
    requires !IsZero(f, a) && !IsZero(f, b)
    ensures RatioRounds(f, a, b, rm, fflags, r, fl)
  {
    hide Pow2, Shl, Shr, Low, Times, Scale, Jams, Rounded, Roundable, RoundsTo, IsZero, IsFinite, Magnitude, Value,
         Format.ExpMask, Format.Bias;
    var bExp, bMant := UnpackNonzero(f, b, ExpOf(f, b), MantOf(f, b));
    var aExp, aMant := UnpackNonzero(f, a, ExpOf(f, a), MantOf(f, a));
    var rExp := aExp - bExp + Pow2(f.exp - 1) - 1;
    GuardedWord(f, bMant, 2);
    DivisorAbove(f, aMant, bMant);
    var q, rem := DivremU(f.Size(), aMant, 0, Shl(bMant, 2));
    QuotientIsRoundable(f, aMant, bMant, q, rem);
    var mant := OrBit(q, rem != 0);
    QuotientExponent(f, a, b, aExp, aMant, bExp, bMant);
    ghost var y := Shl(aMant, f.Size()) as real / Shl(bMant, 2) as real;
    r, fl := NormalizeSf(f, SignXor(f, a, b), rExp, mant, rm, fflags);
    SignedQuotient(f, a, b);
    RoundedValue(f, rm, SignXor(f, a, b), rExp, y, Value(f, a) / Value(f, b), fflags, r, fl);
  }

  /** The divisor div_sf passes is above the dividend's high word, as divrem_u demands. */
  lemma DivisorAbove(f: Format, ma: nat, mb: nat)
    requires f.Valid() && ma < Pow2(f.mant + 1) && Pow2(f.mant) <= mb
    ensures ma < Shl(mb, 2)
  {
    Pow2Next(f.mant);
    assert Shl(mb, 2) == 2 * Shl(mb, 1);
  }

  lemma NoNewFlags(fflags: Flags)
    ensures fflags.Or(NO_FLAGS) == fflags
  {
  }

  /** div_sf when an operand is infinite or not a number */
  method DivSpecial(f: Format, a: nat, b: nat, rm: RoundingMode, fflags: Flags) returns (r: nat, fl: Flags)
    requires f.Valid() && IsWord(f, a) && IsWord(f, b) && (!IsFinite(f, a) || !IsFinite(f, b))
    ensures IsQuotient(f, a, b, rm, fflags, r, fl)
  {
    hide Pow2, Shl, Shr, Low, Format.ExpMask, RatioRounds, Pack, IsSignalling, QuietNaN, SignXor, ExpOf, MantOf, Flags.Or;
    ExpMaskIsOdd(f);
    NoNewFlags(fflags);
    var sign := SignXor(f, a, b);
    if ExpOf(f, a) == f.ExpMask() {
      if MantOf(f, a) != 0 || IsNaN(f, b) {
        fl := if IssignanSf(f, a) || IssignanSf(f, b) then fflags.Or(INVALID) else fflags;
        return QuietNaN(f), fl;
      } else if ExpOf(f, b) == f.ExpMask() {
        return QuietNaN(f), fflags.Or(INVALID);
      } else {
        return Pack(f, sign, f.ExpMask(), 0), fflags;
      }
    } else if MantOf(f, b) != 0 {
      fl := if IssignanSf(f, a) || IssignanSf(f, b) then fflags.Or(INVALID) else fflags;
      return QuietNaN(f), fl;
    } else {
      return Pack(f, sign, 0, 0), fflags;
    }
  }

  /** div_sf */
  method DivSf(f: Format, a: nat, b: nat, rm: RoundingMode, fflags: Flags) returns (r: nat, fl: Flags)
    requires f.Valid() && IsWord(f, a) && IsWord(f, b)
    ensures IsQuotient(f, a, b, rm, fflags, r, fl)
  {
    hide Pow2, Shl, Shr, Low, Format.ExpMask, RatioRounds, Pack, IsSignalling, QuietNaN, SignXor, ExpOf, MantOf;
    ExpMaskIsOdd(f);
    var sign := SignXor(f, a, b);
    if !IsFinite(f, a) || !IsFinite(f, b) {
      r, fl := DivSpecial(f, a, b, rm, fflags);
    } else if IsZero(f, b) {
      if IsZero(f, a) {
        return QuietNaN(f), fflags.Or(INVALID);
      } else {
        return Pack(f, sign, f.ExpMask(), 0), fflags.Or(DIVIDE_ZERO);
      }
    } else if IsZero(f, a) {
      ZeroQuotient(f, a, b, rm, fflags);
      return Pack(f, sign, 0, 0), fflags;
    } else {
      r, fl := DivNonzero(f, a, b, rm, fflags);
    }
  }

  lemma ZeroQuotient(f: Format, a: nat, b: nat, rm: RoundingMode, fflags: Flags)
    requires f.Valid() && IsWord(f, b) && IsZero(f, a) && IsFinite(f, b) && !IsZero(f, b)
    ensures RatioRounds(f, a, b, rm, fflags, Pack(f, SignXor(f, a, b), 0, 0), fflags)
  {
    hide Pow2, Shl, Shr, Low, Format.ExpMask, Pack, Delivers, Raised, Scale;
    ZeroMagnitude(f, a);
    NonzeroMagnitude(f, b);
  }
}
