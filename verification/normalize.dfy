/** normalize_sf and normalize2_sf: left-align a mantissa of one or two words, then round. */
module Normalize {
  import opened Powers
  import opened Jamming
  import opened Rounding
  import opened SoftFormat
  import opened RoundPack

  /** Either the mantissa is exact, or its jam is far enough below the rounding position. */
  ghost predicate Roundable(f: Format, mant: nat, y: real, g: nat)
    requires f.Valid()
  {
    y == mant as real || (Jams(y, mant, g) && mant >= Pow2(f.mant + 1 + g))
  }

  /** Left-aligning puts the top bit at F_SIZE - 2. */
  lemma AlignedRange(f: Format, mant: nat)
    requires f.Valid() && mant < Pow2(f.Size() - 1)
    ensures BitLen(mant) <= f.Size() - 1
    ensures var j := Shl(mant, f.Size() - 1 - BitLen(mant));
            if mant == 0 then j == 0 else Pow2(Top(f)) <= j < Pow2(Top(f) + 1)
  {
    hide Pow2, Shl, BitLen;
    BitLenBound(mant, f.Size() - 1);
    BitLenRange(mant);
    ShlOne(f.Size() - 1 - BitLen(mant));
    if mant > 0 {
      ShlRange(mant, BitLen(mant), f.Size() - 1 - BitLen(mant));
    }
  }

  lemma AlignedJam(f: Format, mant: nat, y: real, g: nat, s: nat) returns (h: nat)
    requires f.Valid() && mant > 0 && s == f.Size() - 1 - BitLen(mant) && Roundable(f, mant, y, g)
    ensures Jams(Scale(y, s), Shl(mant, s), h) && h <= f.Rnd() - 1
  {
    hide Pow2, Shl, Jams, Scale;
    h := 0;
    if y == mant as real {
      ScaleInt(mant, s);
      JamExact(Shl(mant, s), 0);
    } else {
      BitLenBound(mant, f.mant + 1 + g);
      JamLeft(y, mant, g, s);
      h := g + s;
    }
  }

  /** Left-aligning a mantissa keeps its exact value and leaves it fit to round. */
  lemma Aligned(f: Format, exp: int, mant: nat, y: real, g: nat) returns (h: nat)
    requires f.Valid() && mant < Pow2(f.Size() - 1) && Roundable(f, mant, y, g)
    ensures var s := f.Size() - 1 - BitLen(mant);
            && s >= 0
            && Internal(f, Shl(mant, s), Scale(y, s), h)
            && Exactly(f, exp - s, Scale(y, s)) == Exactly(f, exp, y)
            && (y == 0.0 <==> Scale(y, s) == 0.0)
  {
    hide Pow2, Shl, Jams, Scale, Format.ExpMask, Format.Bias, Top;
    BitLenBound(mant, f.Size() - 1);
    var s := f.Size() - 1 - BitLen(mant);
    ScaleScale(y, s, exp - s - f.Bias() - Top(f));
    ScaleOrder(y, 0.0, s);
    ScaleZero(s);
    ShlOrder(0, mant, s);
    ShlOne(s);
    h := 0;
    if mant > 0 {
      AlignedRange(f, mant);
      h := AlignedJam(f, mant, y, g, s);
    } else {
      Pow2AtLeast(f.mant + 1 + g);
    }
  }

  lemma Pow2AtLeast(n: nat)
    ensures Pow2(n) >= 1
  {
  }

  /** normalize_sf */
  method NormalizeSf(f: Format, aSign: nat, aExp: int, aMant: nat, rm: RoundingMode, fflags: Flags)
    returns (r: nat, fl: Flags)
    requires f.Valid() && aSign <= 1 && aMant < Pow2(f.Size() - 1)
    ensures forall y: real, g: nat :: Roundable(f, aMant, y, g) ==> Rounded(f, rm, aSign, aExp, y, fflags, r, fl)
  {
    hide Roundable, Internal, Exactly, Delivers, Raised, Pow2, Shl;
    AlignedRange(f, aMant);
    var clz := f.Size() - BitLen(aMant);
    var shift := clz - 1;
    r, fl := RoundPackSf(f, aSign, aExp - shift, Shl(aMant, shift), rm, fflags);
    forall y: real, g: nat | Roundable(f, aMant, y, g)
      ensures Rounded(f, rm, aSign, aExp, y, fflags, r, fl)
    {
      var h := Aligned(f, aExp, aMant, y, g);
    }
  }

  /** The two words of a double word shifted left by less than a word. */
  lemma DoubleShift(m1: nat, m0: nat, s: nat, size: nat)
    requires s < size && m0 < Pow2(size)
    ensures var t := Shl(Shl(m1, size) + m0, s);
            && Shr(t, size) == Shl(m1, s) + Shr(m0, size - s) && Low(t, size) == Low(Shl(m0, s), size)
  {
    hide Pow2, Shl, Shr, Low;
    var hi, lo := Shr(m0, size - s), Low(m0, size - s);
    Split(m0, size - s);
    ShlAdd(Shl(m1, size), m0, s);
    ShlShl(m1, size, s);
    ShlShl(m1, s, size);
    ShlAdd(Shl(hi, size - s), lo, s);
    ShlShl(hi, size - s, s);
    ShlAdd(Shl(m1, s), hi, size);
    ShlOrder(0, lo, s);
    ShlOrder(lo, Pow2(size - s), s);
    ShlPow2(size - s, s);
    ShlOrder(0, m1, s);
    ShlOne(s);
    TwoFields(hi, Shl(lo, s), size);
    TwoFields(Shl(m1, s) + hi, Shl(lo, s), size);
  }

  /** How far a double word below 2^(2 F_SIZE - 1) moves left, and what its high word then is. */
  function Slack(f: Format, t: nat): int {
    2 * f.Size() - 1 - BitLen(t)
  }

  function HighAligned(f: Format, t: nat): nat
    requires BitLen(t) <= 2 * f.Size() - 1
  {
    var s := Slack(f, t);
    if s < f.Size() then ShiftJam(Shl(t, s), f.Size()) else Shl(t, s - f.Size())
  }

  lemma HighAlignedRange(f: Format, t: nat)
    requires f.Valid() && t < Pow2(2 * f.Size() - 1)
    ensures BitLen(t) <= 2 * f.Size() - 1
    ensures if t == 0 then HighAligned(f, t) == 0 else Pow2(Top(f)) <= HighAligned(f, t) < Pow2(Top(f) + 1)
  {
    hide Pow2, Shl, Shr, Low, BitLen;
    BitLenBound(t, 2 * f.Size() - 1);
    BitLenRange(t);
    BitLenZero(t);
    var s: nat, size := Slack(f, t), f.Size();
    if t == 0 {
      ShlOne(s - size);
    } else if s < size {
      ShlRange(t, BitLen(t), s);
      ShiftJamRange(Shl(t, s), size, Top(f));
    } else {
      ShlRange(t, BitLen(t), s - size);
    }
  }

  lemma ShiftJamRange(t: nat, d: nat, k: nat)
    requires Pow2(k + d) <= t < Pow2(k + d + 1)
    ensures Pow2(k) <= ShiftJam(t, d) < Pow2(k + 1)
  {
    hide Pow2, Shl, Shr, Low;
    ShlPow2(k, d);
    ShrOrder(t, d, Pow2(k));
    ShiftJamBound(t, d, k + 1);
  }

  /** A jam shifted left by s and then right by d. */
  lemma JamLeftRight(y: real, j: nat, g: nat, s: nat, d: nat, h: nat)
    requires Jams(y, j, g) && h >= 1 && g + s <= h + d
    ensures Jams(Scale(y, s - d), ShiftJam(Shl(j, s), d), h)
  {
    ShlOrder(0, j, s);
    ShlOne(s);
    JamLeft(y, j, g, s);
    JamRight(Scale(y, s), Shl(j, s), g + s, d, h);
    ScaleScale(y, s, 0 - d);
  }

  lemma HighAlignedJam(f: Format, t: nat, y: real, g: nat) returns (h: nat)
    requires f.Valid() && 0 < t && BitLen(t) <= 2 * f.Size() - 1 && Roundable(f, t, y, g)
    ensures Jams(Scale(y, Slack(f, t) - f.Size()), HighAligned(f, t), h) && h <= f.Rnd() - 1
  {
    hide Pow2, Shl, Shr, Low, Jams, Scale, ShiftJam, BitLen;
    var s: nat, size := Slack(f, t), f.Size();
    if y != t as real {
      BitLenBound(t, f.mant + 1 + g);
      if s < size {
        h := f.Rnd() - 1;
        JamLeftRight(y, t, g, s, size, h);
      } else {
        h := g + s - size;
        JamLeft(y, t, g, s - size);
      }
    } else if s < size {
      h := 1;
      JamExact(t, 0);
      JamLeftRight(y, t, 0, s, size, h);
    } else {
      h := 0;
      ScaleInt(t, s - size);
      JamExact(Shl(t, s - size), 0);
    }
  }

  /** Left-aligning a double word keeps its exact value, counted in units of its high word, fit to round. */
  lemma Aligned2(f: Format, exp: int, t: nat, y: real, g: nat) returns (h: nat)
    requires f.Valid() && t < Pow2(2 * f.Size() - 1) && Roundable(f, t, y, g)
    ensures BitLen(t) <= 2 * f.Size() - 1
    ensures var s := Slack(f, t);
            && Internal(f, HighAligned(f, t), Scale(y, s - f.Size()), h)
            && Exactly(f, exp - s, Scale(y, s - f.Size())) == Exactly(f, exp, Scale(y, 0 - f.Size()))
            && (Scale(y, 0 - f.Size()) == 0.0 <==> Scale(y, s - f.Size()) == 0.0)
  {
    hide Pow2, Shl, Jams, Scale, Format.ExpMask, Format.Bias, Top, ShiftJam;
    BitLenBound(t, 2 * f.Size() - 1);
    var s, size: int := Slack(f, t), f.Size();
    ScaleScale(y, s - size, exp - s - f.Bias() - Top(f));
    ScaleScale(y, 0 - size, exp - f.Bias() - Top(f));
    ScaleOrder(y, 0.0, s - size);
    ScaleZero(s - size);
    ScaleOrder(y, 0.0, 0 - size);
    ScaleZero(0 - size);
    h := 0;
    if t > 0 {
      HighAlignedRange(f, t);
      h := HighAlignedJam(f, t, y, g);
    } else {
      Pow2AtLeast(f.mant + 1 + g);
      ShlOne(s - size);
    }
  }

  lemma BitLenDouble(m1: nat, m0: nat, size: nat)
    requires m0 < Pow2(size)
    ensures BitLen(Shl(m1, size) + m0) == if m1 == 0 then BitLen(m0) else size + BitLen(m1)
  {
    hide Pow2, Shl, BitLen;
    ShlOrder(0, m1, size);
    ShlOne(size);
    if m1 > 0 {
      var n := BitLen(m1);
      BitLenRange(m1);
      ShlOrder(m1 + 1, Pow2(n), size);
      ShlAdd(m1, 1, size);
      ShlPow2(n, size);
      ShlPow2(n - 1, size);
      ShlOrder(Pow2(n - 1), m1, size);
      BitLenBound(Shl(m1, size) + m0, n + size);
      BitLenBound(Shl(m1, size) + m0, n - 1 + size);
    }
  }

  /** The two-word shift the code does is the shift of the double word. */
  lemma HighWord(f: Format, m1: nat, m0: nat)
    requires f.Valid() && m0 < Pow2(f.Size()) && m1 < Pow2(f.Size() - 1)
    ensures var t, size := Shl(m1, f.Size()) + m0, f.Size();
            && t < Pow2(2 * size - 1)
            && BitLen(t) == (if m1 == 0 then BitLen(m0) else size + BitLen(m1))
            && BitLen(t) <= 2 * size - 1
            && HighAligned(f, t) == TwoWordShift(size, Slack(f, t), m1, m0)
  {
    hide Pow2, Shl, Shr, Low, BitLen;
    var size := f.Size();
    BitLenDouble(m1, m0, size);
    ShlOrder(m1 + 1, Pow2(size - 1), size);
    ShlAdd(m1, 1, size);
    ShlOne(size);
    ShlPow2(size - 1, size);
    var t := Shl(m1, size) + m0;
    BitLenBound(t, 2 * size - 1);
    BitLenBound(m0, size);
    BitLenZero(m1);
    var s: nat := Slack(f, t);
    if s < size {
      DoubleShift(m1, m0, s, size);
      NoShift(t);
      TwoFields(m1, m0, size);
    }
  }

  /** a_mant1 as normalize2_sf leaves it. */
  function TwoWordShift(size: nat, s: nat, m1: nat, m0: nat): nat {
    if s == 0 then
      OrBit(m1, m0 != 0)
    else if s < size then
      OrBit(Shl(m1, s) + Shr(m0, size - s), Low(Shl(m0, s), size) != 0)
    else
      Shl(m0, s - size)
  }

  function DoubleWord(f: Format, m1: nat, m0: nat): nat {
    Shl(m1, f.Size()) + m0
  }

  /** normalize2_sf. y is the exact value behind the double word, in units of its low word. */
  method Normalize2Sf(f: Format, aSign: nat, aExp: int, aMant1: nat, aMant0: nat, rm: RoundingMode, fflags: Flags)
    returns (r: nat, fl: Flags)
    requires f.Valid() && aSign <= 1 && aMant1 < Pow2(f.Size() - 1) && aMant0 < Pow2(f.Size())
    ensures forall y: real, g: nat :: Roundable(f, DoubleWord(f, aMant1, aMant0), y, g) ==>
              Rounded(f, rm, aSign, aExp, Scale(y, 0 - f.Size()), fflags, r, fl)
  {
    hide Roundable, Internal, Exactly, Delivers, Raised, Pow2, Shl, Shr, Low, BitLen, HighAligned;
    HighWord(f, aMant1, aMant0);
    ghost var t := DoubleWord(f, aMant1, aMant0);
    HighAlignedRange(f, t);
    var l := if aMant1 == 0 then f.Size() + (f.Size() - BitLen(aMant0)) else f.Size() - BitLen(aMant1);
    var shift := l - 1;
    var mant1, mant0 := aMant1, aMant0;
    if shift == 0 {
      mant1 := OrBit(mant1, mant0 != 0);
    } else if shift < f.Size() {
      mant1 := Shl(mant1, shift) + Shr(mant0, f.Size() - shift);
      mant0 := Low(Shl(mant0, shift), f.Size());
      mant1 := OrBit(mant1, mant0 != 0);
    } else {
      mant1 := Shl(mant0, shift - f.Size());
    }
    r, fl := RoundPackSf(f, aSign, aExp - shift, mant1, rm, fflags);
    forall y: real, g: nat | Roundable(f, t, y, g)
      ensures Rounded(f, rm, aSign, aExp, Scale(y, 0 - f.Size()), fflags, r, fl)
    {
      var h := Aligned2(f, aExp, t, y, g);
    }
  }
}
