/** fma_sf: one rounding of the exact a * b + c. */
module Fma {
  import opened Powers
  import opened Jamming
  import opened Rounding
  import opened SoftFormat
  import opened RoundPack
  import opened Normalize
  import opened Operands
  import opened WordArith
  import opened Addition
  import opened Multiplicative
  import opened Representable

  /* ---- the aligned addend ---- */

  /** The smaller double word as fma_sf right-shifts it: past a word it looks at the high word alone. */
  function Shifted(f: Format, s1: nat, s0: nat, d: nat): nat {
    if d >= 2 * f.Size() then if s1 == 0 && s0 == 0 then 0 else 1
    else if d >= f.Size() + 1 then ShiftJam(s1, d - f.Size())
    else ShiftJam(DoubleWord(f, s1, s0), d)
  }

  /** A shift by less than a word, split over the two words. */
  lemma DoubleRight(f: Format, s1: nat, s0: nat, d: nat)
    requires 0 < d < f.Size() && s0 < Pow2(f.Size())
    ensures var low := Low(Shl(s1, f.Size() - d), f.Size()) + Shr(s0, d);
            && low < Pow2(f.Size())
            && Shr(DoubleWord(f, s1, s0), d) == Shl(Shr(s1, d), f.Size()) + low
            && Low(DoubleWord(f, s1, s0), d) == Low(s0, d)
  {
    hide Pow2, Shl, Shr, Low;
    var size := f.Size();
    var e := size - d;
    Split(s0, d);
    ShlShl(s1, e, d);
    ShlAdd(Shl(s1, e), Shr(s0, d), d);
    TwoFields(Shl(s1, e) + Shr(s0, d), Low(s0, d), d);
    Split(s1, d);
    ShlAdd(Shl(Shr(s1, d), d), Low(s1, d), e);
    ShlShl(Shr(s1, d), d, e);
    ShlOrder(Low(s1, d) + 1, Pow2(d), e);
    ShlAdd(Low(s1, d), 1, e);
    ShlPow2(d, e);
    ShlPow2(e, d);
    ShlOne(e);
    ShrOrder(s0, d, Pow2(e));
    ShlOrder(0, Low(s1, d), e);
    ShlOne(e);
    TwoFields(Shr(s1, d), Shl(Low(s1, d), e), size);
  }

  lemma OrBitLow(high: nat, low: nat, size: nat, c: bool)
    requires size >= 1 && low < Pow2(size)
    ensures OrBit(Shl(high, size) + low, c) == Shl(high, size) + OrBit(low, c) && OrBit(low, c) < Pow2(size)
  {
    hide Pow2, Shl;
    EvenShl(high, size);
    Pow2Next(size - 1);
  }

  lemma ShiftByWord(f: Format, s1: nat, s0: nat)
    requires s0 < Pow2(f.Size())
    ensures ShiftJam(DoubleWord(f, s1, s0), f.Size()) == OrBit(s1, s0 != 0)
  {
    hide Pow2, Shl, Shr, Low;
    TwoFields(s1, s0, f.Size());
  }

  /** The right shift of the addend, as fma_sf does it word by word. */
  method AlignRight(f: Format, s1: nat, s0: nat, d: nat) returns (c1: nat, c0: nat)
    requires f.Valid() && s1 < Pow2(f.Size() - 2) && s0 < Pow2(f.Size())
    ensures DoubleWord(f, c1, c0) == Shifted(f, s1, s0, d)
    ensures c1 <= s1 && c0 < Pow2(f.Size())
  {
    hide Pow2, Shl, Shr, Low, ShiftJam;
    var size := f.Size();
    Pow2Next(size - 2);
    Pow2Next(size - 1);
    ShlOne(size);
    if d >= 2 * size {
      c1, c0 := 0, if s0 != 0 || s1 != 0 then 1 else 0;
    } else if d >= size + 1 {
      Pow2Mono(size - 2, size - 1 + (d - size));
      ShiftJamBound(s1, d - size, size - 1);
      c0 := RshiftRnd(f, s1, d - size);
      c1 := 0;
    } else if d == size {
      ShiftByWord(f, s1, s0);
      OrBitLow(0, s1, size, s0 != 0);
      c1, c0 := 0, OrBit(s1, s0 != 0);
    } else if d != 0 {
      DoubleRight(f, s1, s0, d);
      ShiftJamIs(DoubleWord(f, s1, s0), d);
      var low := Low(Shl(s1, size - d), size) + Shr(s0, d);
      OrBitLow(Shr(s1, d), low, size, Low(s0, d) != 0);
      c0 := OrBit(low, Low(s0, d) != 0);
      c1 := Shr(s1, d);
      ShrAtMost(s1, d);
    } else {
      ShiftJamNone(DoubleWord(f, s1, s0));
      c1, c0 := s1, s0;
    }
  }

  lemma ShiftJamIs(j: nat, d: nat)
    ensures ShiftJam(j, d) == OrBit(Shr(j, d), Low(j, d) != 0)
  {
  }

  lemma {:induction false} ShrAtMost(a: nat, d: nat)
    ensures Shr(a, d) <= a
  {
    if d > 0 {
      ShrAtMost(a / 2, d - 1);
    }
  }

  /* ---- what the alignment keeps ---- */

  /** Both double words lie in the binade fma_sf normalises to, and are even. */
  ghost predicate Operand(f: Format, w1: nat, w0: nat)
    requires f.Valid()
  {
    Pow2(f.Size() - 3) <= w1 < Pow2(f.Size() - 2) && w0 < Pow2(f.Size()) && w0 % 2 == 0
  }

  lemma OperandRange(f: Format, w1: nat, w0: nat)
    requires f.Valid() && Operand(f, w1, w0)
    ensures Pow2(2 * f.Size() - 3) <= DoubleWord(f, w1, w0) < Pow2(2 * f.Size() - 2)
    ensures DoubleWord(f, w1, w0) % 2 == 0
  {
    hide Pow2, Shl;
    var size := f.Size();
    ShlPow2(size - 3, size);
    ShlPow2(size - 2, size);
    ShlOrder(Pow2(size - 3), w1, size);
    ShlOrder(w1 + 1, Pow2(size - 2), size);
    ShlAdd(w1, 1, size);
    ShlOne(size);
    EvenShl(w1, size);
  }

  /** Between 0 and 2^g everything is on the same side of every multiple of 2^g. */
  lemma SmallJam(y: real, j: int, g: nat)
    requires 0.0 < y < Pow2(g) as real && 0 < j < Pow2(g)
    ensures Jams(y, j, g)
  {
    forall k: int
      ensures SameSide(y, j, Shl(k, g))
    {
      ShlOne(g);
      if k <= 0 {
        ShlOrder(k, 0, g);
      } else {
        ShlOrder(1, k, g);
      }
    }
  }

  lemma Halved(s: nat)
    ensures s % 2 == 0 ==> ShiftJam(s, 1) as real == Scale(s as real, 0 - 1)
  {
    NoShift(s / 2);
    assert Shr(s, 1) == s / 2 && Low(s, 1) == s % 2;
    assert Scale(s as real, -1) == s as real / 2.0;
  }

  lemma ScaleBelow(s: nat, d: nat, n: nat)
    requires 0 < s < Pow2(n)
    ensures 0.0 < Scale(s as real, 0 - d)
    ensures forall k: nat :: n <= k + d ==> Scale(s as real, 0 - d) < Pow2(k) as real
  {
    hide Pow2, Scale;
    ScalePositive(s as real, 0 - d);
    forall k: nat | n <= k + d
      ensures Scale(s as real, 0 - d) < Pow2(k) as real
    {
      Pow2Mono(n, k + d);
      ShlPow2(k, d);
      ScaleInt(Pow2(k), d);
      ScaleScale(s as real, 0 - d, d);
      ScaleZeroIs(s as real);
      ScaleOrder(Scale(s as real, 0 - d), Pow2(k) as real, d);
    }
  }

  /** Past a word the code drops the low word: harmless, as both stay strictly between 0 and 2^(F_SIZE - 3). */
  lemma DroppedWordJam(f: Format, s1: nat, s0: nat, d: nat)
    requires f.Valid() && Operand(f, s1, s0) && f.Size() + 1 <= d < 2 * f.Size()
    ensures 0 < Shifted(f, s1, s0, d) < Pow2(f.Size() - 3)
    ensures Jams(Scale(DoubleWord(f, s1, s0) as real, 0 - d), Shifted(f, s1, s0, d), f.Size() - 3)
  {
    hide Pow2, Shl, Shr, Low, Jams;
    var size := f.Size();
    OperandRange(f, s1, s0);
    Pow2AtLeast(size - 3);
    Pow2Mono(size - 2, size - 3 + (d - size));
    ShiftJamBound(s1, d - size, size - 3);
    ShiftJamNonzero(s1, d - size);
    ScaleBelow(DoubleWord(f, s1, s0), d, 2 * size - 2);
    SmallJam(Scale(DoubleWord(f, s1, s0) as real, 0 - d), Shifted(f, s1, s0, d), size - 3);
  }

  lemma ShiftJamNonzero(j: nat, d: nat)
    requires j > 0
    ensures ShiftJam(j, d) > 0
  {
    hide Shr, Low, Shl;
    Split(j, d);
    ShlOne(d);
  }

  /** With an empty low word nothing is dropped. */
  lemma HighWordJam(f: Format, s1: nat, d: nat)
    requires f.Valid() && f.Size() + 1 <= d < 2 * f.Size()
    ensures Jams(Scale(DoubleWord(f, s1, 0) as real, 0 - d), Shifted(f, s1, 0, d), 1)
  {
    hide Shl, Scale, Jams, ShiftJam;
    JamExact(s1, 0);
    JamRight(s1 as real, s1, 0, d - f.Size(), 1);
    ScaleInt(s1, f.Size());
    ScaleScale(s1 as real, f.Size(), 0 - d);
  }

  /**
   However far it is shifted, the aligned addend stands for the exact one, at a grain the other operand is a
   multiple of.
   */
  lemma ShiftedJam(f: Format, s1: nat, s0: nat, d: nat) returns (g: nat)
    requires f.Valid() && Operand(f, s1, s0) && d >= 2
    ensures g == (if f.Size() + 1 <= d < 2 * f.Size() && s0 != 0 then f.Size() - 3 else 1)
    ensures Jams(Scale(DoubleWord(f, s1, s0) as real, 0 - d), Shifted(f, s1, s0, d), g)
    ensures 0 < Shifted(f, s1, s0, d) < Pow2(2 * f.Size() - 4)
  {
    hide Pow2, Shl, Scale, Jams, ShiftJam;
    var size, s := f.Size(), DoubleWord(f, s1, s0);
    OperandRange(f, s1, s0);
    Pow2AtLeast(2 * size - 3);
    Pow2Mono(size - 3, 2 * size - 4);
    Pow2Next(0);
    Pow2Next(2 * size - 5);
    Pow2AtLeast(2 * size - 5);
    Pow2Zero();
    g := 1;
    if d >= 2 * size {
      ScaleBelow(s, d, 2 * size - 2);
      SmallJam(Scale(s as real, 0 - d), 1, 1);
    } else if d >= size + 1 {
      DroppedWordJam(f, s1, s0, d);
      if s0 != 0 {
        g := size - 3;
      } else {
        HighWordJam(f, s1, d);
      }
    } else {
      JamExact(s, 0);
      JamRight(s as real, s, 0, d, 1);
      Pow2Mono(2 * size - 2, 2 * size - 4 + d);
      ShiftJamBound(s, d, 2 * size - 4);
      ShiftJamNonzero(s, d);
    }
  }

  lemma Pow2Zero()
    ensures Pow2(0) == 1
  {
  }

  /** The exact sum or difference, in units of the larger operand's low word. */
  ghost function FusedValue(f: Format, b1: nat, b0: nat, s1: nat, s0: nat, d: nat, subtract: bool): real {
    var x, y := DoubleWord(f, b1, b0) as real, Scale(DoubleWord(f, s1, s0) as real, 0 - d);
    if subtract then x - y else x + y
  }

  function FusedWord(f: Format, b1: nat, b0: nat, s1: nat, s0: nat, d: nat, subtract: bool): int {
    var x, y := DoubleWord(f, b1, b0), Shifted(f, s1, s0, d);
    if subtract then x - y else x + y
  }

  /** Shifts by zero or one are exact. */
  lemma NearShift(f: Format, s1: nat, s0: nat, d: nat)
    requires f.Valid() && Operand(f, s1, s0) && d <= 1
    ensures Shifted(f, s1, s0, d) as real == Scale(DoubleWord(f, s1, s0) as real, 0 - d)
    ensures Shifted(f, s1, s0, d) <= DoubleWord(f, s1, s0)
    ensures d == 1 ==> 2 * Shifted(f, s1, s0, d) == DoubleWord(f, s1, s0)
  {
    hide Shl, Pow2;
    var s := DoubleWord(f, s1, s0);
    OperandRange(f, s1, s0);
    if d == 0 {
      ShiftJamNone(s);
      ScaleZeroIs(s as real);
    } else {
      Halved(s);
      ScaleScale(s as real, -1, 1);
    }
  }

  /** A multiple of 2^g, where the larger operand is one. */
  lemma LargeOperandMultiple(f: Format, b1: nat, b0: nat, g: nat) returns (c: int)
    requires f.Valid() && Operand(f, b1, b0) && (g == 1 || (g == f.Size() - 3 && b0 == 0))
    ensures DoubleWord(f, b1, b0) == Shl(c, g)
  {
    hide Shl, Pow2;
    if g == 1 {
      OperandRange(f, b1, b0);
      c := DoubleWord(f, b1, b0) / 2;
      DoubleIs(c);
    } else {
      c := Shl(b1, 3);
      ShlShl(b1, 3, g);
    }
  }

  lemma NearFused(f: Format, b1: nat, b0: nat, s1: nat, s0: nat, d: nat, subtract: bool)
    requires f.Valid() && Operand(f, b1, b0) && Operand(f, s1, s0) && d <= 1
    requires d == 0 ==> DoubleWord(f, b1, b0) >= DoubleWord(f, s1, s0)
    ensures FusedWord(f, b1, b0, s1, s0, d, subtract) as real == FusedValue(f, b1, b0, s1, s0, d, subtract)
    ensures 0 <= FusedWord(f, b1, b0, s1, s0, d, subtract) < Pow2(2 * f.Size() - 1)
  {
    hide Pow2, Shl, Scale, Shifted, DoubleWord;
    var size := f.Size();
    OperandRange(f, b1, b0);
    OperandRange(f, s1, s0);
    Pow2Next(2 * size - 3);
    Pow2Next(2 * size - 2);
    NearShift(f, s1, s0, d);
  }

  /** The double word fma_sf hands to normalize2_sf is fit to round, cancellation included. */
  lemma FusedIsRoundable(f: Format, b1: nat, b0: nat, s1: nat, s0: nat, d: nat, subtract: bool) returns (g: nat)
    requires f.Valid() && Operand(f, b1, b0) && Operand(f, s1, s0) && (b0 == 0 || s0 == 0)
    requires d == 0 ==> DoubleWord(f, b1, b0) >= DoubleWord(f, s1, s0)
    ensures var t, y := FusedWord(f, b1, b0, s1, s0, d, subtract), FusedValue(f, b1, b0, s1, s0, d, subtract);
            && 0 <= t < Pow2(2 * f.Size() - 1) && y >= 0.0
            && Roundable(f, t, y, g) && (t == 0 <==> y == 0.0)
  {
    hide Pow2, Shl, Scale, Jams, Shifted, DoubleWord;
    var size := f.Size();
    OperandRange(f, b1, b0);
    OperandRange(f, s1, s0);
    Pow2Next(2 * size - 4);
    Pow2Next(2 * size - 3);
    Pow2Next(2 * size - 2);
    g := 0;
    if d <= 1 {
      NearFused(f, b1, b0, s1, s0, d, subtract);
    } else {
      g := ShiftedJam(f, s1, s0, d);
      FarFused(f, b1, b0, s1, s0, d, subtract, g);
    }
  }

  lemma FarFused(f: Format, b1: nat, b0: nat, s1: nat, s0: nat, d: nat, subtract: bool, g: nat)
    requires f.Valid() && Operand(f, b1, b0) && Operand(f, s1, s0)
    requires g == 1 || (g == f.Size() - 3 && b0 == 0)
    requires Jams(Scale(DoubleWord(f, s1, s0) as real, 0 - d), Shifted(f, s1, s0, d), g)
    requires 0 < Shifted(f, s1, s0, d) < Pow2(2 * f.Size() - 4)
    ensures var t, y := FusedWord(f, b1, b0, s1, s0, d, subtract), FusedValue(f, b1, b0, s1, s0, d, subtract);
            t > 0 && Roundable(f, t, y, g) && y > 0.0
  {
    hide Pow2, Shl, Scale, Jams, Shifted, DoubleWord;
    var size := f.Size();
    var t, y := FusedWord(f, b1, b0, s1, s0, d, subtract), FusedValue(f, b1, b0, s1, s0, d, subtract);
    OperandRange(f, b1, b0);
    Pow2Next(2 * size - 4);
    var c := LargeOperandMultiple(f, b1, b0, g);
    JamOffset(Scale(DoubleWord(f, s1, s0) as real, 0 - d), Shifted(f, s1, s0, d), g, c);
    Pow2Mono(f.mant + 1 + g, 2 * size - 4);
    JamAt(y, t, g, 0, g);
    ShlOne(g);
  }

  /* ---- the double-word sum and difference ---- */

  lemma AddWords(f: Format, r1: nat, r0: nat, c1: nat, c0: nat)
    requires r0 < Pow2(f.Size()) && c0 < Pow2(f.Size())
    ensures var sum := Low(r0 + c0, f.Size());
            sum < Pow2(f.Size())
            && DoubleWord(f, r1 + c1 + (if sum < c0 then 1 else 0), sum) == DoubleWord(f, r1, r0) + DoubleWord(f, c1, c0)
  {
    hide Pow2, Shl, Low;
    var size := f.Size();
    ShlOne(size);
    ShlAdd(r1, c1, size);
    ShlAdd(r1 + c1, 1, size);
    if r0 + c0 < Pow2(size) {
      ShrSmall(r0 + c0, size);
    } else {
      TwoFields(1, r0 + c0 - Pow2(size), size);
    }
  }

  lemma SubWords(f: Format, r1: nat, r0: nat, c1: nat, c0: nat)
    requires r0 < Pow2(f.Size()) && c0 < Pow2(f.Size()) && DoubleWord(f, r1, r0) >= DoubleWord(f, c1, c0)
    ensures var diff := Low(r0 + Pow2(f.Size()) - c0, f.Size());
            var high := r1 - c1 - (if diff > r0 then 1 else 0);
            diff < Pow2(f.Size()) && high >= 0
            && DoubleWord(f, high, diff) == DoubleWord(f, r1, r0) - DoubleWord(f, c1, c0)
  {
    hide Pow2, Shl, Low;
    var size := f.Size();
    var diff := Low(r0 + Pow2(size) - c0, size);
    var high := r1 - c1 - (if diff > r0 then 1 else 0);
    ShlOne(size);
    ShlAdd(r1, c1, size);
    ShlAdd(r1 - c1, 1, size);
    if r0 < c0 {
      ShrSmall(r0 + Pow2(size) - c0, size);
    } else {
      TwoFields(1, r0 - c0, size);
    }
    ShlOrder(high, -1, size);
    ShlAdd(0, 1, size);
    ShlOrder(high + 1, 0, size);
    ShlAdd(high, 1, size);
    ShlOrder(high, 0, size);
  }

  lemma HighWordBound(f: Format, w1: nat, w0: nat)
    requires f.Valid() && DoubleWord(f, w1, w0) < Pow2(2 * f.Size() - 1)
    ensures w1 < Pow2(f.Size() - 1)
    ensures DoubleWord(f, w1, w0) == 0 <==> w1 == 0 && w0 == 0
  {
    hide Pow2, Shl;
    ShlPow2(f.Size() - 1, f.Size());
    ShlOrder(w1, Pow2(f.Size() - 1), f.Size());
    ShlOne(f.Size());
    ShlOrder(0, w1, f.Size());
  }

  /** An operand of the final sum: two words, an exponent, and the magnitude they stand for. */
  ghost predicate StandsFor(f: Format, w1: nat, w0: nat, exp: int, x: real)
    requires f.Valid()
  {
    Operand(f, w1, w0) && x == Exactly(f, exp, Scale(DoubleWord(f, w1, w0) as real, 0 - f.Size())) && x > 0.0
  }

  lemma FusedExactly(f: Format, b1: nat, b0: nat, bExp: int, s1: nat, s0: nat, sExp: int, subtract: bool)
    requires f.Valid() && bExp >= sExp
    ensures Exactly(f, bExp, Scale(FusedValue(f, b1, b0, s1, s0, bExp - sExp, subtract), 0 - f.Size()))
            == var x := Exactly(f, bExp, Scale(DoubleWord(f, b1, b0) as real, 0 - f.Size()));
               var y := Exactly(f, sExp, Scale(DoubleWord(f, s1, s0) as real, 0 - f.Size()));
               if subtract then x - y else x + y
  {
    hide Shl, Scale, Format.Bias, DoubleWord;
    var b, s, d: int := DoubleWord(f, b1, b0) as real, DoubleWord(f, s1, s0) as real, bExp - sExp;
    var size: int, k := f.Size(), bExp - f.Bias() - Top(f);
    ScaleScale(FusedValue(f, b1, b0, s1, s0, d, subtract), 0 - size, k);
    ScaleLinear(b, Scale(s, 0 - d), k - size);
    ScaleScale(b, 0 - size, k);
    ScaleScale(s, 0 - d, k - size);
    ScaleScale(s, 0 - size, sExp - f.Bias() - Top(f));
  }

  /** fma_sf from the alignment on, the larger operand first */
  method FusedSum(f: Format, bSign: nat, bExp: int, b1: nat, b0: nat, sSign: nat, sExp: int, s1: nat, s0: nat,
                  rm: RoundingMode, fflags: Flags, ghost x: real, ghost y: real)
    returns (r: nat, fl: Flags)
    requires f.Valid() && bSign <= 1 && sSign <= 1 && (b0 == 0 || s0 == 0)
    requires StandsFor(f, b1, b0, bExp, x) && StandsFor(f, s1, s0, sExp, y)
    requires bExp > sExp || (bExp == sExp && DoubleWord(f, b1, b0) >= DoubleWord(f, s1, s0))
    ensures RoundsTo(f, rm, Signed(bSign, x) + Signed(sSign, y),
                     if bSign == sSign then bSign else if rm == RDN then 1 else 0, fflags, r, fl)
  {
    hide Pow2, Shl, Low, Scale, Rounded, RoundsTo, Roundable, Shifted, DoubleWord, FusedValue, Exactly;
    var d := bExp - sExp;
    ghost var subtract := bSign != sSign;
    ghost var g := FusedIsRoundable(f, b1, b0, s1, s0, d, subtract);
    var c1, c0 := AlignRight(f, s1, s0, d);
    var sign, r1, r0 := bSign, b1, b0;
    if bSign == sSign {
      AddWords(f, b1, b0, c1, c0);
      r0 := Low(r0 + c0, f.Size());
      r1 := r1 + c1 + (if r0 < c0 then 1 else 0);
      HighWordBound(f, r1, r0);
    } else {
      SubWords(f, b1, b0, c1, c0);
      r0 := Low(b0 + Pow2(f.Size()) - c0, f.Size());
      r1 := r1 - c1 - (if r0 > b0 then 1 else 0);
      HighWordBound(f, r1, r0);
      if r0 == 0 && r1 == 0 {
        sign := if rm == RDN then 1 else 0;
      }
    }
    r, fl := Normalize2Sf(f, sign, bExp, r1, r0, rm, fflags);
    assert Roundable(f, DoubleWord(f, r1, r0), FusedValue(f, b1, b0, s1, s0, d, subtract), g);
    FusedRounded(f, bSign, bExp, b1, b0, sSign, sExp, s1, s0, rm, sign, fflags, x, y, g, r, fl);
  }

  lemma FusedRounded(f: Format, bSign: nat, bExp: int, b1: nat, b0: nat, sSign: nat, sExp: int, s1: nat, s0: nat,
                     rm: RoundingMode, sign: nat, fflags: Flags, x: real, y: real, g: nat, r: nat, fl: Flags)
    requires f.Valid() && bSign <= 1 && sSign <= 1 && bExp >= sExp
    requires StandsFor(f, b1, b0, bExp, x) && StandsFor(f, s1, s0, sExp, y)
    requires var t := FusedValue(f, b1, b0, s1, s0, bExp - sExp, bSign != sSign);
             && t >= 0.0
             && sign == (if t == 0.0 && bSign != sSign then if rm == RDN then 1 else 0 else bSign)
             && Rounded(f, rm, sign, bExp, Scale(t, 0 - f.Size()), fflags, r, fl)
    ensures RoundsTo(f, rm, Signed(bSign, x) + Signed(sSign, y),
                     if bSign == sSign then bSign else if rm == RDN then 1 else 0, fflags, r, fl)
  {
    hide Pow2, Shl, Scale, Rounded, DoubleWord, FusedValue, Delivers, Raised, Format.Bias;
    var t := FusedValue(f, b1, b0, s1, s0, bExp - sExp, bSign != sSign);
    var z := Scale(t, 0 - f.Size());
    FusedExactly(f, b1, b0, bExp, s1, s0, sExp, bSign != sSign);
    ScalePositive(t, 0 - f.Size());
    ScalePositive(z, bExp - f.Bias() - Top(f));
    RoundedValue(f, rm, sign, bExp, z, Signed(sign, Exactly(f, bExp, z)), fflags, r, fl);
  }

  /* ---- the product and the addend ---- */

  ghost function MagnitudeProduct(f: Format, a: nat, b: nat): real {
    Magnitude(f, a) * Magnitude(f, b)
  }

  /** The product of fma_sf, its top bit at F_SIZE - 3 of the high word */
  method FusedProduct(f: Format, aExp: int, aMant: nat, bExp: int, bMant: nat, ghost a: nat, ghost b: nat)
    returns (exp: int, r1: nat, r0: nat)
    requires f.Valid() && Unpacked(f, a, aExp, aMant) && Unpacked(f, b, bExp, bMant)
    ensures StandsFor(f, r1, r0, exp, MagnitudeProduct(f, a, b))
  {
    hide Pow2, Shl, Shr, Low, Times, Scale, Magnitude, Exactly;
    var size := f.Size();
    exp := aExp + bExp - Pow2(f.exp - 1) + 3;
    GuardedWord(f, aMant, f.Rnd());
    GuardedWord(f, bMant, f.Rnd());
    r1, r0 := MulU(size / 2, Shl(aMant, f.Rnd()), Shl(bMant, f.Rnd()));
    ghost var t := DoubleWord(f, r1, r0);
    ProductWord(f, aMant, bMant, r1, r0);
    ProductPlace(f, a, b, aExp, aMant, bExp, bMant);
    if r1 < Pow2(size - 3) {
      TopBitClear(f, r1, r0);
      r1 := Shl(r1, 1) + Shr(r0, size - 1);
      r0 := Low(Shl(r0, 1), size);
      exp := exp - 1;
    }
    PositiveProduct(Magnitude(f, a), Magnitude(f, b));
  }

  lemma PositiveProduct(x: real, y: real)
    requires x > 0.0 && y > 0.0
    ensures x * y > 0.0
  {
  }

  lemma ProductWord(f: Format, ma: nat, mb: nat, r1: nat, r0: nat)
    requires f.Valid() && Pow2(f.mant) <= ma < Pow2(f.mant + 1) && Pow2(f.mant) <= mb < Pow2(f.mant + 1)
    requires r0 < Pow2(f.Size()) && DoubleWord(f, r1, r0) == Times(Shl(ma, f.Rnd()), Shl(mb, f.Rnd()))
    ensures DoubleWord(f, r1, r0) == Shl(Times(ma, mb), 2 * f.Rnd())
    ensures Pow2(f.Size() - 4) <= r1 < Pow2(f.Size() - 2) && r0 % 2 == 0
  {
    hide Pow2, Shl, Times;
    var p, k, size := Times(ma, mb), 2 * f.Rnd(), f.Size();
    TimesShl(ma, Shl(mb, f.Rnd()), f.Rnd());
    TimesShl(ma, mb, f.Rnd());
    ShlShl(p, f.Rnd(), f.Rnd());
    ProductRange(f, ma, mb);
    ShlPow2(2 * f.mant, k);
    ShlPow2(2 * f.mant + 2, k);
    ShlOrder(Pow2(2 * f.mant), p, k);
    ShlOrder(p, Pow2(2 * f.mant + 2), k);
    ShlPow2(size - 4, size);
    ShlPow2(size - 2, size);
    ShlOrder(r1, Pow2(size - 2), size);
    ShlOrder(r1 + 1, Pow2(size - 4), size);
    ShlOrder(r1 + 1, Pow2(size - 4) + 1, size);
    ShlAdd(r1, 1, size);
    ShlOne(size);
    EvenShl(p, k);
    EvenShl(r1, size);
  }

  lemma ProductPlace(f: Format, a: nat, b: nat, ea: int, ma: nat, eb: int, mb: nat)
    requires f.Valid() && Unpacked(f, a, ea, ma) && Unpacked(f, b, eb, mb)
    ensures var t, e := Shl(Times(ma, mb), 2 * f.Rnd()), ea + eb - Pow2(f.exp - 1) + 3;
            Exactly(f, e, Scale(t as real, 0 - f.Size())) == Magnitude(f, a) * Magnitude(f, b)
            == Exactly(f, e - 1, Scale(2.0 * t as real, 0 - f.Size()))
  {
    hide Pow2, Times, Scale, Magnitude, Format.Bias, Shl;
    var p, k, size: int := Times(ma, mb), 2 * f.Rnd(), f.Size();
    var e := ea + eb - (f.Bias() + 1) + 3;
    BiasIs(f);
    ScaledTimesInt(ma, ea - f.Bias() - f.mant, mb, eb - f.Bias() - f.mant);
    ScaleInt(p, k);
    ScaleScale(p as real, k, 0 - size);
    ScaleScale(p as real, k - size, e - f.Bias() - Top(f));
    ScaleTwice(Shl(p, k) as real);
    ScaleScale(Shl(p, k) as real, 1, 0 - size);
    ScaleScale(Shl(p, k) as real, 1 - size, e - 1 - f.Bias() - Top(f));
    ScaleScale(Shl(p, k) as real, 0 - size, e - f.Bias() - Top(f));
  }

  /** A product one bit short moves up by one bit, exactly. */
  lemma TopBitClear(f: Format, r1: nat, r0: nat)
    requires f.Valid() && Pow2(f.Size() - 4) <= r1 < Pow2(f.Size() - 3) && r0 < Pow2(f.Size())
    ensures var w1, w0 := Shl(r1, 1) + Shr(r0, f.Size() - 1), Low(Shl(r0, 1), f.Size());
            && DoubleWord(f, w1, w0) == 2 * DoubleWord(f, r1, r0)
            && Operand(f, w1, w0)
  {
    hide Pow2, Shl, Shr, Low;
    var size := f.Size();
    TopBit(r0, size);
    DoubleShift(r1, r0, 1, size);
    DoubleIs(DoubleWord(f, r1, r0));
    Split(Shl(DoubleWord(f, r1, r0), 1), size);
    DoubleIs(r1);
    Pow2Next(size - 4);
    Pow2Next(size - 3);
    ShlNext(Shr(r0, size - 1), size - 1);
    DoubleIs(r0);
    Pow2Next(size - 1);
    TwoFields(Shr(r0, size - 1), 2 * Low(r0, size - 1), size);
  }

  /** The addend of fma_sf, placed like the product */
  lemma AddendPlace(f: Format, c: nat, exp: int, mant: nat)
    requires f.Valid() && Unpacked(f, c, exp, mant)
    ensures StandsFor(f, Shl(mant, f.Rnd() - 1), 0, exp + 1, Magnitude(f, c))
  {
    hide Pow2, Shl, Scale, Magnitude, Format.Bias;
    var w1, size: int := Shl(mant, f.Rnd() - 1), f.Size();
    ShlRange(mant, f.mant + 1, f.Rnd() - 1);
    ShlOne(f.Size());
    ScaleInt(mant, f.Rnd() - 1);
    ScaleInt(w1, f.Size());
    ScaleScale(w1 as real, size, 0 - size);
    ScaleZeroIs(w1 as real);
    ScaleScale(mant as real, f.Rnd() - 1, exp + 1 - f.Bias() - Top(f));
    Pow2AtLeast(f.Size());
  }

  /* ---- the whole operation ---- */

  function ZeroFusedSign(f: Format, a: nat, b: nat, c: nat, rm: RoundingMode): nat {
    if SignXor(f, a, b) == SignOf(f, c) then SignXor(f, a, b) else if rm == RDN then 1 else 0
  }

  ghost function ExactFused(f: Format, a: nat, b: nat, c: nat): real {
    Value(f, a) * Value(f, b) + Value(f, c)
  }

  /** One rounding of the exact a * b + c: section 5.4.1 of IEEE 754-2019. */
  ghost predicate FusedRounds(f: Format, a: nat, b: nat, c: nat, rm: RoundingMode, fflags: Flags, r: nat, fl: Flags)
    requires f.Valid()
  {
    RoundsTo(f, rm, ExactFused(f, a, b, c), ZeroFusedSign(f, a, b, c, rm), fflags, r, fl)
  }

  /** fma_sf on finite nonzero a, b and c */
  method FmaNonzero(f: Format, a: nat, b: nat, c: nat, rm: RoundingMode, fflags: Flags) returns (r: nat, fl: Flags)
    requires f.Valid() && IsWord(f, a) && IsWord(f, b) && IsWord(f, c)
    requires IsFinite(f, a) && IsFinite(f, b) && IsFinite(f, c)
    requires !IsZero(f, a) && !IsZero(f, b) && !IsZero(f, c)
    ensures FusedRounds(f, a, b, c, rm, fflags, r, fl)
  {
    hide Pow2, Shl, Shr, Low, Scale, RoundsTo, IsZero, IsFinite, Magnitude, Value, Format.ExpMask, DoubleWord, Exactly,
         SignOf, ExpOf, MantOf, Unpacked, ExactFused, MagnitudeProduct, SignXor;
    var aExp, aMant := UnpackNonzero(f, a, ExpOf(f, a), MantOf(f, a));
    var bExp, bMant := UnpackNonzero(f, b, ExpOf(f, b), MantOf(f, b));
    var rExp, r1, r0 := FusedProduct(f, aExp, aMant, bExp, bMant, a, b);
    var cExp, cMant := UnpackNonzero(f, c, ExpOf(f, c), MantOf(f, c));
    AddendPlace(f, c, cExp, cMant);
    cExp := cExp + 1;
    var c1, c0 := Shl(cMant, f.Rnd() - 1), 0;
    var rSign, cSign := SignXor(f, a, b), SignOf(f, c);
    FieldsOf(f, c);
    FusedParts(f, a, b, c);
    WordOrder(f, r1, r0, c1);
    ghost var x, y := MagnitudeProduct(f, a, b), Magnitude(f, c);
    if !(rExp > cExp || (rExp == cExp && r1 >= c1)) {
      r, fl := FusedSum(f, cSign, cExp, c1, c0, rSign, rExp, r1, r0, rm, fflags, y, x);
    } else {
      r, fl := FusedSum(f, rSign, rExp, r1, r0, cSign, cExp, c1, c0, rm, fflags, x, y);
    }
  }

  lemma WordOrder(f: Format, r1: nat, r0: nat, c1: nat)
    requires f.Valid() && r0 < Pow2(f.Size())
    ensures r1 >= c1 <==> DoubleWord(f, r1, r0) >= DoubleWord(f, c1, 0)
  {
    hide Pow2, Shl;
    ShlOrder(r1, c1, f.Size());
    ShlOrder(r1 + 1, c1, f.Size());
    ShlAdd(r1, 1, f.Size());
    ShlOne(f.Size());
  }

  lemma SignedValue(f: Format, c: nat)
    ensures Value(f, c) == Signed(SignOf(f, c), Magnitude(f, c))
  {
    hide Magnitude, SignOf;
  }

  lemma FusedParts(f: Format, a: nat, b: nat, c: nat)
    requires f.Valid() && IsWord(f, a) && IsWord(f, b) && IsWord(f, c)
    ensures ExactFused(f, a, b, c)
            == Signed(SignXor(f, a, b), MagnitudeProduct(f, a, b)) + Signed(SignOf(f, c), Magnitude(f, c))
  {
    hide Magnitude, SignOf, Value;
    SignedProduct(f, a, b);
    SignedValue(f, c);
  }

  /** fma_sf with a zero addend: the product alone is rounded, from one jammed word */
  method FmaZeroAddend(f: Format, a: nat, b: nat, c: nat, rm: RoundingMode, fflags: Flags) returns (r: nat, fl: Flags)
    requires f.Valid() && IsWord(f, a) && IsWord(f, b) && IsWord(f, c)
    requires IsFinite(f, a) && IsFinite(f, b) && !IsZero(f, a) && !IsZero(f, b) && IsZero(f, c)
    ensures FusedRounds(f, a, b, c, rm, fflags, r, fl)
  {
    hide Pow2, Shl, Shr, Low, Scale, RoundsTo, IsZero, IsFinite, Magnitude, Value, Format.ExpMask, DoubleWord, Exactly,
         SignOf, ExpOf, MantOf, Unpacked, Rounded, Roundable, Operand, ExactFused, MagnitudeProduct, SignXor;
    var aExp, aMant := UnpackNonzero(f, a, ExpOf(f, a), MantOf(f, a));
    var bExp, bMant := UnpackNonzero(f, b, ExpOf(f, b), MantOf(f, b));
    var rExp, r1, r0 := FusedProduct(f, aExp, aMant, bExp, bMant, a, b);
    var mant := OrBit(r1, r0 != 0);
    JammedProduct(f, r1, r0);
    r, fl := NormalizeSf(f, SignXor(f, a, b), rExp, mant, rm, fflags);
    ghost var y := Scale(DoubleWord(f, r1, r0) as real, 0 - f.Size());
    assert Roundable(f, mant, y, 1);
    ZeroMagnitude(f, c);
    FusedParts(f, a, b, c);
    SignedValue(f, c);
    FieldsOf(f, c);
    RoundedValue(f, rm, SignXor(f, a, b), rExp, y, ExactFused(f, a, b, c), fflags, r, fl);
    NonzeroRounds(f, rm, ExactFused(f, a, b, c), SignXor(f, a, b), ZeroFusedSign(f, a, b, c, rm), fflags, r, fl);
  }

  lemma JammedProduct(f: Format, r1: nat, r0: nat)
    requires f.Valid() && Operand(f, r1, r0)
    ensures OrBit(r1, r0 != 0) < Pow2(f.Size() - 1)
    ensures var y := Scale(DoubleWord(f, r1, r0) as real, 0 - f.Size());
            Roundable(f, OrBit(r1, r0 != 0), y, 1) && y > 0.0
  {
    hide Pow2, Shl, Shr, Low, Scale, Jams;
    var t, size: int := DoubleWord(f, r1, r0), f.Size();
    OperandRange(f, r1, r0);
    ShiftByWord(f, r1, r0);
    JamExact(t, 0);
    JamRight(t as real, t, 0, size, 1);
    Pow2Next(size - 2);
    Pow2Mono(f.mant + 2, size - 3);
    Pow2AtLeast(2 * size - 3);
    ScalePositive(t as real, 0 - size);
  }

  /** fma_sf with a zero product: the addend itself, or a zero with the sign of the sum */
  lemma ZeroProductSum(f: Format, a: nat, b: nat, c: nat, rm: RoundingMode, fflags: Flags)
    requires f.Valid() && IsWord(f, c) && IsFinite(f, c) && (IsZero(f, a) || IsZero(f, b))
    ensures FusedRounds(f, a, b, c, rm, fflags,
                        if IsZero(f, c) then Pack(f, ZeroFusedSign(f, a, b, c, rm), 0, 0) else c, fflags)
  {
    hide Pow2, Shl, Shr, Low, Scale, Format.ExpMask, Value, IsZero, ExpOf, MantOf, SignOf, Pack, Delivers, Raised;
    ZeroFactor(f, a, b);
    if IsZero(f, c) {
      ZeroMagnitude(f, c);
    } else {
      RoundingRepresentable(f, rm, c, fflags);
      assert RoundsTo(f, rm, Value(f, c), ZeroFusedSign(f, a, b, c, rm), fflags, c, fflags);
    }
  }

  lemma ZeroFactor(f: Format, a: nat, b: nat)
    requires IsZero(f, a) || IsZero(f, b)
    ensures Value(f, a) * Value(f, b) == 0.0
  {
    if IsZero(f, a) {
      ZeroMagnitude(f, a);
    } else {
      ZeroMagnitude(f, b);
    }
  }

  /**
   What fma_sf delivers. For finite operands that is what the standard asks. With a NaN operand the
   code raises invalid for signalling NaNs only, so not for infinity * 0 + quiet NaN.
   */
  ghost predicate IsFused(f: Format, a: nat, b: nat, c: nat, rm: RoundingMode, fflags: Flags, r: nat, fl: Flags)
    requires f.Valid()
  {
    if IsNaN(f, a) || IsNaN(f, b) || IsNaN(f, c) then
      && r == QuietNaN(f)
      && fl == fflags.Or(if IsSignalling(f, a) || IsSignalling(f, b) || IsSignalling(f, c) then INVALID else NO_FLAGS)
    else if InfinityTimesZero(f, a, b)
            || ((IsInf(f, a) || IsInf(f, b)) && IsInf(f, c) && SignXor(f, a, b) != SignOf(f, c)) then
      r == QuietNaN(f) && fl == fflags.Or(INVALID)
    else if IsInf(f, c) then
      r == Infinity(f, SignOf(f, c)) && fl == fflags
    else if IsInf(f, a) || IsInf(f, b) then
      r == Infinity(f, SignXor(f, a, b)) && fl == fflags
    else
      FusedRounds(f, a, b, c, rm, fflags, r, fl)
  }

  predicate InfinityTimesZero(f: Format, a: nat, b: nat) {
    (IsInf(f, a) && IsZero(f, b)) || (IsInf(f, b) && IsZero(f, a))
  }

  /** fma_sf when an operand is infinite and none is a NaN */
  method FmaInfinite(f: Format, a: nat, b: nat, c: nat, rm: RoundingMode, fflags: Flags) returns (r: nat, fl: Flags)
    requires f.Valid() && !IsNaN(f, a) && !IsNaN(f, b) && !IsNaN(f, c)
    requires IsInf(f, a) || IsInf(f, b) || IsInf(f, c)
    ensures IsFused(f, a, b, c, rm, fflags, r, fl)
  {
    hide Pow2, Shl, Shr, Low, Format.ExpMask, FusedRounds, Pack, QuietNaN, SignXor, IsZero, IsNaN, IsInf;
    var rSign := SignXor(f, a, b);
    if (IsInf(f, a) && IsZero(f, b)) || (IsInf(f, b) && IsZero(f, a))
       || ((IsInf(f, a) || IsInf(f, b)) && IsInf(f, c) && rSign != SignOf(f, c)) {
      return QuietNaN(f), fflags.Or(INVALID);
    } else if IsInf(f, c) {
      return Pack(f, SignOf(f, c), f.ExpMask(), 0), fflags;
    } else {
      return Pack(f, rSign, f.ExpMask(), 0), fflags;
    }
  }

  /** fma_sf when an operand is infinite or not a number */
  method FmaSpecial(f: Format, a: nat, b: nat, c: nat, rm: RoundingMode, fflags: Flags) returns (r: nat, fl: Flags)
    requires f.Valid() && IsWord(f, a) && IsWord(f, b) && IsWord(f, c)
    requires !IsFinite(f, a) || !IsFinite(f, b) || !IsFinite(f, c)
    ensures IsFused(f, a, b, c, rm, fflags, r, fl)
  {
    hide Pow2, Shl, Shr, Low, Format.ExpMask, FusedRounds, IsSignalling, QuietNaN, MantOf, ExpOf, InfinityTimesZero;
    if IsNaN(f, a) || IsNaN(f, b) || IsNaN(f, c) {
      fl := if IssignanSf(f, a) || IssignanSf(f, b) || IssignanSf(f, c) then fflags.Or(INVALID) else fflags;
      return QuietNaN(f), fl;
    }
    r, fl := FmaInfinite(f, a, b, c, rm, fflags);
  }

  /** fma_sf */
  method FmaSf(f: Format, a: nat, b: nat, c: nat, rm: RoundingMode, fflags: Flags) returns (r: nat, fl: Flags)
    requires f.Valid() && IsWord(f, a) && IsWord(f, b) && IsWord(f, c)
    ensures IsFused(f, a, b, c, rm, fflags, r, fl)
  {
    hide Pow2, Shl, Shr, Low, Format.ExpMask, FusedRounds, Pack, IsSignalling, QuietNaN, MantOf, ExpOf, IsZero, SignOf;
    if !IsFinite(f, a) || !IsFinite(f, b) || !IsFinite(f, c) {
      r, fl := FmaSpecial(f, a, b, c, rm, fflags);
    } else if IsZero(f, a) || IsZero(f, b) {
      ZeroProductSum(f, a, b, c, rm, fflags);
      if IsZero(f, c) {
        var rSign := SignXor(f, a, b);
        if SignOf(f, c) != rSign {
          rSign := if rm == RDN then 1 else 0;
        }
        return Pack(f, rSign, 0, 0), fflags;
      }
      return c, fflags;
    } else if IsZero(f, c) {
      r, fl := FmaZeroAddend(f, a, b, c, rm, fflags);
    } else {
      r, fl := FmaNonzero(f, a, b, c, rm, fflags);
    }
  }
}
