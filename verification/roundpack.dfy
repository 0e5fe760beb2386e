/** round_pack_sf, normalize_sf and normalize2_sf, proved to deliver the correct rounding. */
module RoundPack {
  import opened Powers
  import opened Jamming
  import opened Rounding
  import opened SoftFormat

  /** The fields a packed word splits into are the ones it was packed from. */
  lemma PackFields(f: Format, sign: nat, exp: nat, mant: nat)
    requires sign <= 1 && exp < Pow2(f.exp)
    ensures var r := Pack(f, sign, exp, mant);
            IsWord(f, r) && SignOf(f, r) == sign && ExpOf(f, r) == exp && MantOf(f, r) == Low(mant, f.mant)
  {
    hide Pow2, Shl, Shr, Low;
    var m, e, r := f.mant, f.exp, Pack(f, sign, exp, mant);
    var upper := Shl(sign, e) + exp;
    TwoFields(sign, exp, e);
    ShlShl(sign, e, m);
    ShlAdd(Shl(sign, e), exp, m);
    Split(mant, m);
    TwoFields(upper, Low(mant, m), m);
    ShrShr(r, m, e);
    ShlOrder(Pow2(e + 1), upper + 1, m);
    ShlAdd(upper, 1, m);
    ShlPow2(e + 1, m);
  }

  /** rshift_rnd */
  method RshiftRnd(f: Format, a: nat, d: nat) returns (r: nat)
    requires IsWord(f, a)
    ensures r == ShiftJam(a, d)
  {
    if d == 0 {
      r := a;
    } else if d >= f.Size() {
      Pow2Mono(f.Size(), d);
      ShrSmall(a, d);
      r := if a != 0 then 1 else 0;
    } else {
      r := Shr(a, d);
      if Low(a, d) != 0 && r % 2 == 0 {
        r := r + 1;
      }
    }
  }

  lemma ShiftJamBound(j: nat, d: nat, k: nat)
    requires j < Pow2(k + d) && k >= 1
    ensures ShiftJam(j, d) < Pow2(k)
  {
    hide Pow2, Shl, Shr, Low;
    ShlPow2(k, d);
    ShrOrder(j, d, Pow2(k));
    Pow2Next(k - 1);
  }

  lemma ScaleAtLeastOne(n: int, d: nat)
    ensures Scale(n as real, 0 - d) >= 1.0 <==> n >= Pow2(d)
  {
    ShlOne(d);
    ScaleInt(1, d);
    ScaleScale(n as real, 0 - d, d);
    ScaleOrder(Scale(n as real, 0 - d), 1.0, d);
  }

  /** The binade of a value whose internal mantissa has its top bit at 2^t. */
  lemma BinadeFromMantissa(y: real, t: nat, e: int)
    requires Pow2(t) as real <= y < Pow2(t + 1) as real
    ensures Scale(y, e - t) > 0.0 && Binade(Scale(y, e - t)) == e
  {
    var x := Scale(y, e - t);
    ScaleScale(y, e - t, -e);
    ScaleScale(y, 0 - t, t);
    ShlOne(t);
    ShlAdd(1, 1, t);
    ScaleInt(1, t);
    ScaleInt(2, t);
    ScaleOrder(Scale(y, 0 - t), 1.0, t);
    ScaleOrder(Scale(y, 0 - t), 2.0, t);
    ScaleZero(e - t);
    ScaleOrder(0.0, y, e - t);
    BinadeUnique(x, e);
  }

  lemma JamBinade(y: real, j: int, g: nat, t: nat)
    requires Jams(y, j, g) && g <= t && Pow2(t) <= j < Pow2(t + 1)
    ensures Pow2(t) as real <= y < Pow2(t + 1) as real
  {
    ShlOne(t);
    ShlAdd(1, 1, t);
    JamAt(y, j, g, 1, t);
    JamAt(y, j, g, 2, t);
  }

  /** Position of the top bit of an internal mantissa: F_SIZE - 2. */
  function Top(f: Format): nat
    requires f.Valid()
  {
    f.mant + f.Rnd()
  }

  /** The exact magnitude behind an internal exponent and an exact internal mantissa. */
  ghost function Exactly(f: Format, exp: int, y: real): real
    requires f.Valid()
  {
    Scale(y, exp - f.Bias() - Top(f))
  }

  ghost predicate Normalised(f: Format, j: nat, y: real, g: nat)
    requires f.Valid()
  {
    Pow2(Top(f)) <= j < Pow2(Top(f) + 1) && Jams(y, j, g) && g <= f.Rnd() - 1
  }

  function Floored(exp: int): int {
    if exp <= 0 then 1 else exp
  }

  /** How far the code shifts a mantissa right before rounding it. */
  function Excess(exp: int): nat {
    Floored(exp) - exp
  }

  lemma ExcessJam(f: Format, j: nat, y: real, g: nat, d: nat) returns (h: nat)
    requires f.Valid() && Jams(y, j, g) && g <= f.Rnd() - 1
    ensures h <= f.Rnd() - 1 && Jams(Scale(y, 0 - d), ShiftJam(j, d), h)
  {
    if g <= d {
      h := 1;
      JamRight(y, j, g, d, 1);
    } else {
      h := g - d;
      JamRight(y, j, g, d, h);
    }
  }

  lemma RoundedFromMantissa(f: Format, rm: RoundingMode, neg: bool, exp: int, j: nat, y: real, g: nat)
    requires f.Valid() && Normalised(f, j, y, g)
    ensures var x, j1 := Exactly(f, exp, y), ShiftJam(j, Excess(exp));
            && x > 0.0 && Binade(x) == exp - f.Bias()
            && Quantum(f, x) == Floored(exp) - f.Bias() - f.mant
            && RoundedUnits(f, rm, neg, x) == RoundBits(rm, neg, j1, f.Rnd())
            && (Exact(f, rm, neg, x) <==> Low(j1, f.Rnd()) == 0)
  {
    hide Pow2, Shl, Shr, Low;
    hide ShiftJam;
    hide RoundBits;
    hide RoundReal;
    var x, t := Exactly(f, exp, y), Top(f);
    var r: int, d: int := f.Rnd(), Excess(exp);
    JamBinade(y, j, g, t);
    BinadeFromMantissa(y, t, exp - f.Bias());
    var h := ExcessJam(f, j, y, g, d);
    RoundingIsExact(rm, neg, Scale(y, 0 - d), ShiftJam(j, d), h, r);
    ScaleScale(y, 0 - d, 0 - r);
    ScaleScale(y, exp - f.Bias() - t, -Quantum(f, x));
  }

  /** The rounded mantissa: a normal one keeps its hidden bit, possibly carrying out; a shifted one stays below it. */
  lemma UnitsRange(f: Format, rm: RoundingMode, neg: bool, exp: int, j: nat)
    requires f.Valid() && Pow2(Top(f)) <= j < Pow2(Top(f) + 1)
    ensures var n := RoundBits(rm, neg, ShiftJam(j, Excess(exp)), f.Rnd());
            if exp <= 0 then n <= Pow2(f.mant) else Pow2(f.mant) <= n <= Pow2(f.mant + 1)
  {
    hide Pow2, Shl, Shr, Low;
    var d, r := Excess(exp), f.Rnd();
    var j1 := ShiftJam(j, d);
    NoShift(j);
    Pow2Next(f.mant);
    var a := Addend(rm, neg, r);
    ShlPow2(f.mant, r);
    ShlPow2(f.mant + 1, r);
    if d == 0 {
      ShrOrder(j1, r, Pow2(f.mant));
      ShrOrder(j1, r, Pow2(f.mant + 1));
    } else {
      Pow2Mono(Top(f) + 1, Top(f) + d);
      ShiftJamBound(j, d, Top(f));
      ShrOrder(j1, r, Pow2(f.mant));
    }
    RoundBitsNear(rm, neg, j1, r);
  }

  lemma RoundBitsNear(rm: RoundingMode, neg: bool, j: nat, r: nat)
    requires r >= 1
    ensures Shr(j, r) <= RoundBits(rm, neg, j, r) <= Shr(j, r) + 1
  {
    JamExact(j, 0);
    RoundingIsExact(rm, neg, j as real, j, 0, r);
  }

  lemma OverflowTest(f: Format, rm: RoundingMode, neg: bool, exp: int, j: nat, y: real, g: nat)
    requires f.Valid() && Normalised(f, j, y, g)
    ensures Exactly(f, exp, y) > 0.0
    ensures var n := RoundBits(rm, neg, ShiftJam(j, Excess(exp)), f.Rnd());
            Overflows(f, rm, neg, Exactly(f, exp, y))
            <==> n >= Pow2(f.mant) && Floored(exp) + Shr(n, f.mant + 1) >= f.ExpMask()
  {
    hide Pow2, Shl, Shr, Low;
    var n := RoundBits(rm, neg, ShiftJam(j, Excess(exp)), f.Rnd());
    RoundedFromMantissa(f, rm, neg, exp, j, y, g);
    UnitsRange(f, rm, neg, exp, j);
    ExpMaskIsOdd(f);
    var e := Floored(exp);
    var k := f.ExpMask() + f.mant - e;
    Pow2Next(f.mant);
    ScaleMono1(f, n, e, k);
    CarryBit(n, f.mant + 1);
  }

  lemma CarryBit(n: nat, d: nat)
    requires n <= Pow2(d)
    ensures Shr(n, d) == if n == Pow2(d) then 1 else 0
    ensures Low(n, d) == if n == Pow2(d) then 0 else n
  {
    ShlOne(d);
    ShlAdd(1, 1, d);
    SplitUnique(n, d, if n == Pow2(d) then 1 else 0);
  }

  lemma Sixteen()
    ensures Pow2(4) == 16
  {
  }

  lemma ExpMaskIsOdd(f: Format)
    requires f.Valid()
    ensures f.ExpMask() == 2 * f.Bias() + 1 && f.ExpMask() >= 15
  {
    hide Pow2;
    Pow2Next(f.exp - 1);
    Pow2Mono(4, f.exp);
    Sixteen();
  }

  lemma ScaleMono1(f: Format, n: nat, e: int, k: int)
    requires f.Valid() && e >= 1 && k == f.ExpMask() + f.mant - e
    requires n <= Pow2(f.mant + 1) && (e > 1 ==> n >= Pow2(f.mant))
    ensures Scale(n as real, -k) >= 1.0
            <==> n >= Pow2(f.mant) && (e >= f.ExpMask() || (e == f.ExpMask() - 1 && n == Pow2(f.mant + 1)))
  {
    ExpMaskIsOdd(f);
    if e >= f.ExpMask() {
      ScaleAtLeastOne(n, f.mant);
      ScaleScale(n as real, 0 - f.mant, e - f.ExpMask());
      ScaleUp(Scale(n as real, 0 - f.mant), e - f.ExpMask());
    } else {
      ScaleAtLeastOne(n, k);
      Pow2Mono(f.mant + 1, k);
      Pow2Mono(f.mant, f.mant + 1);
    }
  }

  lemma {:induction false} ScaleUp(x: real, d: nat)
    requires x >= 1.0
    ensures Scale(x, d) >= 1.0
  {
    if d > 0 {
      ScaleUp(x, d - 1);
    }
  }

  lemma TinyScale(f: Format, rm: RoundingMode, neg: bool, exp: int, j: nat, y: real, g: nat)
    requires f.Valid() && Normalised(f, j, y, g)
    ensures Exactly(f, exp, y) > 0.0
    ensures Tiny(f, rm, neg, Exactly(f, exp, y))
            <==> Scale(RoundBits(rm, neg, j, f.Rnd()) as real, exp - 1 - f.mant) < 1.0
  {
    var x, r: int := Exactly(f, exp, y), f.Rnd();
    RoundedFromMantissa(f, rm, neg, exp, j, y, g);
    ScaleScale(y, exp - f.Bias() - Top(f), f.mant - Binade(x));
    RoundingIsExact(rm, neg, y, j, g, r);
  }

  lemma TinyTest(f: Format, rm: RoundingMode, neg: bool, exp: int, j: nat, y: real, g: nat)
    requires f.Valid() && Normalised(f, j, y, g)
    ensures Exactly(f, exp, y) > 0.0
    ensures Tiny(f, rm, neg, Exactly(f, exp, y))
            <==> exp <= 0 && (exp < 0 || j + Addend(rm, neg, f.Rnd()) < Pow2(Top(f) + 1))
  {
    hide Pow2, Shl, Shr, Low;
    hide Exactly;
    hide Jams;
    hide RoundReal;
    TinyScale(f, rm, neg, exp, j, y, g);
    var n := RoundBits(rm, neg, j, f.Rnd());
    UnitsRange(f, rm, neg, 1, j);
    NoShift(j);
    Pow2Next(f.mant);
    if exp >= 1 {
      ScaleAtLeastOne(n, f.mant);
      ScaleScale(n as real, 0 - f.mant, exp - 1);
      ScaleUp(Scale(n as real, 0 - f.mant), exp - 1);
    } else {
      var k := f.mant + 1 - exp;
      ScaleAtLeastOne(n, k);
      Pow2Mono(f.mant + 1, k);
      CarryOut(f, rm, neg, j);
    }
  }

  lemma CarryOut(f: Format, rm: RoundingMode, neg: bool, j: nat)
    requires f.Valid() && Pow2(Top(f)) <= j < Pow2(Top(f) + 1)
    ensures RoundBits(rm, neg, j, f.Rnd()) < Pow2(f.mant + 1) <==> j + Addend(rm, neg, f.Rnd()) < Pow2(Top(f) + 1)
  {
    var r := f.Rnd();
    ShlPow2(f.mant + 1, r);
    var q := Shr(j + Addend(rm, neg, r), r);
    ShrOrder(j + Addend(rm, neg, r), r, Pow2(f.mant + 1));
    EvenBelow(q, f.mant + 1);
  }

  lemma EvenBelow(q: nat, d: nat)
    requires d >= 1
    ensures q - q % 2 < Pow2(d) <==> q < Pow2(d)
  {
    assert Pow2(d) == 2 * Pow2(d - 1);
  }

  lemma PackedUnits(f: Format, rm: RoundingMode, sign: nat, exp: int, j: nat, y: real, g: nat)
    requires f.Valid() && Normalised(f, j, y, g) && sign <= 1
    ensures Exactly(f, exp, y) > 0.0
    ensures var n := RoundBits(rm, sign == 1, ShiftJam(j, Excess(exp)), f.Rnd());
            var e := if n < Pow2(f.mant) then 0 else Floored(exp) + Shr(n, f.mant + 1);
            e < f.ExpMask() ==> Delivers(f, rm, sign, Exactly(f, exp, y), Pack(f, sign, e, n))
  {
    hide Pow2, Shl, Shr, Low;
    hide Overflows;
    hide RoundReal;
    hide RoundBits;
    hide Exactly;
    hide Jams;
    var x := Exactly(f, exp, y);
    var n := RoundBits(rm, sign == 1, ShiftJam(j, Excess(exp)), f.Rnd());
    var e := if n < Pow2(f.mant) then 0 else Floored(exp) + Shr(n, f.mant + 1);
    RoundedFromMantissa(f, rm, sign == 1, exp, j, y, g);
    UnitsRange(f, rm, sign == 1, exp, j);
    if e < f.ExpMask() {
      OverflowTest(f, rm, sign == 1, exp, j, y, g);
      PackFields(f, sign, e, n);
      Pow2Next(f.mant);
      PackedMagnitude(f, sign, Floored(exp), n);
    }
  }

  lemma PackedMagnitude(f: Format, sign: nat, exp: nat, n: nat)
    requires f.Valid() && sign <= 1 && exp >= 1 && n <= Pow2(f.mant + 1) && (exp > 1 ==> n >= Pow2(f.mant))
    requires n >= Pow2(f.mant) ==> exp + Shr(n, f.mant + 1) < f.ExpMask()
    ensures Magnitude(f, Pack(f, sign, if n < Pow2(f.mant) then 0 else exp + Shr(n, f.mant + 1), n))
            == Scale(n as real, exp - f.Bias() - f.mant)
  {
    var e := if n < Pow2(f.mant) then 0 else exp + Shr(n, f.mant + 1);
    PackFields(f, sign, e, n);
    CarryBit(n, f.mant + 1);
    if n < Pow2(f.mant) {
      ShrSmall(n, f.mant);
    } else if n < Pow2(f.mant + 1) {
      ShlOne(f.mant);
      ShlAdd(1, 1, f.mant);
      SplitUnique(n, f.mant, 1);
    } else {
      ShlOne(f.mant);
      ShlAdd(1, 1, f.mant);
      ShlAdd(2, 1, f.mant);
      SplitUnique(n, f.mant, 2);
      ScaleScale(Pow2(f.mant) as real, 1, exp - f.Bias() - f.mant);
      ScaleInt(Pow2(f.mant), 1);
    }
  }

  /** The exact value, what the code computes from its jammed mantissa, and how they agree. */
  lemma RoundPackFacts(f: Format, rm: RoundingMode, sign: nat, exp: int, j: nat, y: real, g: nat)
    requires f.Valid() && Normalised(f, j, y, g) && sign <= 1
    ensures Exactly(f, exp, y) > 0.0
    ensures var x, j1 := Exactly(f, exp, y), ShiftJam(j, Excess(exp));
            var addend := Addend(rm, sign == 1, f.Rnd());
            var n := RoundBits(rm, sign == 1, j1, f.Rnd());
            var e := Floored(exp) + Shr(n, f.mant + 1);
            && (n < Pow2(f.mant) ==> Delivers(f, rm, sign, x, Pack(f, sign, 0, n)))
            && (n >= Pow2(f.mant) && e < f.ExpMask() ==> Delivers(f, rm, sign, x, Pack(f, sign, e, n)))
            && (n >= Pow2(f.mant) && e >= f.ExpMask() && addend == 0 ==>
                  Delivers(f, rm, sign, x, LargestFinite(f, sign)))
            && (n >= Pow2(f.mant) && e >= f.ExpMask() && addend != 0 ==>
                  Delivers(f, rm, sign, x, Infinity(f, sign)))
            && Raised(f, rm, sign == 1, x)
               == FlagsOf(n >= Pow2(f.mant) && e >= f.ExpMask(), Low(j1, f.Rnd()) != 0,
                          exp <= 0 && (exp < 0 || j + addend < Pow2(f.Size() - 1)))
  {
    hide Pow2, Shl, Shr, Low;
    hide Overflows;
    hide Exact;
    hide Tiny;
    hide RoundedUnits;
    hide Quantum;
    hide Exactly;
    hide Jams;
    hide Magnitude;
    hide RoundBits;
    hide IsWord;
    hide Pack;
    PackedUnits(f, rm, sign, exp, j, y, g);
    OverflowTest(f, rm, sign == 1, exp, j, y, g);
    TinyTest(f, rm, sign == 1, exp, j, y, g);
    RoundedFromMantissa(f, rm, sign == 1, exp, j, y, g);
    ExpMaskIsOdd(f);
    UnitsRange(f, rm, sign == 1, exp, j);
    AddendIsDirected(rm, sign == 1, f.Rnd());
    var n := RoundBits(rm, sign == 1, ShiftJam(j, Excess(exp)), f.Rnd());
    Pow2Next(f.mant);
    if exp <= 0 {
      CarryBit(n, f.mant + 1);
    }
  }

  /** Accumulated the way the code does: underflow first, then inexact, then overflow. */
  function FlagsOf(overflow: bool, inexact: bool, tiny: bool): Flags {
    Flags(false, false, overflow, tiny && inexact, inexact || overflow)
  }

  lemma RoundZero(rm: RoundingMode, neg: bool, d: nat, r: nat, m: nat)
    requires r >= 1
    ensures ShiftJam(0, d) == 0 && Low(0, r) == 0 && RoundBits(rm, neg, 0, r) == 0 && Shr(0, m) == 0
  {
    ShrSmall(0, d);
    ShrSmall(0, r);
    ShrSmall(0, m);
    ShrSmall(Addend(rm, neg, r), r);
  }

  lemma AddendIsDirected(rm: RoundingMode, neg: bool, r: nat)
    requires r >= 1
    ensures Addend(rm, neg, r) != 0 <==> AwayFromZero(rm, neg)
  {
  }

  /**
   What rounding and packing an internal value must give: y is the exact value the mantissa
   stands for (0 when the mantissa is 0).
   */
  ghost predicate Rounded(f: Format, rm: RoundingMode, sign: nat, exp: int, y: real, fflags: Flags,
                          r: nat, fl: Flags)
    requires f.Valid()
  {
    if y == 0.0 then
      r == Pack(f, sign, 0, 0) && fl == fflags
    else
      && Exactly(f, exp, y) > 0.0
      && Delivers(f, rm, sign, Exactly(f, exp, y), r)
      && fl == fflags.Or(Raised(f, rm, sign == 1, Exactly(f, exp, y)))
  }

  ghost predicate Internal(f: Format, j: nat, y: real, g: nat)
    requires f.Valid()
  {
    if j == 0 then y == 0.0 else Normalised(f, j, y, g)
  }

  lemma ShiftJamNone(j: nat)
    ensures ShiftJam(j, 0) == j
  {
  }

  lemma InternalIsWord(f: Format, j: nat)
    requires f.Valid() && j < Pow2(Top(f) + 1)
    ensures IsWord(f, j)
  {
    Pow2Next(Top(f) + 1);
  }

  /** What round_pack_sf computes, in terms of the integer rounding. */
  predicate Computed(f: Format, rm: RoundingMode, sign: nat, exp: int, j: nat, fflags: Flags, r: nat, fl: Flags)
    requires f.Valid()
  {
    var j1, addend := ShiftJam(j, Excess(exp)), Addend(rm, sign == 1, f.Rnd());
    var n := RoundBits(rm, sign == 1, j1, f.Rnd());
    var e := Floored(exp) + Shr(n, f.mant + 1);
    && r == (if n < Pow2(f.mant) then Pack(f, sign, 0, n)
             else if e < f.ExpMask() then Pack(f, sign, e, n)
             else if addend == 0 then LargestFinite(f, sign) else Infinity(f, sign))
    && fl == fflags.Or(FlagsOf(n >= Pow2(f.mant) && e >= f.ExpMask(), Low(j1, f.Rnd()) != 0,
                               exp <= 0 && (exp < 0 || j + addend < Pow2(f.Size() - 1))))
  }

  lemma ComputedIsRounded(f: Format, rm: RoundingMode, sign: nat, exp: int, j: nat, y: real, g: nat, fflags: Flags,
                          r: nat, fl: Flags)
    requires f.Valid() && Internal(f, j, y, g) && sign <= 1 && Computed(f, rm, sign, exp, j, fflags, r, fl)
    ensures Rounded(f, rm, sign, exp, y, fflags, r, fl)
  {
    hide Pow2, Shl, Shr, Low;
    hide Delivers;
    hide Raised;
    if j == 0 {
      RoundZero(rm, sign == 1, Excess(exp), f.Rnd(), f.mant + 1);
    } else {
      RoundPackFacts(f, rm, sign, exp, j, y, g);
      JamBinade(y, j, g, Top(f));
    }
  }

  lemma ComputedIsRoundedForAll(f: Format, rm: RoundingMode, sign: nat, exp: int, j: nat, n: nat, fflags: Flags,
                                r: nat, fl: Flags)
    requires f.Valid() && sign <= 1
    requires n == RoundBits(rm, sign == 1, ShiftJam(j, Excess(exp)), f.Rnd())
    requires var addend, e := Addend(rm, sign == 1, f.Rnd()), Floored(exp) + Shr(n, f.mant + 1);
             && r == (if n < Pow2(f.mant) then Pack(f, sign, 0, n)
                      else if e < f.ExpMask() then Pack(f, sign, e, n)
                      else if addend == 0 then LargestFinite(f, sign) else Infinity(f, sign))
             && fl == fflags.Or(FlagsOf(n >= Pow2(f.mant) && e >= f.ExpMask(),
                                        Low(ShiftJam(j, Excess(exp)), f.Rnd()) != 0,
                                        exp <= 0 && (exp < 0 || j + addend < Pow2(f.Size() - 1))))
    ensures forall y: real, g: nat :: Internal(f, j, y, g) ==> Rounded(f, rm, sign, exp, y, fflags, r, fl)
  {
    hide Internal, Rounded, Pow2, Shl, Shr, Low, RoundBits, Pack;
    forall y: real, g: nat | Internal(f, j, y, g)
      ensures Rounded(f, rm, sign, exp, y, fflags, r, fl)
    {
      ComputedIsRounded(f, rm, sign, exp, j, y, g, fflags, r, fl);
    }
  }

  /**
   round_pack_sf rounds correctly whatever exact value the mantissa stands for: g says how much of
   its tail may be a jam rather than exact bits.
   */
  method RoundPackSf(f: Format, aSign: nat, aExp: int, aMant: nat, rm: RoundingMode, fflags: Flags)
    returns (r: nat, fl: Flags)
    requires f.Valid() && aSign <= 1 && (aMant == 0 || Pow2(Top(f)) <= aMant < Pow2(Top(f) + 1))
    ensures forall y: real, g: nat :: Internal(f, aMant, y, g) ==> Rounded(f, rm, aSign, aExp, y, fflags, r, fl)
  {
    hide Internal, Rounded, RoundBits, ShiftJam, Pow2, Shl, Shr, Low, Pack, Addend, Format.ExpMask;
    InternalIsWord(f, aMant);
    ExpMaskIsOdd(f);
    ShiftJamNone(aMant);
    var rnd := f.Rnd();
    var addend := Addend(rm, aSign == 1, rnd);
    var mant: nat, exp: int, isSubnormal := aMant, aExp, false;
    if exp <= 0 {
      isSubnormal := exp < 0 || mant + addend < Pow2(f.Size() - 1);
      mant := RshiftRnd(f, mant, 1 - exp);
      exp := 1;
    }
    fl := fflags;
    if Low(mant, rnd) != 0 {
      fl := fl.Or(if isSubnormal then UNDERFLOW.Or(INEXACT) else INEXACT);
    }
    mant := RoundBits(rm, aSign == 1, mant, rnd);
    ghost var n := mant;
    exp := exp + Shr(mant, f.mant + 1);
    if mant < Pow2(f.mant) {
      exp := 0;
    } else if exp >= f.ExpMask() {
      if addend == 0 {
        exp := f.ExpMask() - 1;
        mant := Pow2(f.mant) - 1;
      } else {
        exp := f.ExpMask();
        mant := 0;
      }
      fl := fl.Or(OVERFLOW.Or(INEXACT));
    }
    r := Pack(f, aSign, exp, mant);
    ComputedIsRoundedForAll(f, rm, aSign, aExp, aMant, n, fflags, r, fl);
  }
}
