/**
 What correct rounding is, by the order of real numbers alone: sections 4.3 and 7 of IEEE 754-2019 without units,
 binades or integer parts. Everything that rounds to a value here is that.
 */
module Ieee {
  import opened Powers
  import opened Jamming
  import opened Rounding
  import opened SoftFormat
  import opened RoundPack
  import opened Normalize
  import opened Operands
  import opened Representable

  ghost function Power(k: int): real {
    Scale(1.0, k)
  }

  /** Some other finite word is equally near to v. */
  ghost predicate Ties(f: Format, v: real, r: nat, w: nat) {
    IsWord(f, w) && IsFinite(f, w) && Value(f, w) != Value(f, r) && Distance(Value(f, w), v) == Distance(Value(f, r), v)
  }

  ghost function Abs(v: real): real {
    if v < 0.0 then 0.0 - v else v
  }

  /**
   r is v rounded. To nearest: infinite from half a unit past the largest finite number on, else the nearest number, of
   two the one with an even significand or the one away from zero. Upward, downward and toward zero: the first number on
   that side, or the infinity there if no number is.
   */
  ghost predicate Correct(f: Format, rm: RoundingMode, v: real, r: nat) {
    && (IsFinite(f, r) || IsInf(f, r))
    && match rm
       case RUP =>
         if IsInf(f, r) then SignOf(f, r) == 0 && forall w: nat :: IsWord(f, w) && IsFinite(f, w) ==> Value(f, w) < v
         else
           Value(f, r) >= v
           && forall w: nat :: IsWord(f, w) && IsFinite(f, w) && Value(f, w) >= v ==> Value(f, w) >= Value(f, r)
       case RDN =>
         if IsInf(f, r) then SignOf(f, r) == 1 && forall w: nat :: IsWord(f, w) && IsFinite(f, w) ==> Value(f, w) > v
         else
           Value(f, r) <= v
           && forall w: nat :: IsWord(f, w) && IsFinite(f, w) && Value(f, w) <= v ==> Value(f, w) <= Value(f, r)
       case RTZ =>
         && IsFinite(f, r) && Abs(Value(f, r)) <= Abs(v)
         && (v > 0.0 ==> SignOf(f, r) == 0) && (v < 0.0 ==> SignOf(f, r) == 1)
         && forall w: nat :: IsWord(f, w) && IsFinite(f, w) && Abs(Value(f, w)) <= Abs(v) ==>
              Abs(Value(f, w)) <= Abs(Value(f, r))
       case _ =>
         if IsInf(f, r) then
           (SignOf(f, r) == if v < 0.0 then 1 else 0) && Abs(v) >= Power(f.Bias() + 1) - Power(f.Bias() - f.mant - 1)
         else
           && Abs(v) < Power(f.Bias() + 1) - Power(f.Bias() - f.mant - 1)
           && (forall w: nat :: IsWord(f, w) && IsFinite(f, w) ==> Distance(Value(f, r), v) <= Distance(Value(f, w), v))
           && (forall w: nat :: Ties(f, v, r, w) ==>
                 if rm == RNE then MantOf(f, r) % 2 == 0 else Abs(Value(f, r)) > Abs(Value(f, w)))
  }

  /** With mant + 1 significant bits and any exponent, the value of magnitude x rounds to 2^t or more. */
  ghost predicate AtLeast(rm: RoundingMode, neg: bool, mant: nat, x: real, t: int) {
    match rm
    case RTZ => x >= Power(t)
    case RDN => if neg then x > Power(t) - Power(t - 1 - mant) else x >= Power(t)
    case RUP => if neg then x >= Power(t) else x > Power(t) - Power(t - 1 - mant)
    case _ => x >= Power(t) - Power(t - 2 - mant)
  }

  /**
   The flags: overflow when the rounded value would need an exponent past the largest, inexact when the result is not v,
   underflow when it is not and v rounds below the least normal number, exponents unbounded. Others stay.
   */
  ghost predicate CorrectFlags(f: Format, rm: RoundingMode, v: real, fflags: Flags, r: nat, fl: Flags) {
    var inexact := !(IsFinite(f, r) && Value(f, r) == v);
    && fl.invalid == fflags.invalid && fl.divZero == fflags.divZero
    && (fl.overflow <==> fflags.overflow || (v != 0.0 && AtLeast(rm, v < 0.0, f.mant, Abs(v), f.Bias() + 1)))
    && (fl.inexact <==> fflags.inexact || inexact)
    && (fl.underflow <==>
          fflags.underflow || (inexact && v != 0.0 && !AtLeast(rm, v < 0.0, f.mant, Abs(v), 1 - f.Bias())))
  }

  /* ---- powers of two ---- */

  lemma PowerMono(a: int, b: int)
    requires a <= b
    ensures 0.0 < Power(a) <= Power(b)
  {
    hide Scale;
    ScaleZero(a);
    ScaleOrder(0.0, 1.0, a);
    ScaleZero(b);
    ScaleOrder(0.0, 1.0, b);
    ScaleScale(1.0, b, a - b);
    ScaleAtMost(Power(b), b - a);
  }

  lemma PowerNext(k: int)
    ensures Power(k + 1) == 2.0 * Power(k) > 0.0
  {
    ScaleNext(1.0, k);
    PowerMono(k, k);
  }

  lemma PowerInt(d: nat)
    ensures Power(d) == Pow2(d) as real
  {
    ScaleInt(1, d);
    ShlOne(d);
  }

  /** Comparing with a power of two, in units of 2^q. */
  lemma InUnits(x: real, k: int, q: int)
    ensures x < Power(k) <==> Scale(x, -q) < Power(k - q)
    ensures x == Power(k) <==> Scale(x, -q) == Power(k - q)
    ensures Scale(Power(k), -q) == Power(k - q)
  {
    hide Scale;
    ScaleScale(1.0, k, -q);
    ScaleOrder(x, Power(k), -q);
  }

  /** In units of its last place a value has mant + 1 bits before the point. */
  lemma UnitsRange(mant: nat, x: real)
    requires x > 0.0
    ensures Power(Binade(x)) <= x < Power(Binade(x) + 1)
    ensures Pow2(mant) as real <= Scale(x, -(Binade(x) - mant)) < 2.0 * Pow2(mant) as real
  {
    hide Scale, Binade, Pow2;
    var b := Binade(x);
    BinadeBound(x);
    InUnits(x, b, b);
    InUnits(x, b + 1, b);
    ScaleZeroIs(1.0);
    PowerNext(0);
    InUnits(x, b, b - mant);
    InUnits(x, b + 1, b - mant);
    PowerInt(mant);
    PowerNext(mant);
  }

  lemma RoundRealRange(rm: RoundingMode, neg: bool, y: real)
    ensures y - 1.0 < y.Floor as real <= RoundReal(rm, neg, y) as real <= y.Floor as real + 1.0
    ensures RoundReal(rm, neg, y) == y.Floor || RoundReal(rm, neg, y) == y.Floor + 1
  {
  }

  lemma BelowInteger(y: real, k: int)
    ensures y < k as real ==> y.Floor + 1 <= k
    ensures y >= k as real ==> y.Floor >= k
  {
  }

  /* ---- the thresholds ---- */

  /** Just below 2^t, in units of the last place: where each direction rounds up to it. */
  lemma ReachesFromBelow(rm: RoundingMode, neg: bool, mant: nat, x: real, t: int)
    requires x > 0.0 && Binade(x) == t - 1
    ensures RoundReal(rm, neg, Scale(x, -(t - 1 - mant))) >= 2 * Pow2(mant) <==> AtLeast(rm, neg, mant, x, t)
  {
    hide Scale, Binade, Pow2;
    var q := t - 1 - mant;
    var y, g := Scale(x, -q), 2 * Pow2(mant);
    UnitsRange(mant, x);
    PowerInt(mant);
    PowerNext(mant);
    ScaleZeroIs(1.0);
    PowerNext(-1);
    InUnits(x, t, q);
    InUnits(x, t - 1 - mant, q);
    InUnits(x, t - 2 - mant, q);
    ScaleLinear(Power(t), Power(t - 1 - mant), -q);
    ScaleLinear(Power(t), Power(t - 2 - mant), -q);
    ScaleOrder(x, Power(t) - Power(t - 1 - mant), -q);
    ScaleOrder(x, Power(t) - Power(t - 2 - mant), -q);
    TopUnit(rm, neg, y, g);
  }

  lemma TopUnit(rm: RoundingMode, neg: bool, y: real, g: int)
    requires y < g as real && g % 2 == 0
    ensures RoundReal(rm, neg, y) >= g <==>
            match rm
            case RTZ => false
            case RDN => neg && y > g as real - 1.0
            case RUP => !neg && y > g as real - 1.0
            case _ => y >= g as real - 0.5
  {
    var n := y.Floor;
    assert n <= g - 1;
    if n < g - 1 {
      assert y < (n + 1) as real <= g as real - 1.0;
    }
  }

  lemma ReachesPower(rm: RoundingMode, neg: bool, mant: nat, x: real, t: int)
    requires x > 0.0
    ensures var q := Binade(x) - mant;
            Scale(RoundReal(rm, neg, Scale(x, -q)) as real, q - t) >= 1.0 <==> AtLeast(rm, neg, mant, x, t)
  {
    hide Scale, Binade, Pow2, AtLeast, RoundReal;
    var b := Binade(x);
    var q := b - mant;
    var n := RoundReal(rm, neg, Scale(x, -q));
    UnitsRange(mant, x);
    RoundRealRange(rm, neg, Scale(x, -q));
    BelowInteger(Scale(x, -q), 2 * Pow2(mant));
    BelowInteger(Scale(x, -q), Pow2(mant));
    PowerInt(mant);
    if b == t - 1 {
      ReachesFromBelow(rm, neg, mant, x, t);
      ScaleAtLeastOne(n, mant + 1);
      Pow2Next(mant);
    } else if b >= t {
      ScaledUp(n, mant, b - t);
      PowerMono(t, b);
      LargeAtLeast(rm, neg, mant, x, t);
    } else {
      ScaledDown(n, mant, t - 1 - b);
      PowerMono(b + 1, t - 1);
      SmallNotAtLeast(rm, neg, mant, x, t);
    }
  }

  lemma ScaledUp(n: int, mant: nat, d: nat)
    requires n >= Pow2(mant)
    ensures Scale(n as real, d - mant) >= 1.0
  {
    hide Scale, Pow2;
    ScaleAtLeastOne(n, mant);
    ScaleScale(n as real, -(mant as int), d);
    ScaleOrder(1.0, Scale(n as real, -(mant as int)), d);
    PowerMono(0, d);
    ScaleZeroIs(1.0);
  }

  lemma ScaledDown(n: int, mant: nat, d: nat)
    requires n <= 2 * Pow2(mant) && d >= 1
    ensures Scale(n as real, -(mant as int) - 1 - d) < 1.0
  {
    hide Scale, Pow2;
    Pow2Next(mant);
    Pow2Next(mant + 1);
    Pow2Mono(mant + 2, mant + 1 + d);
    ScaleAtLeastOne(n, mant + 1 + d);
    PositivePow2(mant);
  }

  lemma PositivePow2(n: nat)
    ensures Pow2(n) >= 1
  {
  }

  lemma LargeAtLeast(rm: RoundingMode, neg: bool, mant: nat, x: real, t: int)
    requires x >= Power(t)
    ensures AtLeast(rm, neg, mant, x, t)
  {
    hide Scale;
    PowerMono(t - 1 - mant, t);
    PowerMono(t - 2 - mant, t);
  }

  lemma SmallNotAtLeast(rm: RoundingMode, neg: bool, mant: nat, x: real, t: int)
    requires x < Power(t - 1)
    ensures !AtLeast(rm, neg, mant, x, t)
  {
    hide Scale;
    PowerNext(t - 1);
    PowerMono(t - 1 - mant, t - 1);
    PowerMono(t - 2 - mant, t - 1);
  }

  /** In the subnormal range the unit is larger, and nothing overflows. */
  lemma SubnormalStays(f: Format, rm: RoundingMode, neg: bool, x: real)
    requires f.Valid() && x > 0.0 && Binade(x) < 1 - f.Bias()
    ensures !Overflows(f, rm, neg, x)
    ensures !AtLeast(rm, neg, f.mant, x, f.Bias() + 1)
  {
    hide Scale, Binade, Pow2, AtLeast, RoundReal, Format.Bias, Format.ExpMask;
    ExpMaskIsOdd(f);
    var e := 1 - f.Bias();
    var q := e - f.mant;
    var y := Scale(x, -q);
    UnitsRange(f.mant, x);
    PowerMono(Binade(x) + 1, e);
    InUnits(x, e, q);
    PowerInt(f.mant);
    RoundRealRange(rm, neg, y);
    BelowInteger(y, Pow2(f.mant));
    PositivePow2(f.mant);
    ScaledDown(RoundReal(rm, neg, y), f.mant, 2 * f.Bias() - 1);
    PowerMono(e, f.Bias());
    SmallNotAtLeast(rm, neg, f.mant, x, f.Bias() + 1);
  }

  /** Overflow, by the value alone. */
  lemma OverflowsWhen(f: Format, rm: RoundingMode, neg: bool, x: real)
    requires f.Valid() && x > 0.0
    ensures Overflows(f, rm, neg, x) <==> AtLeast(rm, neg, f.mant, x, f.Bias() + 1)
  {
    hide Scale, Binade, AtLeast, RoundReal, Format.Bias;
    if Binade(x) < 1 - f.Bias() {
      SubnormalStays(f, rm, neg, x);
    } else {
      ReachesPower(rm, neg, f.mant, x, f.Bias() + 1);
    }
  }

  /** Tininess, by the value alone. */
  lemma TinyWhen(f: Format, rm: RoundingMode, neg: bool, x: real)
    requires f.Valid() && x > 0.0
    ensures Tiny(f, rm, neg, x) <==> !AtLeast(rm, neg, f.mant, x, 1 - f.Bias())
  {
    hide Scale, Binade, AtLeast, RoundReal, Format.Bias;
    ReachesPower(rm, neg, f.mant, x, 1 - f.Bias());
  }

  /** Without overflow a value is exact when it is the number delivered. */
  lemma ExactWhen(f: Format, rm: RoundingMode, sign: nat, x: real, r: nat)
    requires f.Valid() && x > 0.0 && Delivers(f, rm, sign, x, r) && !Overflows(f, rm, sign == 1, x)
    ensures Exact(f, rm, sign == 1, x) <==> Magnitude(f, r) == x
  {
    hide Scale, Binade, RoundReal, Magnitude, Quantum, Overflows;
    var q := Quantum(f, x);
    var n := RoundedUnits(f, rm, sign == 1, x);
    ScaleScale(x, -q, q);
    ScaleZeroIs(x);
    ScaleOrder(Scale(x, -q), n as real, q);
  }

  /* ---- the largest numbers ---- */

  /** No finite word is larger than the largest. */
  lemma LargestIs(f: Format, sign: nat)
    requires f.Valid() && sign <= 1
    ensures var r := LargestFinite(f, sign);
            && IsWord(f, r) && IsFinite(f, r) && SignOf(f, r) == sign
            && Magnitude(f, r) == Power(f.Bias() + 1) - Power(f.Bias() - f.mant)
            && forall w: nat :: IsWord(f, w) && IsFinite(f, w) ==> Magnitude(f, w) <= Magnitude(f, r)
  {
    hide Scale, Pow2, Shl, Shr, Low, Format.Bias, Format.ExpMask, Magnitude;
    ExpMaskIsOdd(f);
    ExpMaskBelow(f);
    var r, e := LargestFinite(f, sign), f.ExpMask() - 1;
    PackFields(f, sign, e, Pow2(f.mant) - 1);
    ShlOne(0);
    PositivePow2(f.mant);
    LowWhole(Pow2(f.mant) - 1, f.mant);
    var s := 2 * Pow2(f.mant) - 1;
    MagnitudeOf(f, r);
    ScaleLinear(2.0 * Pow2(f.mant) as real, 1.0, e - f.Bias() - f.mant);
    PowerInt(f.mant);
    PowerNext(f.mant);
    ScaleScale(1.0, f.mant + 1, e - f.Bias() - f.mant);
    forall w: nat | IsWord(f, w) && IsFinite(f, w)
      ensures Magnitude(f, w) <= Magnitude(f, r)
    {
      BelowLargest(f, w, s);
    }
  }

  lemma ExpMaskBelow(f: Format)
    requires f.Valid()
    ensures f.ExpMask() < Pow2(f.exp)
  {
  }

  lemma LowWhole(a: nat, d: nat)
    requires a < Pow2(d)
    ensures Low(a, d) == a
  {
    hide Pow2, Shl, Shr, Low;
    TwoFields(0, a, d);
    ShlOne(d);
  }

  lemma MagnitudeOf(f: Format, a: nat)
    ensures Magnitude(f, a) == Scale(Significand(f, a) as real, Exponent(f, a) - f.Bias() - f.mant)
  {
  }

  lemma BelowLargest(f: Format, w: nat, s: nat)
    requires f.Valid() && IsWord(f, w) && IsFinite(f, w) && s == 2 * Pow2(f.mant) - 1
    ensures Magnitude(f, w) <= Scale(s as real, f.ExpMask() - 1 - f.Bias() - f.mant)
  {
    hide Scale, Pow2, Shl, Shr, Low, Format.Bias, Format.ExpMask, Significand, Exponent, Magnitude;
    MagnitudeOf(f, w);
    SignificandBound(f, w);
    ExponentBelow(f, w);
    var d := f.ExpMask() - 1 - Exponent(f, w);
    var e := Exponent(f, w) - f.Bias() - f.mant;
    ScaleOrder(Significand(f, w) as real, s as real, e);
    ScaleScale(s as real, f.ExpMask() - 1 - f.Bias() - f.mant, -(d as int));
    ScaleZero(f.ExpMask() - 1 - f.Bias() - f.mant);
    ScaleOrder(0.0, s as real, f.ExpMask() - 1 - f.Bias() - f.mant);
    ScaleAtMost(Scale(s as real, f.ExpMask() - 1 - f.Bias() - f.mant), d);
  }

  lemma InfinityIs(f: Format, sign: nat)
    requires f.Valid() && sign <= 1
    ensures var r := Infinity(f, sign); IsWord(f, r) && IsInf(f, r) && !IsFinite(f, r) && SignOf(f, r) == sign
  {
    hide Scale, Pow2, Shl, Shr, Low, Format.ExpMask;
    ExpMaskIsOdd(f);
    ExpMaskBelow(f);
    PackFields(f, sign, f.ExpMask(), 0);
    PositivePow2(f.mant);
    LowWhole(0, f.mant);
  }

  /* ---- ties ---- */

  /** A number other than the nearest integer, and just as far, is the integer on the other side of a half. */
  lemma TieInteger(rm: RoundingMode, neg: bool, y: real, k: int)
    requires rm == RNE || rm == RMM
    requires k != RoundReal(rm, neg, y) && Distance(k as real, y) == Distance(RoundReal(rm, neg, y) as real, y)
    ensures if rm == RNE then RoundReal(rm, neg, y) % 2 == 0 else RoundReal(rm, neg, y) > k
  {
    var n := y.Floor;
    assert k <= n || k >= n + 1;
  }

  /** The significand of a number is the count of its units, but where that is the next power of two. */
  lemma UnitsAreSignificand(f: Format, r: nat, n: int, q: int)
    requires f.Valid() && IsWord(f, r) && IsFinite(f, r) && Magnitude(f, r) == Scale(n as real, q)
    requires 0 <= n <= 2 * Pow2(f.mant) && q >= 1 - f.Bias() - f.mant && (q > 1 - f.Bias() - f.mant ==> n >= Pow2(f.mant))
    requires n % 2 == 0
    ensures MantOf(f, r) % 2 == 0
  {
    hide Scale, Pow2, Shl, Shr, Low, Format.Bias, Format.ExpMask, Magnitude, Exponent, Significand;
    var s, e := Significand(f, r), Exponent(f, r) - f.Bias() - f.mant;
    MagnitudeOf(f, r);
    SignificandBound(f, r);
    ExponentBelow(f, r);
    SignificandParity(f, r);
    Pow2Next(f.mant);
    if e > q {
      ScaleBack(s, e, n, q);
      ShlAtLeast(s, e - q);
      NormalSignificand(f, r);
    } else if e == q {
      ScaleOrder(s as real, n as real, q);
    } else {
      ScaleBack(n, q, s, e);
      ShlAtLeast(n, q - e);
    }
  }

  lemma ScaleBack(a: nat, k: int, b: int, q: int)
    requires k >= q && Scale(a as real, k) == Scale(b as real, q)
    ensures Shl(a, k - q) == b
  {
    hide Scale, Shl;
    ScaleScale(a as real, k, -q);
    ScaleScale(b as real, q, -q);
    ScaleZeroIs(b as real);
    ScaleInt(a, k - q);
  }

  lemma ShlAtLeast(a: nat, d: nat)
    requires d >= 1
    ensures Shl(a, d) >= 2 * a && Shl(a, d) % 2 == 0
    decreases d
  {
    if d > 1 {
      ShlAtLeast(a, d - 1);
    } else {
      assert Shl(a, 1) == 2 * Shl(a, 0);
    }
  }

  lemma SignificandParity(f: Format, r: nat)
    requires f.Valid()
    ensures Significand(f, r) % 2 == MantOf(f, r) % 2
    ensures Significand(f, r) == Pow2(f.mant) ==> MantOf(f, r) == 0
  {
    hide Shl, Shr, Low;
    Pow2Next(f.mant - 1);
    assert ExpOf(f, r) == 0 ==> MantOf(f, r) < Pow2(f.mant) by {
      Split(r, f.mant);
    }
  }

  /** Above the least exponent the hidden bit is there. */
  lemma NormalSignificand(f: Format, r: nat)
    requires f.Valid()
    ensures Exponent(f, r) > 1 ==> Significand(f, r) >= Pow2(f.mant)
  {
    hide Shl, Shr, Low;
  }

  lemma TieGoesTo(f: Format, rm: RoundingMode, sign: nat, x: real, r: nat, w: nat)
    requires f.Valid() && x > 0.0 && Delivers(f, rm, sign, x, r) && !Overflows(f, rm, sign == 1, x)
    requires rm == RNE || rm == RMM
    requires IsWord(f, w) && IsFinite(f, w) && Magnitude(f, w) != Magnitude(f, r)
    requires Distance(Magnitude(f, w), x) == Distance(Magnitude(f, r), x)
    ensures if rm == RNE then MantOf(f, r) % 2 == 0 else Magnitude(f, r) > Magnitude(f, w)
  {
    hide Scale, Pow2, Shl, Shr, Low, Format.Bias, Format.ExpMask, Magnitude, Binade, RoundReal, Quantum, Overflows;
    var q := Quantum(f, x);
    var y, z := Scale(x, -q), Scale(Magnitude(f, w), -q);
    var n := RoundReal(rm, sign == 1, y);
    TieUnits(x, n, Magnitude(f, w), q);
    var k := WordOnGrid(f, w, q);
    QuantumRange(f, x);
    if z == k as real {
      TieInteger(rm, sign == 1, y, k);
      RoundRealRange(rm, sign == 1, y);
      BelowInteger(y, 2 * Pow2(f.mant));
      BelowInteger(y, Pow2(f.mant));
      BelowInteger(y, 0);
      PositivePow2(f.mant);
      if rm == RNE {
        UnitsAreSignificand(f, r, n, q);
      }
    } else {
      ExponentBelow(f, w);
      NoBetterInteger(rm, sign == 1, y, Pow2(f.mant));
    }
  }

  lemma QuantumRange(f: Format, x: real)
    requires f.Valid() && x > 0.0
    ensures var q := Quantum(f, x);
            && q >= 1 - f.Bias() - f.mant && 0.0 < Scale(x, -q) < 2.0 * Pow2(f.mant) as real
            && (q > 1 - f.Bias() - f.mant ==> Scale(x, -q) >= Pow2(f.mant) as real)
  {
    hide Scale, Pow2, Binade, Format.Bias, Format.ExpMask;
    var q, e := Quantum(f, x), 1 - f.Bias();
    UnitsRange(f.mant, x);
    ScaleZero(-q);
    ScaleOrder(0.0, x, -q);
    if Binade(x) < e {
      PowerMono(Binade(x) + 1, e);
      InUnits(x, e, q);
      PowerInt(f.mant);
    }
  }

  /** The comparison of distances, in units. */
  lemma TieUnits(x: real, n: int, b: real, q: int)
    ensures var y, z, a := Scale(x, -q), Scale(b, -q), Scale(n as real, q);
            && (Distance(b, x) == Distance(a, x) <==> Distance(z, y) == Distance(n as real, y))
            && (b == a <==> z == n as real) && (a > b <==> n as real > z)
  {
    hide Scale;
    var y, z, a := Scale(x, -q), Scale(b, -q), Scale(n as real, q);
    ScaleScale(n as real, q, -q);
    ScaleZeroIs(n as real);
    ScaleOrder(a, b, -q);
    ScaleOrder(b, a, -q);
    ScaleOrder(a, x, -q);
    ScaleOrder(b, x, -q);
    ScaleLinear(a, x, -q);
    ScaleLinear(x, a, -q);
    ScaleLinear(b, x, -q);
    ScaleLinear(x, b, -q);
    ScaleOrder(Distance(b, x), Distance(a, x), -q);
  }

  /* ---- signed values ---- */

  lemma ValueOf(f: Format, w: nat)
    requires f.Valid() && IsWord(f, w)
    ensures Magnitude(f, w) >= 0.0 && SignOf(f, w) <= 1
    ensures Value(f, w) == if SignOf(f, w) == 1 then 0.0 - Magnitude(f, w) else Magnitude(f, w)
  {
    hide Scale, Pow2, Shl, Shr, Low, Format.Bias, Format.ExpMask, Exponent;
    FieldsOf(f, w);
    var s, e := Significand(f, w), Exponent(f, w) - f.Bias() - f.mant;
    ScaleZero(e);
    ScaleOrder(s as real, 0.0, e);
  }

  /** What an overflow delivers. */
  lemma OverflowCorrect(f: Format, rm: RoundingMode, v: real, r: nat)
    requires f.Valid() && v != 0.0
    requires var sign := if v < 0.0 then 1 else 0;
             Delivers(f, rm, sign, Abs(v), r) && Overflows(f, rm, sign == 1, Abs(v))
    ensures IsWord(f, r) && Correct(f, rm, v, r)
    ensures !(IsFinite(f, r) && Value(f, r) == v)
  {
    hide Scale, Pow2, Shl, Shr, Low, Format.Bias, Format.ExpMask, Value, Magnitude, Overflows, LargestFinite, Infinity,
         IsFinite, IsInf, SignOf, IsWord, MantOf, Ties, Distance;
    var sign := if v < 0.0 then 1 else 0;
    OverflowsWhen(f, rm, sign == 1, Abs(v));
    LargestIs(f, sign);
    InfinityIs(f, sign);
    PowerNext(f.Bias());
    PowerMono(f.Bias() - f.mant, f.Bias());
    ValueOf(f, r);
    forall w: nat | IsWord(f, w) && IsFinite(f, w)
      ensures Abs(Value(f, w)) == Magnitude(f, w) && Magnitude(f, w) <= Magnitude(f, LargestFinite(f, sign))
    {
      ValueOf(f, w);
    }
    FiniteOrNot(f, r);
  }

  lemma FiniteOrNot(f: Format, r: nat)
    ensures !(IsFinite(f, r) && IsInf(f, r))
  {
  }

  /** What is delivered otherwise: a directed mode. */
  lemma DirectedCorrect(f: Format, rm: RoundingMode, v: real, r: nat)
    requires f.Valid() && v != 0.0 && rm != RNE && rm != RMM
    requires var sign := if v < 0.0 then 1 else 0;
             Delivers(f, rm, sign, Abs(v), r) && !Overflows(f, rm, sign == 1, Abs(v))
    ensures IsWord(f, r) && Correct(f, rm, v, r)
  {
    hide Scale, Pow2, Shl, Shr, Low, Format.Bias, Format.ExpMask, Value, Magnitude, Overflows, Quantum, RoundedUnits,
         IsFinite, IsInf, SignOf, IsWord, MantOf, Ties, Distance;
    var sign := if v < 0.0 then 1 else 0;
    ValueOf(f, r);
    FiniteOrNot(f, r);
    ZeroWord(f);
    DeliveredIsBest(f, rm, sign, Abs(v), r, 0);
    forall w: nat | IsWord(f, w) && IsFinite(f, w)
      ensures NoBetter(rm, sign == 1, Abs(v), Magnitude(f, r), Magnitude(f, w))
      ensures Magnitude(f, w) >= 0.0 && (Value(f, w) == Magnitude(f, w) || Value(f, w) == 0.0 - Magnitude(f, w))
    {
      ValueOf(f, w);
      DeliveredIsBest(f, rm, sign, Abs(v), r, w);
    }
  }

  /** The word zero is a finite number. */
  lemma ZeroWord(f: Format)
    requires f.Valid()
    ensures IsWord(f, 0) && IsFinite(f, 0)
  {
    hide Pow2, Shl, Shr, Low;
    ExpMaskIsOdd(f);
    PositivePow2(f.Size());
    PositivePow2(f.exp);
    ShrSmall(0, f.mant);
    LowWhole(0, f.exp);
  }

  /** And to nearest. */
  lemma NearestCorrect(f: Format, rm: RoundingMode, v: real, r: nat)
    requires f.Valid() && v != 0.0 && (rm == RNE || rm == RMM)
    requires var sign := if v < 0.0 then 1 else 0;
             Delivers(f, rm, sign, Abs(v), r) && !Overflows(f, rm, sign == 1, Abs(v))
    ensures IsWord(f, r) && Correct(f, rm, v, r)
  {
    hide Scale, Pow2, Shl, Shr, Low, Format.Bias, Format.ExpMask, Value, Magnitude, Overflows, Quantum, RoundedUnits,
         IsFinite, IsInf, SignOf, IsWord, MantOf, Ties;
    var sign := if v < 0.0 then 1 else 0;
    OverflowsWhen(f, rm, sign == 1, Abs(v));
    ValueOf(f, r);
    FiniteOrNot(f, r);
    forall w: nat | IsWord(f, w) && IsFinite(f, w)
      ensures Distance(Value(f, r), v) <= Distance(Value(f, w), v)
    {
      ValueOf(f, w);
      DeliveredIsBest(f, rm, sign, Abs(v), r, w);
    }
    forall w: nat | Ties(f, v, r, w)
      ensures if rm == RNE then MantOf(f, r) % 2 == 0 else Abs(Value(f, r)) > Abs(Value(f, w))
    {
      SignedTie(f, rm, v, sign, r, w);
    }
  }

  /** Two numbers on either side of zero do not tie for a value that is not zero, or they are zero's neighbours. */
  lemma SignedTie(f: Format, rm: RoundingMode, v: real, sign: nat, r: nat, w: nat)
    requires f.Valid() && v != 0.0 && (rm == RNE || rm == RMM) && sign == if v < 0.0 then 1 else 0
    requires Delivers(f, rm, sign, Abs(v), r) && !Overflows(f, rm, sign == 1, Abs(v)) && Ties(f, v, r, w)
    ensures if rm == RNE then MantOf(f, r) % 2 == 0 else Abs(Value(f, r)) > Abs(Value(f, w))
  {
    hide Scale, Pow2, Shl, Shr, Low, Format.Bias, Format.ExpMask, Value, Magnitude, Overflows, Quantum, RoundedUnits,
         IsFinite, IsInf, SignOf, IsWord, MantOf;
    ValueOf(f, r);
    ValueOf(f, w);
    if SignOf(f, w) == sign || Magnitude(f, w) == 0.0 {
      TieGoesTo(f, rm, sign, Abs(v), r, w);
    } else {
      OppositeTie(f, rm, v, sign, r, w);
    }
  }

  /** A number of the other sign is farther than zero, which the delivered number is no farther than. */
  lemma OppositeTie(f: Format, rm: RoundingMode, v: real, sign: nat, r: nat, w: nat)
    requires f.Valid() && v != 0.0 && (rm == RNE || rm == RMM) && sign == if v < 0.0 then 1 else 0
    requires Delivers(f, rm, sign, Abs(v), r) && !Overflows(f, rm, sign == 1, Abs(v))
    requires IsWord(f, w) && IsFinite(f, w) && SignOf(f, w) != sign && Magnitude(f, w) != 0.0
    ensures Distance(Value(f, w), v) != Distance(Value(f, r), v)
  {
    hide Scale, Pow2, Shl, Shr, Low, Format.Bias, Format.ExpMask, Value, Magnitude, Overflows, Quantum, RoundedUnits,
         IsFinite, IsInf, SignOf, IsWord, MantOf;
    ValueOf(f, r);
    ValueOf(f, w);
    ZeroWord(f);
    ZeroValue(f);
    DeliveredIsBest(f, rm, sign, Abs(v), r, 0);
  }

  lemma ZeroValue(f: Format)
    requires f.Valid()
    ensures Magnitude(f, 0) == 0.0
  {
    hide Pow2, Shl, Shr, Low, Format.ExpMask, Magnitude;
    PositivePow2(f.mant);
    PositivePow2(f.exp);
    ShrSmall(0, f.mant);
    LowWhole(0, f.exp);
    LowWhole(0, f.mant);
    ZeroMagnitude(f, 0);
  }

  /**
   Whatever the format, the direction and the value: a word that `RoundsTo` accepts is the correct rounding, with the
   correct flags.
   */
  lemma RoundsCorrectly(f: Format, rm: RoundingMode, v: real, zeroSign: nat, fflags: Flags, r: nat, fl: Flags)
    requires f.Valid() && zeroSign <= 1 && RoundsTo(f, rm, v, zeroSign, fflags, r, fl)
    ensures IsWord(f, r) && Correct(f, rm, v, r) && CorrectFlags(f, rm, v, fflags, r, fl)
  {
    hide Scale, Pow2, Shl, Shr, Low, Format.Bias, Format.ExpMask, Delivers, Raised, Correct, CorrectFlags;
    if v == 0.0 {
      ZeroCorrect(f, rm, zeroSign, fflags, r);
    } else {
      var sign := if v < 0.0 then 1 else 0;
      if Overflows(f, rm, sign == 1, Abs(v)) {
        OverflowCorrect(f, rm, v, r);
      } else if rm == RNE || rm == RMM {
        NearestCorrect(f, rm, v, r);
      } else {
        DirectedCorrect(f, rm, v, r);
      }
      FlagsCorrect(f, rm, v, fflags, r, fl);
    }
  }

  lemma FlagsCorrect(f: Format, rm: RoundingMode, v: real, fflags: Flags, r: nat, fl: Flags)
    requires f.Valid() && v != 0.0
    requires var sign := if v < 0.0 then 1 else 0;
             Delivers(f, rm, sign, Abs(v), r) && fl == fflags.Or(Raised(f, rm, sign == 1, Abs(v)))
    ensures CorrectFlags(f, rm, v, fflags, r, fl)
  {
    hide Scale, Pow2, Shl, Shr, Low, Format.Bias, Format.ExpMask, Magnitude, Value, Overflows, Tiny, Exact, AtLeast,
         Delivers, IsFinite, IsInf, SignOf, IsWord, Correct, Raised, Flags.Or;
    var sign := if v < 0.0 then 1 else 0;
    RaisedBits(f, rm, sign == 1, Abs(v), fflags);
    OverflowsWhen(f, rm, sign == 1, Abs(v));
    TinyWhen(f, rm, sign == 1, Abs(v));
    if Overflows(f, rm, sign == 1, Abs(v)) {
      OverflowCorrect(f, rm, v, r);
      OverflowIsNotTiny(f, rm, sign == 1, Abs(v));
    } else {
      ExactSigned(f, rm, v, sign, r);
    }
  }

  lemma RaisedBits(f: Format, rm: RoundingMode, neg: bool, x: real, fflags: Flags)
    requires x > 0.0
    ensures var fl := fflags.Or(Raised(f, rm, neg, x));
            && fl.invalid == fflags.invalid && fl.divZero == fflags.divZero
            && (fl.overflow <==> fflags.overflow || Overflows(f, rm, neg, x))
            && (fl.inexact <==> fflags.inexact || Overflows(f, rm, neg, x) || !Exact(f, rm, neg, x))
            && (fl.underflow <==>
                  fflags.underflow || (!Overflows(f, rm, neg, x) && !Exact(f, rm, neg, x) && Tiny(f, rm, neg, x)))
  {
    hide Overflows, Tiny, Exact;
  }

  lemma ExactSigned(f: Format, rm: RoundingMode, v: real, sign: nat, r: nat)
    requires f.Valid() && v != 0.0 && sign == if v < 0.0 then 1 else 0
    requires Delivers(f, rm, sign, Abs(v), r) && !Overflows(f, rm, sign == 1, Abs(v))
    ensures Exact(f, rm, sign == 1, Abs(v)) <==> IsFinite(f, r) && Value(f, r) == v
  {
    hide Scale, Pow2, Shl, Shr, Low, Format.Bias, Format.ExpMask, Magnitude, Value, Overflows, Exact, Quantum,
         RoundedUnits, IsFinite, SignOf, IsWord;
    ExactWhen(f, rm, sign, Abs(v), r);
    ValueOf(f, r);
  }

  lemma OverflowIsNotTiny(f: Format, rm: RoundingMode, neg: bool, x: real)
    requires f.Valid() && AtLeast(rm, neg, f.mant, x, f.Bias() + 1)
    ensures AtLeast(rm, neg, f.mant, x, 1 - f.Bias())
  {
    hide Scale, Format.Bias, Format.ExpMask;
    ExpMaskIsOdd(f);
    PowerNext(f.Bias());
    PowerMono(f.Bias() - f.mant, f.Bias());
    PowerMono(f.Bias() - f.mant - 1, f.Bias());
    PowerMono(1 - f.Bias(), f.Bias());
    LargeAtLeast(rm, neg, f.mant, x, 1 - f.Bias());
  }

  lemma ZeroCorrect(f: Format, rm: RoundingMode, zeroSign: nat, fflags: Flags, r: nat)
    requires f.Valid() && zeroSign <= 1 && r == Pack(f, zeroSign, 0, 0)
    ensures IsWord(f, r) && Correct(f, rm, 0.0, r) && CorrectFlags(f, rm, 0.0, fflags, r, fflags)
  {
    hide Scale, Pow2, Shl, Shr, Low, Format.Bias, Format.ExpMask, Value;
    PositivePow2(f.exp);
    PositivePow2(f.mant);
    PackFields(f, zeroSign, 0, 0);
    LowWhole(0, f.mant);
    ExpMaskIsOdd(f);
    ZeroMagnitude(f, r);
    PowerNext(f.Bias());
    PowerMono(f.Bias() - f.mant - 1, f.Bias());
  }
}
