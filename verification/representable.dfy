/** Rounding leaves representable values alone. */
module Representable {
  import opened Powers
  import opened Jamming
  import opened Rounding
  import opened SoftFormat
  import opened RoundPack
  import opened Normalize
  import opened Operands

  lemma RoundInteger(rm: RoundingMode, neg: bool, n: int)
    ensures RoundReal(rm, neg, n as real) == n
  {
    assert (n as real).Floor == n;
  }

  /** Around a finite word's own value the format's quantum is the word's. */
  lemma OwnQuantum(f: Format, c: nat)
    requires f.Valid() && IsWord(f, c) && IsFinite(f, c) && !IsZero(f, c)
    ensures Magnitude(f, c) > 0.0
    ensures Quantum(f, Magnitude(f, c)) == Exponent(f, c) - f.Bias() - f.mant
    ensures Significand(f, c) < 2 * Pow2(f.mant)
  {
    hide Pow2, Shl, Shr, Low, Scale, Format.ExpMask, Format.Bias, Binade;
    FieldsOf(f, c);
    Pow2Next(f.mant);
    if ExpOf(f, c) == 0 {
      var m := MantOf(f, c);
      var n := BitLen(m) - 1;
      BitLenRange(m);
      BitLenBound(m, f.mant);
      BinadeFromMantissa(m as real, n, 1 - f.Bias() - f.mant + n);
    } else {
      BinadeFromMantissa(Significand(f, c) as real, f.mant, ExpOf(f, c) - f.Bias());
    }
  }

  /** Rounding a finite word's own value, in any direction, gives the word back and raises nothing. */
  lemma RoundingRepresentable(f: Format, rm: RoundingMode, c: nat, fflags: Flags)
    requires f.Valid() && IsWord(f, c) && IsFinite(f, c) && !IsZero(f, c)
    ensures forall zeroSign: nat :: RoundsTo(f, rm, Value(f, c), zeroSign, fflags, c, fflags)
  {
    hide Pow2, Shl, Shr, Low, Scale, Format.ExpMask, Format.Bias, Binade, RoundReal, Quantum, Significand, Exponent;
    FieldsOf(f, c);
    OwnQuantum(f, c);
    var x, neg, q, s := Magnitude(f, c), SignOf(f, c) == 1, Quantum(f, Magnitude(f, c)), Significand(f, c);
    RoundInteger(rm, neg, s);
    ScaleScale(s as real, q, -q);
    ScaleZeroIs(s as real);
    ExpMaskIsOdd(f);
    ExponentBelow(f, c);
    var d := f.ExpMask() - Exponent(f, c) + f.mant;
    ScaleAtLeastOne(s, d);
    Pow2Next(f.mant);
    Pow2Mono(f.mant + 1, d);
  }

  lemma ExponentBelow(f: Format, c: nat)
    requires f.Valid() && IsWord(f, c) && IsFinite(f, c)
    ensures 1 <= Exponent(f, c) < f.ExpMask()
  {
    hide Shl, Shr, Low;
    FieldsOf(f, c);
    ExpMaskIsOdd(f);
  }

  lemma ScaleZeroIs(x: real)
    ensures Scale(x, 0) == x
  {
  }

  lemma ScaleTwice(x: real)
    ensures Scale(x, 1) == 2.0 * x
  {
  }

  lemma {:induction false} BinadeBound(x: real)
    requires x > 0.0
    ensures InBinade(x, Binade(x))
    decreases if x >= 1.0 then x.Floor else (1.0 / x).Floor
  {
    hide Scale;
    ScaleZeroIs(x);
    ScaleTwice(x);
    if x >= 2.0 {
      BinadeBound(x / 2.0);
      HalfAndTwice(x, Binade(x));
    } else if 2.0 * x >= 1.0 {
    } else {
      DoubledInverse(x);
      BinadeBound(2.0 * x);
      HalfAndTwice(x, Binade(x));
    }
  }

  lemma HalfAndTwice(x: real, e: int)
    ensures Scale(x / 2.0, -(e - 1)) == Scale(x, -e) == Scale(2.0 * x, -(e + 1))
  {
    ScaleScale(x, -1, -(e - 1));
    ScaleScale(x, 1, -(e + 1));
    assert Scale(x, -1) == x / 2.0 && Scale(x, 1) == 2.0 * x;
  }

  ghost function Distance(a: real, b: real): real {
    if a < b then b - a else a - b
  }

  /**
   Among candidates, n is the right rounding of y: the nearest one when rounding to nearest, else the
   first one on the side the direction asks for.
   */
  ghost predicate NoBetter(rm: RoundingMode, neg: bool, y: real, n: real, candidate: real) {
    if rm == RNE || rm == RMM then
      Distance(n, y) <= Distance(candidate, y)
    else if AwayFromZero(rm, neg) then
      n >= y && (candidate >= y ==> candidate >= n)
    else
      n <= y && (candidate <= y ==> candidate <= n)
  }

  lemma NoBetterInteger(rm: RoundingMode, neg: bool, y: real, k: int)
    ensures NoBetter(rm, neg, y, RoundReal(rm, neg, y) as real, k as real)
  {
    var n := y.Floor;
    assert k <= n || k >= n + 1;
  }

  lemma NoBetterScaled(rm: RoundingMode, neg: bool, y: real, n: real, z: real, q: int)
    ensures NoBetter(rm, neg, y, n, z) <==> NoBetter(rm, neg, Scale(y, q), Scale(n, q), Scale(z, q))
  {
    ScaleLinear(y, n, q);
    ScaleLinear(n, y, q);
    ScaleLinear(z, y, q);
    ScaleLinear(y, z, q);
    ScaleOrder(n, y, q);
    ScaleOrder(z, y, q);
    ScaleOrder(z, n, q);
    ScaleOrder(y, n, q);
    ScaleOrder(y, z, q);
    ScaleOrder(n, z, q);
    ScaleOrder(Distance(n, y), Distance(z, y), q);
  }

  /** A word's magnitude, counted in units 2^q: an integer, or else below 2^MANT_SIZE. */
  lemma WordOnGrid(f: Format, w: nat, q: int) returns (k: int)
    requires f.Valid() && IsWord(f, w) && IsFinite(f, w)
    ensures Scale(Magnitude(f, w), -q) == k as real
            || (q > Exponent(f, w) - f.Bias() - f.mant && Scale(Magnitude(f, w), -q) < Pow2(f.mant) as real)
  {
    hide Pow2, Shl, Shr, Low, Scale, Format.ExpMask, Format.Bias, Exponent;
    var s, e := Significand(f, w), Exponent(f, w) - f.Bias() - f.mant;
    ScaleScale(s as real, e, -q);
    k := 0;
    if e >= q {
      k := Shl(s, e - q);
      ScaleInt(s, e - q);
    } else {
      SignificandBound(f, w);
      Pow2Next(f.mant);
      ScaleOrder(s as real, 2.0 * Pow2(f.mant) as real, e - q);
      ScaleInt(Pow2(f.mant), 1);
      DoubleIs(Pow2(f.mant));
      ScaleScale(Pow2(f.mant) as real, 1, e - q);
      ScaleAtMost(Pow2(f.mant) as real, q - e - 1);
    }
  }

  lemma SignificandBound(f: Format, w: nat)
    requires f.Valid()
    ensures Significand(f, w) < 2 * Pow2(f.mant)
  {
    hide Pow2, Shl, Shr, Low;
    Split(w, f.mant);
  }

  lemma {:induction false} ScaleAtMost(x: real, d: nat)
    requires x >= 0.0
    ensures Scale(x, -(d as int)) <= x && Scale(x, -(d as int)) >= 0.0
  {
    if d > 0 {
      ScaleAtMost(x, d - 1);
    }
  }

  /** Above the subnormals a magnitude is at least 2^MANT_SIZE of its units. */
  lemma UnitsAtLeast(f: Format, x: real)
    requires f.Valid() && x > 0.0 && Quantum(f, x) > 1 - f.Bias() - f.mant
    ensures Scale(x, -Quantum(f, x)) >= Pow2(f.mant) as real
  {
    hide Pow2, Shl, Scale, Binade, Format.Bias;
    BinadeBound(x);
    ScaleScale(x, -Binade(x), f.mant);
    ScaleOrder(1.0, Scale(x, -Binade(x)), f.mant);
    ScaleInt(1, f.mant);
    ShlOne(f.mant);
  }

  /**
   The delivered result is the best any finite word offers: no word is nearer to the exact value,
   and for a directed mode no word lies between the exact value and the result.
   */
  lemma DeliveredIsBest(f: Format, rm: RoundingMode, sign: nat, x: real, r: nat, w: nat)
    requires f.Valid() && x > 0.0 && Delivers(f, rm, sign, x, r) && !Overflows(f, rm, sign == 1, x)
    requires IsWord(f, w) && IsFinite(f, w)
    ensures NoBetter(rm, sign == 1, x, Magnitude(f, r), Magnitude(f, w))
  {
    hide Pow2, Shl, Shr, Low, Scale, Binade, Format.Bias, Format.ExpMask, Magnitude, Overflows, Quantum, RoundReal,
         NoBetter;
    var q := Quantum(f, x);
    var y, z := Scale(x, -q), Scale(Magnitude(f, w), -q);
    var n := RoundReal(rm, sign == 1, y);
    ScaleScale(x, -q, q);
    ScaleScale(Magnitude(f, w), -q, q);
    ScaleZeroIs(x);
    ScaleZeroIs(Magnitude(f, w));
    NoBetterScaled(rm, sign == 1, y, n as real, z, q);
    var k := WordOnGrid(f, w, q);
    if z == k as real {
      NoBetterInteger(rm, sign == 1, y, k);
    } else {
      ExponentBelow(f, w);
      UnitsAtLeast(f, x);
      NoBetterInteger(rm, sign == 1, y, Pow2(f.mant));
      BelowCandidate(rm, sign == 1, y, n as real, Pow2(f.mant) as real, z);
    }
  }

  lemma BelowCandidate(rm: RoundingMode, neg: bool, y: real, n: real, g: real, z: real)
    requires NoBetter(rm, neg, y, n, g) && z <= g <= y
    ensures NoBetter(rm, neg, y, n, z)
  {
  }
}
