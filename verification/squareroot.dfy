/** sqrt_sf. */
module SquareRoot {
  import opened Powers
  import opened Jamming
  import opened Rounding
  import opened SoftFormat
  import opened RoundPack
  import opened Normalize
  import opened Operands
  import opened WordArith
  import opened Multiplicative
  import opened Representable

  /** x compares with t the way the square root of v does. */
  ghost predicate RootAt(x: real, v: real, t: real) {
    (x < t <==> v < t * t) && (x == t <==> v == t * t)
  }

  /** A quarter of the unit in the last place of the root of v. */
  ghost function RootUnit(f: Format, v: real): int
    requires v > 0.0
  {
    Binade(v) / 2 - f.mant - 2
  }

  /** The multiples of a quarter unit. */
  ghost function Grid(f: Format, v: real, n: nat): real
    requires v > 0.0
  {
    Scale(n as real, RootUnit(f, v))
  }

  /**
   x is the square root of v as far as rounding can tell: it lies on the same side of every
   multiple of a quarter unit in the last place. The square root itself does, where it is a
   real number Dafny can name.
   */
  ghost predicate RootLike(f: Format, x: real, v: real)
    requires v > 0.0
  {
    x > 0.0 && forall n: nat :: RootAt(x, v, Grid(f, v, n))
  }

  lemma TrueRootIsRootLike(f: Format, x: real, v: real)
    requires x > 0.0 && x * x == v
    ensures v > 0.0 && RootLike(f, x, v)
  {
    SignOfFactor(x, x);
    forall n: nat
      ensures RootAt(x, v, Grid(f, v, n))
    {
      var t := Grid(f, v, n);
      ScaleOrder(0.0, n as real, RootUnit(f, v));
      ScaleZero(RootUnit(f, v));
      SquareOrder(x, t);
    }
  }

  lemma SquareOrder(x: real, t: real)
    requires x >= 0.0 && t >= 0.0
    ensures x < t <==> x * x < t * t
    ensures x == t <==> x * x == t * t
  {
    var d, s := t - x, t + x;
    assert d * s == t * t - x * x;
  }

  /** What IEEE 754-2019 asks of squareRoot(a): section 5.4.1, with 6.2 and 7.2 for the rest. */
  ghost predicate IsRoot(f: Format, a: nat, rm: RoundingMode, fflags: Flags, r: nat, fl: Flags)
    requires f.Valid()
  {
    if IsNaN(f, a) then
      r == QuietNaN(f) && fl == fflags.Or(if IsSignalling(f, a) then INVALID else NO_FLAGS)
    else if IsZero(f, a) then
      r == a && fl == fflags
    else if SignOf(f, a) == 1 then
      r == QuietNaN(f) && fl == fflags.Or(INVALID)
    else if IsInf(f, a) then
      r == a && fl == fflags
    else
      && Value(f, a) > 0.0
      && (exists x: real :: RootLike(f, x, Value(f, a)))
      && (forall x: real :: RootLike(f, x, Value(f, a)) ==> RoundsTo(f, rm, x, 0, fflags, r, fl))
  }

  /** The integer root with its sticky bit compares with even numbers like the exact root. */
  lemma RootCompare(a: nat, root: nat, t: nat)
    requires Times(root, root) <= a < Times(root + 1, root + 1) && t % 2 == 0
    ensures var j := OrBit(root, Times(root, root) != a);
            (j < t <==> a < Times(t, t)) && (j == t <==> a == Times(t, t))
  {
    hide Times;
    if t <= root {
      TimesMono(t, root, t, root);
    } else {
      TimesMono(root + 1, t, root + 1, t);
    }
    if t < root {
      TimesOrder(t, t, root, root);
    }
    if t > root {
      TimesOrder(root, root, t, t);
    }
  }

  /** The value under the root, in the units sqrt_sf works in. */
  ghost predicate RootScaled(f: Format, v: real, u: int, a: nat)
    requires f.Valid()
  {
    v > 0.0 && Scale(v, 0 - 2 * u) == a as real && RootUnit(f, v) == u + f.Rnd() - 2
  }

  lemma SquareScaled(v: real, u: int, a: nat, t: nat)
    requires Scale(v, 0 - 2 * u) == a as real
    ensures var s := Scale(t as real, u);
            (v < s * s <==> a < Times(t, t)) && (v == s * s <==> a == Times(t, t))
  {
    hide Scale;
    ScaledTimes(t as real, u, t as real, u);
    TimesReal(t, t);
    ScaleScale(v, 0 - 2 * u, 2 * u);
    ScaleZeroIs(v);
    ScaleOrder(a as real, Times(t, t) as real, 2 * u);
  }

  /** Every RootLike value is jammed by the integer root with its sticky bit. */
  lemma RootJams(f: Format, x: real, v: real, u: int, a: nat, root: nat)
    requires f.Valid() && RootScaled(f, v, u, a) && RootLike(f, x, v)
    requires Times(root, root) <= a < Times(root + 1, root + 1)
    ensures Jams(Scale(x, 0 - u), OrBit(root, Times(root, root) != a), f.Rnd() - 2)
  {
    hide Scale, Times, Shl, RootUnit, RootLike;
    var j, g, y := OrBit(root, Times(root, root) != a), f.Rnd() - 2, Scale(x, 0 - u);
    RootLikePositive(f, x, v);
    ScalePositive(x, 0 - u);
    forall k: int
      ensures SameSide(y, j, Shl(k, g))
    {
      var t := Shl(k, g);
      if k < 0 {
        ShlOrder(k, 0, g);
        ShlOne(g);
      } else {
        EvenShl(k, g);
        RootCompare(a, root, t);
        SquareScaled(v, u, a, t);
        GridRoot(f, x, v, k);
        ScaleInt(k, g);
        ScaleScale(k as real, g, u);
        ScaleScale(x, 0 - u, u);
        ScaleZeroIs(x);
        ScaleOrder(y, t as real, u);
      }
    }
  }

  lemma RootLikePositive(f: Format, x: real, v: real)
    requires v > 0.0 && RootLike(f, x, v)
    ensures x > 0.0
  {
  }

  lemma GridRoot(f: Format, x: real, v: real, n: nat)
    requires v > 0.0 && RootLike(f, x, v)
    ensures RootAt(x, v, Scale(n as real, RootUnit(f, v)))
  {
    assert RootAt(x, v, Grid(f, v, n));
  }

  /** The jammed integer root is itself such a value. */
  lemma JammedRootIsRootLike(f: Format, v: real, u: int, a: nat, root: nat)
    requires f.Valid() && RootScaled(f, v, u, a) && root > 0
    requires Times(root, root) <= a < Times(root + 1, root + 1)
    ensures RootLike(f, Scale(OrBit(root, Times(root, root) != a) as real, u), v)
  {
    hide Scale, Times, Shl, RootUnit, RootAt;
    var j, g := OrBit(root, Times(root, root) != a), f.Rnd() - 2;
    var x := Scale(j as real, u);
    ScalePositive(j as real, u);
    forall n: nat
      ensures RootAt(x, v, Grid(f, v, n))
    {
      EvenShl(n, g);
      RootAtJammed(v, u, a, root, Shl(n, g));
      ScaleInt(n, g);
      ScaleScale(n as real, g, u);
    }
  }

  lemma RootAtJammed(v: real, u: int, a: nat, root: nat, t: nat)
    requires Scale(v, 0 - 2 * u) == a as real && t % 2 == 0
    requires Times(root, root) <= a < Times(root + 1, root + 1)
    ensures RootAt(Scale(OrBit(root, Times(root, root) != a) as real, u), v, Scale(t as real, u))
  {
    hide Scale, Times;
    RootCompare(a, root, t);
    SquareScaled(v, u, a, t);
    ScaleOrder(OrBit(root, Times(root, root) != a) as real, t as real, u);
  }

  /** The mantissa sqrt_sf takes the root of: its exponent is even and its size two bits under a word. */
  lemma RadicandScaled(f: Format, a: nat, e: int, m: nat)
    requires f.Valid() && Unpacked(f, a, e, m) && SignOf(f, a) == 0
    ensures var d := e - f.Bias();
            var m2 := if d % 2 == 1 then Shl(m, 1) else m;
            var hi := Shl(m2, f.Rnd() - 2);
            && Pow2(f.Size() - 4) <= hi < Pow2(f.Size() - 2)
            && RootScaled(f, Value(f, a), d / 2 - Top(f), Shl(hi, f.Size()))
  {
    hide Pow2, Shl, Scale, Format.Bias, SignOf, Magnitude, Binade;
    var d := e - f.Bias();
    var odd := if d % 2 == 1 then 1 else 0;
    var r, size := f.Rnd() - 2, f.Size();
    NoShift(m);
    var hi := Shl(Shl(m, odd), r);
    ShlShl(m, odd, r);
    ShlRange(m, f.mant + 1, odd + r);
    Pow2Mono(size - 4, f.mant + odd + r);
    Pow2Mono(f.mant + 1 + odd + r, size - 2);
    BinadeFromMantissa(m as real, f.mant, d);
    ShlShl(m, odd + r, size);
    ScaleInt(m, odd + r + size);
    ScaleScale(m as real, d - f.mant, 0 - 2 * (d / 2 - Top(f)));
  }

  /** The root of such a mantissa fills the internal mantissa but for at most one bit. */
  lemma RootRange(size: nat, hi: nat, root: nat)
    requires size >= 4 && Pow2(size - 4) <= hi < Pow2(size - 2)
    requires Times(root, root) <= Shl(hi, size) < Times(root + 1, root + 1)
    ensures Pow2(size - 2) <= root < Pow2(size - 1)
  {
    hide Pow2, Shl, Times;
    ShlPow2(size - 4, size);
    ShlPow2(size - 2, size);
    ShlOrder(hi, Pow2(size - 2), size);
    ShlOrder(Pow2(size - 4), hi, size);
    SquareOfPow2(size - 2);
    SquareOfPow2(size - 1);
    if root >= Pow2(size - 1) {
      TimesMono(Pow2(size - 1), root, Pow2(size - 1), root);
    }
    if root < Pow2(size - 2) {
      TimesMono(root + 1, Pow2(size - 2), root + 1, Pow2(size - 2));
    }
  }

  /** sqrt_sf on a positive finite operand */
  method SqrtPositive(f: Format, a: nat, rm: RoundingMode, fflags: Flags) returns (r: nat, fl: Flags)
    requires f.Valid() && IsWord(f, a) && IsFinite(f, a) && !IsZero(f, a) && SignOf(f, a) == 0
    ensures Value(f, a) > 0.0
    ensures exists x: real :: RootLike(f, x, Value(f, a))
    ensures forall x: real :: RootLike(f, x, Value(f, a)) ==> RoundsTo(f, rm, x, 0, fflags, r, fl)
  {
    hide Pow2, Shl, Shr, Low, Times, Scale, Jams, Rounded, Roundable, RoundsTo, IsZero, IsFinite, Magnitude, Value,
         Format.ExpMask, Format.Bias, RootLike, TwoWords, StartsLow, Wraps;
    var exp, mant := UnpackNonzero(f, a, ExpOf(f, a), MantOf(f, a));
    RadicandScaled(f, a, exp, mant);
    exp := exp - f.ExpMask() / 2;
    BiasOf(f);
    ghost var u := exp / 2 - Top(f);
    if exp % 2 == 1 {
      exp := exp - 1;
      mant := Shl(mant, 1);
    }
    exp := exp / 2 + f.ExpMask() / 2;
    mant := Shl(mant, f.Size() - 4 - f.mant);
    ghost var radicand := Shl(mant, f.Size());
    RadicandStarts(f.Size(), mant);
    var root, inexact, aborted := SqrtremU(f.Size(), mant, 0);
    RootRange(f.Size(), mant, root);
    JammedRootIsRootLike(f, Value(f, a), u, radicand, root);
    mant := OrBit(root, inexact);
    OrBitRange(root, inexact, f.Size());
    r, fl := NormalizeSf(f, 0, exp, mant, rm, fflags);
    forall x: real | RootLike(f, x, Value(f, a))
      ensures RoundsTo(f, rm, x, 0, fflags, r, fl)
    {
      RootIsRounded(f, rm, exp, u, radicand, root, mant, Value(f, a), x, fflags, r, fl);
    }
  }

  /** With a zero low word the iteration neither starts low nor wraps. */
  lemma RadicandStarts(size: nat, a1: nat)
    requires size >= 4 && a1 < Pow2(size - 2)
    ensures TwoWords(size, a1, 0) == Shl(a1, size) && !StartsLow(size, a1, 0) && !Wraps(size, a1, 0)
  {
    hide Shl;
    Pow2Next(size - 1);
  }

  lemma OrBitRange(q: nat, c: bool, size: nat)
    requires size >= 2 && Pow2(size - 2) <= q < Pow2(size - 1)
    ensures Pow2(size - 2) <= OrBit(q, c) < Pow2(size - 1)
  {
    hide Pow2;
    Pow2Next(size - 2);
  }

  /** Rounding the jammed integer root rounds every value that is like the root. */
  lemma RootIsRounded(f: Format, rm: RoundingMode, exp: int, u: int, a: nat, root: nat, j: nat, v: real,
                      x: real, fflags: Flags, r: nat, fl: Flags)
    requires f.Valid() && RootScaled(f, v, u, a) && RootLike(f, x, v) && u == exp - f.Bias() - Top(f)
    requires Pow2(f.Size() - 2) <= root < Pow2(f.Size() - 1)
    requires Times(root, root) <= a < Times(root + 1, root + 1)
    requires j == OrBit(root, Times(root, root) != a)
    requires forall y: real, g: nat :: Roundable(f, j, y, g) ==> Rounded(f, rm, 0, exp, y, fflags, r, fl)
    ensures RoundsTo(f, rm, x, 0, fflags, r, fl)
  {
    hide Pow2, Shl, Times, Scale, Jams, Rounded, RoundsTo, RootLike, RootScaled, Format.Bias;
    var y := Scale(x, 0 - u);
    RootJams(f, x, v, u, a, root);
    Pow2Mono(f.mant + 1 + (f.Rnd() - 2), f.Size() - 2);
    assert Roundable(f, j, y, f.Rnd() - 2);
    ScaleScale(x, 0 - u, u);
    ScaleZeroIs(x);
    RootScaledPositive(f, v, u, a);
    RootLikePositive(f, x, v);
    ScalePositive(x, 0 - u);
    RoundedValue(f, rm, 0, exp, y, x, fflags, r, fl);
  }

  lemma RootScaledPositive(f: Format, v: real, u: int, a: nat)
    requires f.Valid() && RootScaled(f, v, u, a)
    ensures v > 0.0
  {
  }

  lemma BiasOf(f: Format)
    ensures f.ExpMask() / 2 == f.Bias()
  {
  }

  /** sqrt_sf */
  method SqrtSf(f: Format, a: nat, rm: RoundingMode, fflags: Flags) returns (r: nat, fl: Flags)
    requires f.Valid() && IsWord(f, a)
    ensures IsRoot(f, a, rm, fflags, r, fl)
  {
    hide Pow2, Shl, Shr, Low, Format.ExpMask, RoundsTo, Value, IsSignalling, RootLike;
    ExpMaskIsOdd(f);
    FieldsOf(f, a);
    var aSign, aExp, aMant := SignOf(f, a), ExpOf(f, a), MantOf(f, a);
    if aExp == f.ExpMask() {
      if aMant != 0 {
        fl := if IssignanSf(f, a) then fflags.Or(INVALID) else fflags;
        return QuietNaN(f), fl;
      } else if aSign != 0 {
        return QuietNaN(f), fflags.Or(INVALID);
      } else {
        return a, fflags;
      }
    }
    if aSign != 0 {
      if aExp == 0 && aMant == 0 {
        return a, fflags;
      }
      return QuietNaN(f), fflags.Or(INVALID);
    }
    if aExp == 0 && aMant == 0 {
      PositiveZero(f, a);
      return Pack(f, 0, 0, 0), fflags;
    }
    r, fl := SqrtPositive(f, a, rm, fflags);
  }

  lemma PositiveZero(f: Format, a: nat)
    requires f.Valid() && IsWord(f, a) && IsZero(f, a) && SignOf(f, a) == 0
    ensures a == Pack(f, 0, 0, 0)
  {
    hide Pow2, Shl, Shr, Low;
    FieldsOf(f, a);
    ShlOne(f.mant);
    ShlOne(f.mant + f.exp);
    ShrSmall(0, f.mant);
  }
}
