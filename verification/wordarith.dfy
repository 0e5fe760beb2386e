/** Double-word multiply, divide and square root as the build without a 128-bit integer does them. */
module WordArith {
  import opened Powers

  /** x * y, given a name so that most proofs can treat it as opaque. */
  function Times(x: int, y: int): (r: int)
    ensures x >= 0 && y >= 0 ==> r >= 0
  {
    x * y
  }

  lemma TimesSum(x: int, y: int, z: int)
    ensures Times(x + y, z) == Times(x, z) + Times(y, z)
    ensures Times(z, x + y) == Times(z, x) + Times(z, y)
  {
  }

  lemma {:induction false} TimesShl(a: int, b: int, d: nat)
    ensures Times(Shl(a, d), b) == Shl(Times(a, b), d) == Times(a, Shl(b, d))
  {
    if d > 0 {
      TimesShl(a, b, d - 1);
      TimesSum(Shl(a, d - 1), Shl(a, d - 1), b);
      TimesSum(Shl(b, d - 1), Shl(b, d - 1), a);
    }
  }

  lemma TimesBound(x: nat, y: nat, m: nat, n: nat)
    requires x < Pow2(m) && y < Pow2(n)
    ensures 0 <= Times(x, y) < Pow2(m + n)
  {
    hide Pow2, Shl;
    TimesOrder(x, y, Pow2(m), Pow2(n));
    ShlOne(n);
    TimesShl(Pow2(m), 1, n);
    ShlPow2(m, n);
    assert Times(Pow2(m), 1) == Pow2(m);
  }

  lemma TimesOrder(x: nat, y: nat, u: nat, v: nat)
    requires x < u && y < v
    ensures 0 <= Times(x, y) < Times(u, v)
  {
    TimesSum(x, u - x, v);
    TimesSum(y, v - y, x);
    assert Times(u - x, v) > 0;
    assert Times(x, v - y) >= 0;
    assert Times(x, y) >= 0;
  }

  /** The four half-word products of a full product. */
  lemma HalfProducts(a: nat, b: nat, h: nat)
    ensures var a0, a1, b0, b1 := Low(a, h), Shr(a, h), Low(b, h), Shr(b, h);
            Times(a, b) == Shl(Times(a1, b1), 2 * h) + Shl(Times(a0, b1) + Times(a1, b0), h) + Times(a0, b0)
  {
    hide Pow2, Shl, Shr, Low, Times;
    var a0, a1, b0, b1 := Low(a, h), Shr(a, h), Low(b, h), Shr(b, h);
    Split(a, h);
    Split(b, h);
    TimesSum(Shl(a1, h), a0, b);
    TimesSum(Shl(b1, h), b0, a0);
    TimesSum(Shl(b1, h), b0, a1);
    TimesShl(a1, b, h);
    TimesShl(a0, b1, h);
    TimesShl(a1, b1, h);
    ShlAdd(Shl(Times(a1, b1), h), Times(a1, b0), h);
    ShlShl(Times(a1, b1), h, h);
    ShlAdd(Times(a0, b1), Times(a1, b0), h);
  }

  /** One column: what a carry and two entries add up to, split into this half word and the next. */
  lemma Column(x: nat, y: nat, carry: nat, h: nat)
    ensures var c := carry + Low(x, h) + Low(y, h);
            x + y + carry == Shl(Shr(c, h) + Shr(x, h) + Shr(y, h), h) + Low(c, h)
  {
    hide Pow2, Shl, Shr, Low;
    var c := carry + Low(x, h) + Low(y, h);
    Split(x, h);
    Split(y, h);
    Split(c, h);
    ShlAdd(Shr(c, h) + Shr(x, h), Shr(y, h), h);
    ShlAdd(Shr(c, h), Shr(x, h), h);
  }

  /** Adding the half-word columns with their carries gives the same sum. */
  lemma Columns(r00: nat, r01: nat, r10: nat, r11: nat, h: nat)
    ensures var c1 := Shr(r00, h) + Low(r01, h) + Low(r10, h);
            var c2 := Shr(c1, h) + Shr(r01, h) + Shr(r10, h) + Low(r11, h);
            var c3 := Shr(c2, h) + Shr(r11, h);
            Shl(r11, 2 * h) + Shl(r01 + r10, h) + r00
            == Shl(Shl(c3, h) + Low(c2, h), 2 * h) + Shl(Low(c1, h), h) + Low(r00, h)
  {
    hide Pow2, Shl, Shr, Low;
    var c1 := Shr(r00, h) + Low(r01, h) + Low(r10, h);
    var carry := Shr(c1, h) + Shr(r01, h) + Shr(r10, h);
    Split(r00, h);
    Column(r01, r10, Shr(r00, h), h);
    Column(r11, 0, carry, h);
    ShrOfZero(h);
    ShlAdd(r01 + r10, Shr(r00, h), h);
    ShlAdd(Shl(carry, h), Low(c1, h), h);
    ShlShl(carry, h, h);
    ShlAdd(r11, carry, 2 * h);
  }

  lemma ShrOfZero(h: nat)
    ensures Shr(0, h) == 0 && Low(0, h) == 0
  {
    ShrSmall(0, h);
  }

  /** mul_u from half words: the high word and *plow are exactly the product. */
  method MulU(h: nat, a: nat, b: nat) returns (high: nat, low: nat)
    requires h >= 2 && a < Pow2(2 * h) && b < Pow2(2 * h)
    ensures Shl(high, 2 * h) + low == Times(a, b) && low < Pow2(2 * h) && high < Pow2(2 * h)
  {
    hide Pow2, Shl, Shr, Low, Times;
    var a0, a1, b0, b1 := Low(a, h), Shr(a, h), Low(b, h), Shr(b, h);
    HalfRange(a, h);
    HalfRange(b, h);
    TimesBound(a0, b0, h, h);
    TimesBound(a0, b1, h, h);
    TimesBound(a1, b0, h, h);
    TimesBound(a1, b1, h, h);
    var r00, r01, r10, r11: nat := Times(a0, b0), Times(a0, b1), Times(a1, b0), Times(a1, b1);
    HalfRange(r00, h);
    HalfRange(r01, h);
    HalfRange(r10, h);
    HalfRange(r11, h);
    FourHalves(h);
    var r0 := Low(r00, h);
    var c := Shr(r00, h) + Low(r01, h) + Low(r10, h);
    assert c < Pow2(2 * h);
    HalfRange(c, h);
    var r1 := Low(c, h);
    c := Shr(c, h) + Shr(r01, h) + Shr(r10, h) + Low(r11, h);
    assert c < Pow2(2 * h);
    HalfRange(c, h);
    var r2 := Low(c, h);
    var r3 := Low(Shr(c, h) + Shr(r11, h), h);
    high, low := Shl(r3, h) + r2, Shl(r1, h) + r0;
    ghost var full := Shr(c, h) + Shr(r11, h);
    HalfProducts(a, b, h);
    Columns(r00, r01, r10, r11, h);
    FullHigh(a, b, h, full, r2, r1, r0);
    Joined(r1, r0, h);
    Joined(r3, r2, h);
  }

  lemma FourHalves(h: nat)
    requires h >= 2
    ensures 4 * Pow2(h) <= Pow2(2 * h)
  {
    hide Pow2;
    Pow2Next(h);
    Pow2Next(h + 1);
    Pow2Mono(h + 2, 2 * h);
  }

  lemma HalfRange(a: nat, h: nat)
    requires a < Pow2(2 * h)
    ensures Low(a, h) < Pow2(h) && Shr(a, h) < Pow2(h)
  {
    hide Pow2, Shl, Shr, Low;
    Split(a, h);
    ShlPow2(h, h);
    ShrOrder(a, h, Pow2(h));
  }

  lemma Joined(x: nat, y: nat, h: nat)
    requires x < Pow2(h) && y < Pow2(h)
    ensures Shl(x, h) + y < Pow2(2 * h)
  {
    hide Pow2, Shl;
    ShlPow2(h, h);
    ShlOrder(x + 1, Pow2(h), h);
    ShlAdd(x, 1, h);
    ShlOne(h);
  }

  /** The top column of a product of words does not overflow its half word. */
  lemma FullHigh(a: nat, b: nat, h: nat, full: nat, r2: nat, r1: nat, r0: nat)
    requires a < Pow2(2 * h) && b < Pow2(2 * h)
    requires Times(a, b) == Shl(Shl(full, h) + r2, 2 * h) + Shl(r1, h) + r0
    ensures full < Pow2(h) && Low(full, h) == full
  {
    hide Pow2, Shl, Shr, Low, Times;
    TimesBound(a, b, 2 * h, 2 * h);
    ShlPow2(2 * h, 2 * h);
    ShlOrder(Shl(full, h) + r2, Pow2(2 * h), 2 * h);
    ShlPow2(h, h);
    ShlOrder(full, Pow2(h), h);
    ShrSmall(full, h);
  }

  /** The one bit at the top of the dividend's unconsumed part. */
  lemma TopBit(rest: nat, k: nat)
    requires k >= 1 && rest < Pow2(k)
    ensures var t := Shr(rest, k - 1);
            t <= 1 && rest == Shl(t, k - 1) + Low(rest, k - 1) && Low(rest, k - 1) < Pow2(k - 1)
  {
    hide Pow2, Shl, Shr, Low;
    Split(rest, k - 1);
    Pow2Next(k - 1);
    ShrOrder(rest, k - 1, 2);
    ShlAdd(1, 1, k - 1);
    ShlOne(k - 1);
  }

  /** After i steps the low word holds what is left of the dividend above the quotient so far. */
  ghost predicate Dividing(size: nat, dividend: nat, b: nat, i: nat, a1: nat, a0: nat, rest: nat, q: nat)
    requires i <= size
  {
    && a1 < b && rest < Pow2(size - i) && q < Pow2(i)
    && dividend == Shl(Times(q, b) + a1, size - i) + rest
    && a0 == Shl(rest, i) + q
  }

  /** The bit shifted out of the low word is the next bit of the dividend. */
  lemma ShiftedOut(size: nat, i: nat, rest: nat, q: nat)
    requires i < size && rest < Pow2(size - i) && q < Pow2(i)
    ensures var a0, t := Shl(rest, i) + q, Shr(rest, size - i - 1);
            && Shr(a0, size - 1) == t <= 1
            && a0 == Shl(t, size - 1) + Shl(Low(rest, size - i - 1), i) + q
            && Low(2 * a0, size) == Shl(Low(rest, size - i - 1), i + 1) + 2 * q
            && Low(2 * a0, size) % 2 == 0
  {
    hide Pow2, Shl, Shr, Low;
    var k, a0 := size - i, Shl(rest, i) + q;
    var t, tail := Shr(rest, k - 1), Low(rest, k - 1);
    TopBit(rest, k);
    ShlAdd(Shl(t, k - 1), tail, i);
    ShlShl(t, k - 1, i);
    ShlOrder(tail + 1, Pow2(k - 1), i);
    ShlAdd(tail, 1, i);
    ShlOne(i);
    ShlPow2(k - 1, i);
    TwoFields(t, Shl(tail, i) + q, size - 1);
    ShlNext(tail, i);
    ShlNext(t, size - 1);
    Pow2Next(size - 1);
    TwoFields(t, Shl(tail, i + 1) + 2 * q, size);
  }

  lemma ShlNext(a: int, d: nat)
    ensures Shl(a, d + 1) == 2 * Shl(a, d)
  {
  }

  /** One more quotient bit: 1 exactly when the doubled remainder with its new bit reaches the divisor. */
  lemma DivideStep(size: nat, dividend: nat, b: nat, i: nat, a1: nat, a0: nat, rest: nat, q: nat)
    requires i < size && Dividing(size, dividend, b, i, a1, a0, rest, q)
    ensures var t, tail := Shr(a0, size - 1), Low(rest, size - i - 1);
            var qb := if 2 * a1 + t >= b then 1 else 0;
            && t <= 1 && Low(2 * a0, size) % 2 == 0 && a1 < b && 2 * a1 + t - (if qb == 1 then b else 0) < b
            && Dividing(size, dividend, b, i + 1, 2 * a1 + t - (if qb == 1 then b else 0),
                        Low(2 * a0, size) + qb, tail, 2 * q + qb)
  {
    hide Pow2, Shl, Shr, Low, Times;
    ShiftedOut(size, i, rest, q);
    var k, t, tail := size - i, Shr(a0, size - 1), Low(rest, size - i - 1);
    var qb := if 2 * a1 + t >= b then 1 else 0;
    TopBit(rest, k);
    Pow2Next(i);
    ShlNext(Times(q, b) + a1, k - 1);
    ShlShl(Times(q, b) + a1, 1, k - 1);
    DoubleShl(Times(q, b) + a1, k - 1);
    ShlAdd(2 * (Times(q, b) + a1), t, k - 1);
    TimesDouble(q, qb, b);
  }

  lemma DoubleShl(a: int, d: nat)
    ensures Shl(2 * a, d) == 2 * Shl(a, d)
  {
    ShlAdd(a, a, d);
  }

  lemma TimesDouble(q: int, qb: int, b: int)
    requires qb == 0 || qb == 1
    ensures Times(2 * q + qb, b) == 2 * Times(q, b) + (if qb == 1 then b else 0)
  {
    TimesSum(2 * q, qb, b);
    TimesSum(q, q, b);
  }

  lemma StartDividing(size: nat, b: nat, a1: nat, a0: nat)
    requires a1 < b && a0 < Pow2(size)
    ensures Dividing(size, Shl(a1, size) + a0, b, 0, a1, a0, a0, 0)
  {
    hide Shl;
    NoShift(a0);
  }

  lemma FinishDividing(size: nat, dividend: nat, b: nat, a1: nat, a0: nat, rest: nat, q: nat)
    requires Dividing(size, dividend, b, size, a1, a0, rest, q)
    ensures dividend == Times(a0, b) + a1 && a1 < b && a0 < Pow2(size)
  {
    hide Shl, Times;
    NoShift(Times(q, b) + a1);
    ShlOne(size);
  }

  /** The truncated remainder with its carry bit compares and subtracts like the full one. */
  lemma ShiftedRemainder(size: nat, b: nat, hi: nat, t: nat)
    requires size >= 1 && hi < b < Pow2(size) && t <= 1
    ensures var shifted := Low(2 * hi, size) + t;
            && shifted < Pow2(size)
            && (Shr(hi, size - 1) != 0 || shifted >= b <==> 2 * hi + t >= b)
            && (if 2 * hi + t >= b then Low(shifted + Pow2(size) - b, size) == 2 * hi + t - b else shifted == 2 * hi + t)
  {
    hide Pow2, Shl, Shr, Low;
    Pow2Next(size - 1);
    TopBit(hi, size);
    var u, low := Shr(hi, size - 1), Low(hi, size - 1);
    ShlNext(u, size - 1);
    TwoFields(u, 2 * low, size);
    ShlOne(size);
    ShlOne(size - 1);
    if u == 1 {
      ShrSmall(2 * hi + t - b, size);
    } else if 2 * hi + t >= b {
      TwoFields(1, 2 * hi + t - b, size);
    }
  }

  /** divrem_u one bit at a time; the 65th bit of the shifted remainder is `ab`. */
  method DivremU(size: nat, a1: nat, a0: nat, b: nat) returns (q: nat, r: nat)
    requires size >= 1 && a1 < b < Pow2(size) && a0 < Pow2(size)
    ensures Shl(a1, size) + a0 == Times(q, b) + r && r < b && q < Pow2(size)
  {
    hide Pow2, Shl, Shr, Low, Times, Dividing;
    ghost var dividend: nat, rest: nat, done: nat := Shl(a1, size) + a0, a0, 0;
    var hi: nat, lo: nat := a1, a0;
    StartDividing(size, b, a1, a0);
    var i := 0;
    while i < size
      invariant i <= size
      invariant hi < b && Dividing(size, dividend, b, i, hi, lo, rest, done)
    {
      DivideStep(size, dividend, b, i, hi, lo, rest, done);
      ShiftedRemainder(size, b, hi, Shr(lo, size - 1));
      var ab := Shr(hi, size - 1);
      hi := Low(2 * hi, size) + Shr(lo, size - 1);
      var qb: nat := 0;
      if ab != 0 || hi >= b {
        hi := Low(hi + Pow2(size) - b, size);
        qb := 1;
      }
      lo := Low(2 * lo, size) + qb;
      rest, done := Low(rest, size - i - 1), 2 * done + qb;
      i := i + 1;
    }
    r := hi;
    q := lo;
    FinishDividing(size, dividend, b, hi, lo, rest, done);
  }

  lemma SquareOfPow2(n: nat)
    ensures Times(Pow2(n), Pow2(n)) == Pow2(2 * n)
  {
    hide Pow2, Shl;
    ShlOne(n);
    TimesShl(Pow2(n), 1, n);
    ShlPow2(n, n);
    assert Times(Pow2(n), 1) == Pow2(n);
  }

  /** The dividend. */
  function TwoWords(size: nat, a1: nat, a0: nat): nat {
    Shl(a1, size) + a0
  }

  /** The integer square root. */
  predicate IsFloorRoot(s: nat, a: nat) {
    Times(s, s) <= a < Times(s + 1, s + 1)
  }

  /** The estimate sqrtrem_u starts from. */
  function StartEstimate(size: nat, a1: nat, a0: nat): nat {
    Pow2(((if a1 != 0 then 2 * size - (size - BitLen(a1 - 1)) else if a0 != 0 then BitLen(a0 - 1) else 0) + 1) / 2)
  }

  /**
   The high word is an even power of two, whose root the estimate is, and the low word takes the dividend past the
   next square: the iteration starts below the root.
   */
  predicate StartsLow(size: nat, a1: nat, a0: nat) {
    a1 > 0 && a1 == Pow2(BitLen(a1 - 1)) && BitLen(a1 - 1) % 2 == 0 && a0 > 2 * Pow2((size + BitLen(a1 - 1)) / 2)
  }

  /** The greatest dividend, on which the sum of an iteration wraps to zero. */
  predicate IsTop(size: nat, a1: nat, a0: nat)
    requires size >= 2
  {
    a1 == Pow2(size - 2) - 1 && a0 == Pow2(size) - 1
  }

  /**
   The dividends on which the sum of an iteration wraps: the starting estimate is half a word, the greatest
   there is.
   */
  predicate Wraps(size: nat, a1: nat, a0: nat)
    requires size >= 2
  {
    a1 == Pow2(size - 2) || IsTop(size, a1, a0)
  }

  /** The starting estimate is a power of two, and not below the root unless the iteration starts low. */
  lemma FirstEstimate(size: nat, a1: nat, a0: nat)
    requires size >= 4 && size % 2 == 0 && a1 < Pow2(size - 2) && a0 < Pow2(size) && (a1 > 0 || a0 > 0)
    ensures var u := StartEstimate(size, a1, a0);
            1 <= u <= Pow2(size - 1) && (TwoWords(size, a1, a0) < Times(u + 1, u + 1) <==> !StartsLow(size, a1, a0))
  {
    hide Pow2, Shl, Times, BitLen;
    if a1 == 0 {
      ShlOne(size);
      SmallEstimate(size, a0);
    } else {
      var n := BitLen(a1 - 1);
      BitLenRange(a1 - 1);
      BitLenBound(a1 - 1, size - 2);
      Pow2Mono((size + n + 1) / 2, size - 1);
      if a1 == Pow2(n) {
        PowerEstimate(size, n, a0);
      } else {
        BelowPowerEstimate(size, a1, a0, n);
      }
    }
  }

  lemma SmallEstimate(size: nat, a0: nat)
    requires size >= 4 && 0 < a0 < Pow2(size)
    ensures var u := Pow2((BitLen(a0 - 1) + 1) / 2);
            1 <= u <= Pow2(size - 1) && a0 < Times(u + 1, u + 1)
  {
    hide Pow2, Times, BitLen;
    var l := BitLen(a0 - 1);
    BitLenRange(a0 - 1);
    BitLenBound(a0 - 1, size);
    SquareAtLeast(l);
    Pow2Mono((l + 1) / 2, size - 1);
    var u := Pow2((l + 1) / 2);
    TimesOrder(u, u, u + 1, u + 1);
  }

  lemma BelowPowerEstimate(size: nat, a1: nat, a0: nat, n: nat)
    requires 0 < a1 < Pow2(n) && a0 < Pow2(size)
    ensures var u := Pow2((size + n + 1) / 2);
            TwoWords(size, a1, a0) < Times(u + 1, u + 1)
  {
    hide Pow2, Shl, Times;
    BelowPower(size, a1, a0, n);
    SquareAtLeast(size + n);
    var u := Pow2((size + n + 1) / 2);
    TimesOrder(u, u, u + 1, u + 1);
  }

  lemma BelowPower(size: nat, a1: nat, a0: nat, n: nat)
    requires 0 < a1 < Pow2(n) && a0 < Pow2(size)
    ensures TwoWords(size, a1, a0) < Pow2(size + n)
  {
    hide Pow2, Shl, Times;
    TwoFields(a1, a0, size);
    ShlPow2(n, size);
    if a1 + 1 < Pow2(n) {
      ShlOrder(a1 + 1, Pow2(n), size);
    }
  }

  lemma SquareAtLeast(l: nat)
    ensures Pow2(l) <= Times(Pow2((l + 1) / 2), Pow2((l + 1) / 2))
  {
    hide Pow2, Times;
    Pow2Mono(l, 2 * ((l + 1) / 2));
    SquareOfPow2((l + 1) / 2);
  }

  lemma PowerEstimate(size: nat, n: nat, a0: nat)
    requires size % 2 == 0 && a0 < Pow2(size)
    ensures var u := Pow2((size + n + 1) / 2);
            TwoWords(size, Pow2(n), a0) < Times(u + 1, u + 1) <==> n % 2 == 1 || a0 <= 2 * Pow2((size + n) / 2)
  {
    hide Pow2, Shl, Times;
    var l := size + n;
    var u := Pow2((l + 1) / 2);
    ShlPow2(n, size);
    SquareOfPow2((l + 1) / 2);
    NextSquare(u);
    if n % 2 == 1 {
      Pow2Next(l);
      Pow2Mono(size, l);
    }
  }

  lemma NextSquare(u: nat)
    ensures Times(u + 1, u + 1) == Times(u, u) + 2 * u + 1
  {
  }

  /** A Newton step from above stays above the root, and stops descending only at the root. */
  lemma NewtonStep(a: nat, s: nat, q: nat, r: nat)
    requires s >= 1 && a == Times(q, s) + r && r < s && a < Times(s + 1, s + 1)
    ensures var u := (q + s) / 2;
            && a < Times(u + 1, u + 1) && (u >= s ==> Times(s, s) <= a)
            && (a >= 1 ==> u >= 1)
  {
    var u, x := (q + s) / 2, q + 1;
    assert a < x * s;
    MeanAbove(u, x, s);
    if u >= s {
      ProductMono(s, q, s);
    }
  }

  lemma MeanAbove(u: nat, x: nat, s: nat)
    requires 2 * (u + 1) >= x + s
    ensures x * s <= Times(u + 1, u + 1)
  {
    MeanSquare(x, s);
    SquareMono(x + s, 2 * (u + 1));
    assert (2 * (u + 1)) * (2 * (u + 1)) == 4 * Times(u + 1, u + 1);
  }

  lemma MeanSquare(x: int, s: int)
    ensures (x + s) * (x + s) >= 4 * (x * s)
  {
    assert (x + s) * (x + s) - 4 * (x * s) == (x - s) * (x - s);
  }

  lemma SquareMono(x: nat, y: nat)
    requires x <= y
    ensures x * x <= y * y
  {
  }

  lemma ProductMono(x: nat, y: nat, s: nat)
    requires x <= y
    ensures x * s <= y * s
  {
  }

  lemma ProductOrder(x: nat, y: nat, s: nat)
    ensures x <= y ==> x * s <= y * s
  {
    if x <= y {
      ProductMono(x, y, s);
    }
  }

  lemma TimesIs(x: nat, y: nat)
    ensures Times(x, y) == x * y
  {
  }

  lemma DividendBound(size: nat, a1: nat, a0: nat)
    requires size >= 2 && a1 < Pow2(size - 2) && a0 < Pow2(size)
    ensures var half := Pow2(size - 1);
            && half >= 2 && 2 * a1 + 2 <= half && Pow2(size) == 2 * half && Shl(a1, size) == Times(a1, 2 * half)
            && TwoWords(size, a1, a0) < Times(half, half)
            && (IsTop(size, a1, a0) <==> TwoWords(size, a1, a0) == Times(half, half) - 1)
  {
    hide Pow2, Shl, Times;
    var half := Pow2(size - 1);
    Pow2Next(size - 2);
    Pow2Next(size - 1);
    ShlMul(a1, size);
    TimesIs(a1, 2 * half);
    HighShare(half, a1);
  }

  lemma HighShare(half: nat, a1: nat)
    requires 2 * a1 + 2 <= half
    ensures Times(a1, 2 * half) + 2 * half <= Times(half, half)
    ensures 2 * a1 + 2 == half ==> Times(a1, 2 * half) + 2 * half == Times(half, half)
    ensures 2 * a1 + 4 <= half ==> Times(a1, 2 * half) + 4 * half <= Times(half, half)
  {
    var p := a1 * half;
    assert 2 * p == a1 * (2 * half);
    assert (2 * a1 + 2) * half == 2 * p + 2 * half;
    assert (2 * a1 + 4) * half == 2 * p + 4 * half;
    ProductOrder(2 * a1 + 2, half, half);
    ProductOrder(2 * a1 + 4, half, half);
  }

  /**
   An estimate not below the root exceeds the dividend's high word, and its sum with the quotient stays a word but for
   the greatest dividend, where it is exactly one too many.
   */
  lemma EstimateBounds(size: nat, a1: nat, a0: nat, s: nat)
    requires size >= 4 && a1 < Pow2(size - 2) && a0 < Pow2(size) && 1 <= s <= Pow2(size - 1)
    requires TwoWords(size, a1, a0) < Times(s + 1, s + 1)
    ensures a1 < s < Pow2(size)
    ensures forall q: nat :: Times(q, s) <= TwoWords(size, a1, a0) ==>
              q + s < Pow2(size) || (IsTop(size, a1, a0) && q + s == Pow2(size))
  {
    hide Pow2, Shl, Times, IsTop, TwoWords;
    var half := Pow2(size - 1);
    DividendBound(size, a1, a0);
    if s <= a1 {
      BelowHigh(half, a1, s);
      TwoWordsIs(size, a1, a0);
    }
    forall q: nat | Times(q, s) <= TwoWords(size, a1, a0)
      ensures q + s < Pow2(size) || (IsTop(size, a1, a0) && q + s == Pow2(size))
    {
      if q + s >= Pow2(size) {
        SumTooBig(s, half - s, q);
      }
    }
  }

  lemma TwoWordsIs(size: nat, a1: nat, a0: nat)
    ensures TwoWords(size, a1, a0) == Shl(a1, size) + a0
  {
  }

  lemma BelowHigh(half: nat, a1: nat, s: nat)
    requires s <= a1 && 0 < a1 && 2 * a1 + 2 <= half
    ensures Times(s + 1, s + 1) <= Times(a1, 2 * half)
  {
    SquareMono(s + 1, a1 + 1);
    ProductMono(4 * a1 + 4, 2 * half, a1);
    assert (4 * a1 + 4) * a1 == 4 * (a1 * a1) + 4 * a1;
    assert (a1 + 1) * (a1 + 1) == a1 * a1 + 2 * a1 + 1;
  }

  /** An estimate x below half a word whose quotient reaches the rest of the word: only one below, and by one. */
  lemma SumTooBig(s: nat, x: nat, q: nat)
    requires s >= 1 && q >= s + 2 * x
    ensures Times(q, s) < Times(s + 1, s + 1) ==> Times(q, s) >= Times(s + x, s + x) - 1
    ensures Times(q, s) < Times(s + 1, s + 1) && Times(q, s) < Times(s + x, s + x) ==> x == 1 && q == s + 2 * x
  {
    ProductMono(s + 2 * x, q, s);
    var p := s * x;
    assert (s + 2 * x) * s == s * s + 2 * p;
    assert (s + x) * (s + x) == s * s + 2 * p + x * x;
    assert (s + 1) * (s + 1) == s * s + 2 * s + 1;
    if x >= 2 {
      ProductMono(2, x, s);
    } else if q > s + 2 * x {
      ProductMono(s + 2 * x + 1, q, s);
      assert (s + 2 * x + 1) * s == (s + 2 * x) * s + s;
    }
  }

  /** From a low start the first quotient already stops the iteration, within a word. */
  lemma LowStart(size: nat, a1: nat, a0: nat, q: nat, r: nat)
    requires size >= 4 && size % 2 == 0 && a1 < Pow2(size - 2) && a0 < Pow2(size) && StartsLow(size, a1, a0)
    requires var s := StartEstimate(size, a1, a0);
             TwoWords(size, a1, a0) == Times(q, s) + r && r < s
    ensures var s := StartEstimate(size, a1, a0);
            s <= q && q + s < Pow2(size)
  {
    hide Pow2, Shl, Times, BitLen;
    var s, n := StartEstimate(size, a1, a0), BitLen(a1 - 1);
    FirstEstimate(size, a1, a0);
    BitLenBound(a1 - 1, size - 2);
    ShlPow2(n, size);
    SquareOfPow2((size + n) / 2);
    Pow2Mono(size, size + n);
    Pow2Mono((size + n) / 2, size - 2);
    Pow2Next(size - 2);
    Pow2Next(size - 1);
    NextSquare(s);
    QuotientRange(s, q, r, TwoWords(size, a1, a0));
  }

  lemma QuotientRange(s: nat, q: nat, r: nat, a: nat)
    requires s >= 1 && a == Times(q, s) + r && r < s && Times(s, s) + 2 * s + 1 <= a < 2 * Times(s, s)
    ensures s <= q < 2 * s
  {
    ProductOrder(q + 1, s, s);
    assert (q + 1) * s == q * s + s;
    ProductOrder(2 * s, q, s);
    assert (2 * s) * s == 2 * (s * s);
  }

  lemma LowHigh(size: nat, a1: nat, a0: nat)
    requires size >= 4 && a1 < Pow2(size - 2) && StartsLow(size, a1, a0)
    ensures a1 < StartEstimate(size, a1, a0)
  {
    hide Pow2, BitLen;
    var n := BitLen(a1 - 1);
    BitLenBound(a1 - 1, size - 2);
    Pow2Mono(n, (size + n + 1) / 2);
  }

  /** On the greatest dividend the iteration cannot stop. */
  lemma TopGoesOn(size: nat, a1: nat, a0: nat, s: nat, q: nat, r: nat)
    requires size >= 4 && a1 < Pow2(size - 2) && a0 < Pow2(size) && IsTop(size, a1, a0) && s >= 1
    requires TwoWords(size, a1, a0) == Times(q, s) + r && r < s && IsFloorRoot(s, TwoWords(size, a1, a0))
    ensures q + s >= Pow2(size)
  {
    hide Pow2, Shl, IsTop, TwoWords;
    var half := Pow2(size - 1);
    DividendBound(size, a1, a0);
    TopRoot(half, s);
    TopQuotient(half, q, s, r);
  }

  lemma TopRoot(half: nat, s: nat)
    requires Times(s, s) <= Times(half, half) - 1 < Times(s + 1, s + 1)
    ensures s == half - 1
  {
    SquareOrder(half, s);
    SquareOrder(s + 1, half - 1);
    SquareOrder(s + 2, half);
    assert (s + 2) * (s + 2) == (s + 1) * (s + 1) + 2 * s + 3;
  }

  lemma SquareOrder(x: int, y: int)
    ensures 0 <= x <= y ==> x * x <= y * y
  {
    if 0 <= x <= y {
      SquareMono(x, y);
    }
  }

  lemma TopQuotient(half: nat, q: nat, s: nat, r: nat)
    requires s == half - 1 && Times(q, s) + r == Times(half, half) - 1 && r < s
    ensures q + s >= 2 * half
  {
    ProductOrder(q, half, s);
    assert half * s + s == (half + 1) * (half - 1) == half * half - 1;
  }

  /**
   sqrtrem_u by Newton's iteration, for every dividend whose starting estimate is a word: the result is the integer
   square root unless the iteration starts low, and the flag says whether anything is left over. Where the sum of an
   iteration wraps the estimate falls to zero and the assertion of divrem_u fails.
   */
  method SqrtremU(size: nat, a1: nat, a0: nat) returns (root: nat, inexact: bool, aborted: bool)
    requires size >= 4 && size % 2 == 0 && a1 <= Pow2(size - 2) && a0 < Pow2(size)
    ensures aborted <==> Wraps(size, a1, a0)
    ensures !aborted ==> (IsFloorRoot(root, TwoWords(size, a1, a0)) <==> !StartsLow(size, a1, a0))
    ensures !aborted ==> (inexact <==> Times(root, root) != TwoWords(size, a1, a0))
  {
    hide Pow2, Shl, Times, BitLen, IsTop, StartsLow, TwoWords, StartEstimate;
    ghost var a, low, first := TwoWords(size, a1, a0), StartsLow(size, a1, a0), StartEstimate(size, a1, a0);
    if a1 == 0 && a0 == 0 {
      NothingToRoot(size);
      return 0, false, false;
    }
    StartPlace(size, a1, a0);
    EstimateIs(size, a1, a0);
    var l := if a1 != 0 then 2 * size - (size - BitLen(a1 - 1)) else BitLen(a0 - 1);
    var u := Pow2((l + 1) / 2);
    var s := u;
    while true
      invariant 0 <= u <= s <= Pow2(size - 1)
      invariant OnTheWay(size, a1, a0, u)
      decreases u
    {
      s := u;
      if a1 >= s {
        Assertion(size, a1, a0, s);
        return 0, false, true;
      }
      HalfWord(size);
      var q, r := DivremU(size, a1, a0, s);
      TwoWordsIs(size, a1, a0);
      u := WrappedMean(size, a1, a0, s, q, r);
      if u >= s {
        break;
      }
    }
    var sq1, sq0 := MulU(size / 2, s, s);
    inexact := sq0 != a0 || sq1 != a1;
    TwoWordsIs(size, a1, a0);
    TwoFields(a1, a0, size);
    TwoFields(sq1, sq0, size);
    root, aborted := s, false;
  }

  /** Where the estimates are before the iteration ends: one that is zero comes of a wrapped sum. */
  ghost predicate OnTheWay(size: nat, a1: nat, a0: nat, s: nat)
    requires size >= 2
  {
    if s == 0 then Wraps(size, a1, a0)
    else if a1 == Pow2(size - 2) then s == Pow2(size - 1)
    else if StartsLow(size, a1, a0) then s == StartEstimate(size, a1, a0)
    else TwoWords(size, a1, a0) < Times(s + 1, s + 1)
  }

  lemma StartPlace(size: nat, a1: nat, a0: nat)
    requires size >= 4 && size % 2 == 0 && a1 <= Pow2(size - 2) && a0 < Pow2(size) && (a1 > 0 || a0 > 0)
    ensures var u := StartEstimate(size, a1, a0);
            1 <= u <= Pow2(size - 1) && OnTheWay(size, a1, a0, u)
  {
    hide Pow2, Shl, Times, BitLen, IsTop, StartsLow, TwoWords;
    if a1 < Pow2(size - 2) {
      FirstEstimate(size, a1, a0);
    } else {
      BitLenOfPower(size - 2);
    }
  }

  lemma BitLenOfPower(n: nat)
    ensures BitLen(Pow2(n) - 1) == n
  {
    hide Pow2, BitLen;
    var l := BitLen(Pow2(n) - 1);
    BitLenRange(Pow2(n) - 1);
    BitLenBound(Pow2(n) - 1, n);
    if l < n {
      Pow2Mono(l + 1, n);
      Pow2Next(l);
    }
  }

  /** u = (q + s) / 2 in a word, and where the iteration is after it. */
  method WrappedMean(size: nat, a1: nat, a0: nat, s: nat, q: nat, r: nat) returns (u: nat)
    requires size >= 4 && size % 2 == 0 && a1 <= Pow2(size - 2) && a0 < Pow2(size) && a1 < s <= Pow2(size - 1)
    requires TwoWords(size, a1, a0) == Times(q, s) + r && r < s && (a1 > 0 || a0 > 0) && OnTheWay(size, a1, a0, s)
    ensures u == Low(q + s, size) / 2
    ensures u >= s ==> !Wraps(size, a1, a0) && (IsFloorRoot(s, TwoWords(size, a1, a0)) <==> !StartsLow(size, a1, a0))
    ensures u < s ==> OnTheWay(size, a1, a0, u)
  {
    hide Pow2, Shl, Shr, Times, BitLen, IsTop, StartsLow, TwoWords, StartEstimate, Low;
    u := Low(q + s, size) / 2;
    LowOfSum(q + s, size);
    if a1 == Pow2(size - 2) {
      PastTop(size, a1, a0, q, r);
    } else if StartsLow(size, a1, a0) {
      LowStart(size, a1, a0, q, r);
      NotBoth(size, a1, a0);
      FirstEstimate(size, a1, a0);
    } else {
      EstimateBounds(size, a1, a0, s);
      NewtonStep(TwoWords(size, a1, a0), s, q, r);
      NonzeroWords(size, a1, a0);
      if q + s < Pow2(size) && u >= s && IsTop(size, a1, a0) {
        TopGoesOn(size, a1, a0, s, q, r);
      }
    }
  }

  /** A quarter of a word over any low word: the quotient by half a word is half a word or one more. */
  lemma PastTop(size: nat, a1: nat, a0: nat, q: nat, r: nat)
    requires size >= 2 && a1 == Pow2(size - 2) && a0 < Pow2(size)
    requires TwoWords(size, a1, a0) == Times(q, Pow2(size - 1)) + r && r < Pow2(size - 1)
    ensures Pow2(size) <= q + Pow2(size - 1) <= Pow2(size) + 1
  {
    hide Pow2, Shl, Times;
    var half := Pow2(size - 1);
    Pow2Next(size - 1);
    ShlPow2(size - 2, size);
    SquareOfPow2(size - 1);
    HalfQuotient(half, q, r, a0);
  }

  lemma HalfQuotient(half: nat, q: nat, r: nat, a0: nat)
    requires Times(half, half) + a0 == Times(q, half) + r && r < half && a0 < 2 * half
    ensures half <= q <= half + 1
  {
    ProductOrder(q + 1, half, half);
    assert (q + 1) * half == q * half + half;
    ProductOrder(half + 2, q, half);
    assert (half + 2) * half == half * half + 2 * half;
  }

  lemma HalfWord(size: nat)
    requires size >= 1
    ensures Pow2(size - 1) < Pow2(size) && Pow2(size) >= 2
  {
  }

  lemma LowOfSum(x: nat, size: nat)
    ensures x < Pow2(size) ==> Low(x, size) == x
    ensures size >= 1 && Pow2(size) <= x <= Pow2(size) + 1 ==> Low(x, size) == x - Pow2(size)
  {
    hide Pow2, Shl, Shr, Low;
    ShlOne(size);
    if x < Pow2(size) {
      TwoFields(0, x, size);
    } else if size >= 1 && x <= Pow2(size) + 1 {
      HalfWord(size);
      TwoFields(1, x - Pow2(size), size);
    }
  }

  lemma NonzeroWords(size: nat, a1: nat, a0: nat)
    requires a1 > 0 || a0 > 0
    ensures TwoWords(size, a1, a0) >= 1
  {
    hide Shl;
    if a1 > 0 {
      ShlOrder(0, a1, size);
      ShlOne(size);
    }
  }

  lemma NothingToRoot(size: nat)
    requires size >= 4
    ensures TwoWords(size, 0, 0) == 0 == Times(0, 0) && Times(1, 1) == 1 && !StartsLow(size, 0, 0) && !IsTop(size, 0, 0)
  {
    hide Pow2, Shl;
    ShlOne(size);
    Pow2Mono(2, size);
    Sixteen4();
  }

  lemma Sixteen4()
    ensures Pow2(2) == 4
  {
  }

  lemma EstimateIs(size: nat, a1: nat, a0: nat)
    requires a1 > 0 || a0 > 0
    ensures StartEstimate(size, a1, a0) ==
            Pow2(((if a1 != 0 then 2 * size - (size - BitLen(a1 - 1)) else BitLen(a0 - 1)) + 1) / 2)
  {
  }

  /** The greatest dividend does not start low. */
  lemma NotBoth(size: nat, a1: nat, a0: nat)
    requires size >= 4 && size % 2 == 0 && a1 < Pow2(size - 2) && a0 < Pow2(size)
    ensures StartsLow(size, a1, a0) ==> !IsTop(size, a1, a0) && a1 < StartEstimate(size, a1, a0)
  {
    hide Pow2, BitLen;
    if StartsLow(size, a1, a0) {
      LowHigh(size, a1, a0);
      var n := BitLen(a1 - 1);
      BitLenBound(a1 - 1, size - 2);
      Pow2Mono(n + 1, size - 2);
      Pow2Mono(2, size - 2);
      Sixteen4();
      Pow2Next(n);
    }
  }

  /** Only a wrapped sum gets the iteration to an estimate that divrem_u does not take. */
  lemma Assertion(size: nat, a1: nat, a0: nat, s: nat)
    requires size >= 4 && size % 2 == 0 && a1 <= Pow2(size - 2) && a0 < Pow2(size) && s <= a1 && s <= Pow2(size - 1)
    requires OnTheWay(size, a1, a0, s)
    ensures Wraps(size, a1, a0)
  {
    hide Pow2, Shl, Times, BitLen, IsTop, StartsLow, TwoWords, StartEstimate;
    if a1 < Pow2(size - 2) {
      NotBoth(size, a1, a0);
      if !StartsLow(size, a1, a0) && s > 0 {
        EstimateBounds(size, a1, a0, s);
      }
    }
  }

  /** The 32-bit dividend 0x1_FFFF_FFFF starts low: its root is 92681, but the iteration stops where it starts. */
  method RootTooLow() returns (root: nat, inexact: bool, aborted: bool)
    ensures !aborted && IsFloorRoot(92681, 0x1_FFFF_FFFF) && !IsFloorRoot(root, 0x1_FFFF_FFFF)
  {
    LowExample();
    root, inexact, aborted := SqrtremU(32, 1, 0xFFFF_FFFF);
  }

  lemma LowExample()
    ensures StartsLow(32, 1, 0xFFFF_FFFF) && !Wraps(32, 1, 0xFFFF_FFFF) && TwoWords(32, 1, 0xFFFF_FFFF) == 0x1_FFFF_FFFF
    ensures Pow2(30) > 1 && Pow2(32) == 0x1_0000_0000 && IsFloorRoot(92681, 0x1_FFFF_FFFF)
  {
    WordPowers();
    ShlOne(32);
    assert BitLen(0) == 0;
  }

  lemma WordPowers()
    ensures Pow2(0) == 1 && Pow2(16) == 0x1_0000 && Pow2(30) == 0x4000_0000 && Pow2(32) == 0x1_0000_0000
  {
    assert Pow2(8) == 0x100;
    SquareOfPow2(8);
    SquareOfPow2(16);
    Pow2Next(30);
    Pow2Next(31);
  }

  /** On the greatest 32-bit dividend that the first estimate is a word for, the sum wraps and the division aborts. */
  method RootAborts() returns (root: nat, inexact: bool, aborted: bool)
    ensures aborted
  {
    WordPowers();
    root, inexact, aborted := SqrtremU(32, 0x3FFF_FFFF, 0xFFFF_FFFF);
  }
}
