/** Shifts, masks and powers of two, and the scaling x * 2^k of an exact value. */
module Powers {

  function Pow2(n: nat): (r: nat)
    ensures r >= 1
  {
    if n == 0 then 1 else 2 * Pow2(n - 1)
  }

  /** a << d */
  function Shl(a: int, d: nat): (r: int)
    ensures a >= 0 ==> r >= 0
  {
    if d == 0 then a else 2 * Shl(a, d - 1)
  }

  /** a >> d */
  function Shr(a: nat, d: nat): nat {
    if d == 0 then a else Shr(a / 2, d - 1)
  }

  /** a & ((1 << d) - 1) */
  function Low(a: nat, d: nat): nat {
    if d == 0 then 0 else a % 2 + 2 * Low(a / 2, d - 1)
  }

  lemma NoShift(a: nat)
    ensures Shl(a, 0) == a && Shr(a, 0) == a && Low(a, 0) == 0
  {
  }

  lemma Pow2Next(d: nat)
    ensures Pow2(d + 1) == 2 * Pow2(d) == Shl(1, d + 1)
  {
    ShlOne(d + 1);
  }

  lemma {:induction false} Split(a: nat, d: nat)
    ensures a == Shl(Shr(a, d), d) + Low(a, d) && Low(a, d) < Pow2(d)
  {
    if d > 0 {
      Split(a / 2, d - 1);
    }
  }

  lemma {:induction false} ShlOne(d: nat)
    ensures Shl(1, d) == Pow2(d) && Shl(0, d) == 0
  {
    if d > 0 {
      ShlOne(d - 1);
    }
  }

  lemma {:induction false} ShlAdd(a: int, b: int, d: nat)
    ensures Shl(a + b, d) == Shl(a, d) + Shl(b, d)
    ensures Shl(a - b, d) == Shl(a, d) - Shl(b, d)
  {
    if d > 0 {
      ShlAdd(a, b, d - 1);
    }
  }

  lemma {:induction false} ShlOrder(a: int, b: int, d: nat)
    ensures a < b <==> Shl(a, d) < Shl(b, d)
    ensures a == b <==> Shl(a, d) == Shl(b, d)
  {
    if d > 0 {
      ShlOrder(a, b, d - 1);
    }
  }

  lemma {:induction false} ShlShl(a: int, c: nat, d: nat)
    ensures Shl(Shl(a, c), d) == Shl(a, c + d)
  {
    if d > 0 {
      ShlShl(a, c, d - 1);
    }
  }

  lemma ShlPow2(c: nat, d: nat)
    ensures Shl(Pow2(c), d) == Pow2(c + d)
  {
    ShlOne(c);
    ShlShl(1, c, d);
    ShlOne(c + d);
  }

  lemma {:induction false} ShlMul(a: int, d: nat)
    ensures Shl(a, d) == a * Pow2(d)
  {
    if d > 0 {
      ShlMul(a, d - 1);
    }
  }

  /** The quotient and remainder of a power of two are determined by their range. */
  lemma SplitUnique(a: nat, d: nat, q: nat)
    requires Shl(q, d) <= a < Shl(q + 1, d)
    ensures Shr(a, d) == q && Low(a, d) == a - Shl(q, d)
  {
    Split(a, d);
    var s := Shr(a, d);
    ShlOne(d);
    ShlAdd(s, 1, d);
    ShlOrder(q, s + 1, d);
    ShlOrder(s, q + 1, d);
  }

  /** A high and a low field joined come apart again. */
  lemma TwoFields(high: nat, low: nat, d: nat)
    requires low < Pow2(d)
    ensures Shl(high, d) >= 0
    ensures Shr(Shl(high, d) + low, d) == high && Low(Shl(high, d) + low, d) == low
    ensures Shl(high, d) + low < Pow2(d) + Shl(high, d) == Shl(high + 1, d)
    ensures high <= 1 ==> Shl(high, d) + low < Pow2(d + 1)
  {
    ShlOne(d);
    ShlAdd(high, 1, d);
    ShlOrder(0, high, d);
    ShlAdd(1, 1, d);
    SplitUnique(Shl(high, d) + low, d, high);
  }

  lemma ShrOrder(a: nat, d: nat, t: int)
    ensures Shr(a, d) < t <==> a < Shl(t, d)
    ensures Shr(a, d) == t && Low(a, d) == 0 <==> a == Shl(t, d)
  {
    Split(a, d);
    var q := Shr(a, d);
    ShlOne(d);
    ShlAdd(q, 1, d);
    ShlOrder(q, t, d);
    ShlOrder(q + 1, t, d);
    ShlOrder(t, q + 1, d);
  }

  lemma {:induction false} ShrShr(a: nat, c: nat, d: nat)
    ensures Shr(Shr(a, c), d) == Shr(a, c + d)
  {
    if c > 0 {
      ShrShr(a / 2, c - 1, d);
    }
  }

  lemma ShrSmall(a: nat, d: nat)
    requires a < Pow2(d)
    ensures Shr(a, d) == 0 && Low(a, d) == a
  {
    ShlOne(d);
    SplitUnique(a, d, 0);
  }

  lemma {:induction false} Pow2Mono(a: nat, b: nat)
    requires a <= b
    ensures Pow2(a) <= Pow2(b)
    ensures a < b ==> 2 * Pow2(a) <= Pow2(b)
    decreases b
  {
    if a < b {
      Pow2Mono(a, b - 1);
    }
  }

  /** Number of significant bits; clz(a) is F_SIZE - BitLen(a). */
  function BitLen(a: nat): nat {
    if a == 0 then 0 else 1 + BitLen(a / 2)
  }

  lemma {:induction false} BitLenRange(a: nat)
    ensures a < Pow2(BitLen(a))
    ensures a > 0 ==> BitLen(a) >= 1 && Pow2(BitLen(a) - 1) <= a
  {
    if a > 1 {
      BitLenRange(a / 2);
    }
  }

  lemma BitLenBound(a: nat, n: nat)
    ensures a < Pow2(n) <==> BitLen(a) <= n
  {
    BitLenRange(a);
    if BitLen(a) <= n {
      Pow2Mono(BitLen(a), n);
    } else {
      Pow2Mono(n, BitLen(a) - 1);
    }
  }

  lemma BitLenZero(a: nat)
    ensures BitLen(a) == 0 <==> a == 0
  {
  }

  lemma ShlRange(t: nat, n: nat, s: nat)
    requires n >= 1 && Pow2(n - 1) <= t < Pow2(n)
    ensures Pow2(n - 1 + s) <= Shl(t, s) < Pow2(n + s)
  {
    hide Pow2, Shl;
    ShlPow2(n - 1, s);
    ShlPow2(n, s);
    ShlOrder(Pow2(n - 1), t, s);
    ShlOrder(t, Pow2(n), s);
  }

  /** x * 2^k, for any integer k. */
  ghost function Scale(x: real, k: int): real
    decreases if k >= 0 then k else -k
  {
    if k == 0 then x else if k > 0 then 2.0 * Scale(x, k - 1) else Scale(x, k + 1) / 2.0
  }

  lemma ScaleNext(x: real, k: int)
    ensures Scale(x, k + 1) == 2.0 * Scale(x, k)
  {
  }

  lemma {:induction false} ScaleScale(x: real, a: int, b: int)
    ensures Scale(Scale(x, a), b) == Scale(x, a + b)
    decreases if b >= 0 then b else -b
  {
    if b > 0 {
      ScaleScale(x, a, b - 1);
      ScaleNext(x, a + b - 1);
    } else if b < 0 {
      ScaleScale(x, a, b + 1);
      ScaleNext(x, a + b);
    }
  }

  lemma {:induction false} ScaleLinear(x: real, y: real, k: int)
    ensures Scale(x + y, k) == Scale(x, k) + Scale(y, k)
    ensures Scale(x - y, k) == Scale(x, k) - Scale(y, k)
    decreases if k >= 0 then k else -k
  {
    if k > 0 {
      ScaleLinear(x, y, k - 1);
    } else if k < 0 {
      ScaleLinear(x, y, k + 1);
    }
  }

  lemma {:induction false} ScaleOrder(x: real, y: real, k: int)
    ensures x < y <==> Scale(x, k) < Scale(y, k)
    ensures x == y <==> Scale(x, k) == Scale(y, k)
    decreases if k >= 0 then k else -k
  {
    if k > 0 {
      ScaleOrder(x, y, k - 1);
    } else if k < 0 {
      ScaleOrder(x, y, k + 1);
    }
  }

  lemma {:induction false} ScaleZero(k: int)
    ensures Scale(0.0, k) == 0.0
    decreases if k >= 0 then k else -k
  {
    if k > 0 {
      ScaleZero(k - 1);
    } else if k < 0 {
      ScaleZero(k + 1);
    }
  }

  lemma {:induction false} ScaleProduct(x: real, y: real, k: int)
    ensures Scale(x, k) * y == Scale(x * y, k)
    decreases if k >= 0 then k else -k
  {
    if k > 0 {
      ScaleProduct(x, y, k - 1);
      DoubleProduct(Scale(x, k - 1), y);
    } else if k < 0 {
      ScaleProduct(x, y, k + 1);
      DoubleProduct(Scale(x, k), y);
    }
  }

  lemma {:induction false} ScaleProductRight(x: real, y: real, k: int)
    ensures x * Scale(y, k) == Scale(x * y, k)
    decreases if k >= 0 then k else -k
  {
    if k > 0 {
      ScaleProductRight(x, y, k - 1);
      DoubleProduct(Scale(y, k - 1), x);
    } else if k < 0 {
      ScaleProductRight(x, y, k + 1);
      DoubleProduct(Scale(y, k), x);
    }
  }

  lemma DoubleProduct(x: real, y: real)
    ensures (2.0 * x) * y == 2.0 * (x * y)
  {
  }

  lemma {:induction false} ScaleInt(n: int, d: nat)
    ensures Scale(n as real, d) == Shl(n, d) as real
  {
    if d > 0 {
      ScaleInt(n, d - 1);
    }
  }
}
