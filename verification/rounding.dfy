/** Rounding of an exact nonnegative value to an integer, and the C code's way of doing it. */
module Rounding {
  import opened Powers
  import opened Jamming

  datatype RoundingMode = RNE | RTZ | RDN | RUP | RMM

  /** The five rounding directions, on the magnitude of a value whose sign is `neg`. */
  ghost function RoundReal(rm: RoundingMode, neg: bool, y: real): int {
    var n := y.Floor;
    var tail := y - n as real;
    match rm
    case RTZ => n
    case RDN => if neg && tail > 0.0 then n + 1 else n
    case RUP => if !neg && tail > 0.0 then n + 1 else n
    case RNE => if tail < 0.5 || (tail == 0.5 && n % 2 == 0) then n else n + 1
    case RMM => if tail < 0.5 then n else n + 1
  }

  /** What the C code adds below the rounding position, r bits up. */
  function Addend(rm: RoundingMode, neg: bool, r: nat): nat
    requires r >= 1
  {
    match rm
    case RNE => Pow2(r - 1)
    case RMM => Pow2(r - 1)
    case RTZ => 0
    case RDN => if neg then Pow2(r) - 1 else 0
    case RUP => if neg then 0 else Pow2(r) - 1
  }

  /** Add, shift, and clear bit 0 when an exact tie must go to even. */
  function RoundBits(rm: RoundingMode, neg: bool, j: nat, r: nat): nat
    requires r >= 1
  {
    var q := Shr(j + Addend(rm, neg, r), r);
    if rm == RNE && Low(j, r) == Pow2(r - 1) then q - q % 2 else q
  }

  /** z lies between n and n + 1, at the place the low bits `rem` of 2h say. */
  ghost predicate Between(z: real, n: int, rem: nat, h: nat) {
    && n as real <= z < n as real + 1.0
    && (z == n as real <==> rem == 0)
    && (z - n as real < 0.5 <==> rem < h)
    && (z - n as real == 0.5 <==> rem == h)
  }

  lemma RoundingPosition(y: real, j: nat, g: nat, r: nat)
    requires Jams(y, j, g) && r >= 1 && g <= r - 1
    ensures Between(Scale(y, 0 - r), Shr(j, r), Low(j, r), Pow2(r - 1))
  {
    var n := Shr(j, r);
    GridPoint(y, j, g, r - 1, 2 * n);
    GridPoint(y, j, g, r - 1, 2 * n + 1);
    GridPoint(y, j, g, r - 1, 2 * n + 2);
    Split(j, r);
    ShlShl(n, 1, r - 1);
    ShlOne(r - 1);
    ShlAdd(2 * n, 1, r - 1);
    ShlAdd(2 * n + 1, 1, r - 1);
    ScaleNext(y, 0 - r);
    assert Shl(n, 1) == 2 * n;
  }

  lemma GridPoint(y: real, j: nat, g: nat, d: nat, t: int)
    requires Jams(y, j, g) && g <= d
    ensures Scale(y, 0 - d) < t as real <==> j < Shl(t, d)
    ensures Scale(y, 0 - d) == t as real <==> j == Shl(t, d)
  {
    JamAt(y, j, g, t, d);
    SameSideRight(y, j, t, d);
  }

  /** The C code's integer arithmetic rounds the exact value, and its low bits say whether anything was lost. */
  lemma RoundingIsExact(rm: RoundingMode, neg: bool, y: real, j: nat, g: nat, r: nat)
    requires Jams(y, j, g) && r >= 1 && g <= r - 1
    ensures RoundBits(rm, neg, j, r) == RoundReal(rm, neg, Scale(y, 0 - r))
    ensures Low(j, r) == 0 <==> Scale(y, 0 - r) == RoundReal(rm, neg, Scale(y, 0 - r)) as real
    ensures Shr(j, r) <= RoundBits(rm, neg, j, r) <= Shr(j, r) + 1
  {
    RoundingPosition(y, j, g, r);
    var n, z := Shr(j, r), Scale(y, 0 - r);
    assert z.Floor == n;
    ShrPlus(j, r, Addend(rm, neg, r));
    Split(j, r);
  }

  lemma ShrPlus(j: nat, r: nat, a: nat)
    requires a < Pow2(r)
    ensures Shr(j + a, r) == Shr(j, r) + (if Low(j, r) + a >= Pow2(r) then 1 else 0)
  {
    var n := Shr(j, r);
    Split(j, r);
    ShlOne(r);
    ShlAdd(n, 1, r);
    ShlAdd(n + 1, 1, r);
    SplitUnique(j + a, r, n + (if Low(j, r) + a >= Pow2(r) then 1 else 0));
  }
}
