/**
 A "jammed" integer stands for an exact value it may have lost the tail of: bit 0 of the
 kept part is forced to one whenever something nonzero was shifted out. What makes that
 enough for rounding is that the integer and the value still compare alike with every
 multiple of a small power of two; that is the definition used here.
 */
module Jamming {
  import opened Powers

  ghost predicate SameSide(y: real, j: int, t: int) {
    (j < t <==> y < t as real) && (j == t <==> y == t as real)
  }

  /** j jams y at grain g: they compare alike with every multiple of 2^g. */
  ghost predicate Jams(y: real, j: int, g: nat) {
    forall k: int :: SameSide(y, j, Shl(k, g))
  }

  /** The sticky right shift: j >> d with bit 0 set when a nonzero bit was shifted out. */
  function ShiftJam(j: nat, d: nat): nat {
    OrBit(Shr(j, d), Low(j, d) != 0)
  }

  /** q |= c */
  function OrBit(q: nat, c: bool): nat {
    if c && q % 2 == 0 then q + 1 else q
  }

  lemma JamAt(y: real, j: int, g: nat, k: int, h: nat)
    requires Jams(y, j, g) && g <= h
    ensures SameSide(y, j, Shl(k, h))
  {
    ShlShl(k, h - g, g);
    assert SameSide(y, j, Shl(Shl(k, h - g), g));
  }

  lemma SameSideLeft(y: real, j: int, t: int, s: nat)
    requires SameSide(y, j, t)
    ensures SameSide(Scale(y, s), Shl(j, s), Shl(t, s))
  {
    ShlOrder(j, t, s);
    ScaleInt(t, s);
    ScaleOrder(y, t as real, s);
  }

  lemma SameSideRight(y: real, j: int, t: int, d: nat)
    requires SameSide(y, j, Shl(t, d))
    ensures Scale(y, 0 - d) < t as real <==> j < Shl(t, d)
    ensures Scale(y, 0 - d) == t as real <==> j == Shl(t, d)
  {
    ScaleInt(t, d);
    ScaleScale(y, 0 - d, d);
    ScaleOrder(Scale(y, 0 - d), t as real, d);
  }

  lemma JamLeft(y: real, j: int, g: nat, s: nat)
    requires Jams(y, j, g)
    ensures Jams(Scale(y, s), Shl(j, s), g + s)
  {
    var j', h := Shl(j, s), g + s;
    forall k: int
      ensures SameSide(Scale(y, s), j', Shl(k, h))
    {
      ShlShl(k, g, s);
      assert SameSide(y, j, Shl(k, g));
      SameSideLeft(y, j, Shl(k, g), s);
    }
  }

  lemma EvenShl(k: int, h: nat)
    requires h >= 1
    ensures Shl(k, h) % 2 == 0
  {
  }

  /** Shifting right keeps a jam, whatever is shifted out, down to grain 1. */
  lemma JamRight(y: real, j: nat, g: nat, d: nat, h: nat)
    requires Jams(y, j, g) && h >= 1 && g <= h + d
    ensures Jams(Scale(y, 0 - d), ShiftJam(j, d), h)
  {
    forall k: int
      ensures SameSide(Scale(y, 0 - d), ShiftJam(j, d), Shl(k, h))
    {
      var t := Shl(k, h);
      EvenShl(k, h);
      JamAt(y, j, g, k, h + d);
      ShlShl(k, h, d);
      SameSideRight(y, j, t, d);
      ShrOrder(j, d, t);
    }
  }

  /** Flooring, with bit 0 set when the floor is not the value, is a jam at grain 1. */
  lemma FloorJam(y: real, q: nat, lost: bool)
    requires q as real <= y < q as real + 1.0 && (y == q as real <==> !lost)
    ensures Jams(y, OrBit(q, lost), 1)
  {
    forall k: int
      ensures SameSide(y, OrBit(q, lost), Shl(k, 1))
    {
      EvenShl(k, 1);
    }
  }

  lemma JamExact(j: int, g: nat)
    ensures Jams(j as real, j, g)
  {
  }

  lemma JamOffset(y: real, j: int, g: nat, c: int)
    requires Jams(y, j, g)
    ensures Jams(Shl(c, g) as real + y, Shl(c, g) + j, g)
    ensures Jams(Shl(c, g) as real - y, Shl(c, g) - j, g)
  {
    var a := Shl(c, g);
    forall k: int
      ensures SameSide(a as real + y, a + j, Shl(k, g))
      ensures SameSide(a as real - y, a - j, Shl(k, g))
    {
      ShlAdd(k, c, g);
      ShlAdd(c, k, g);
      assert SameSide(y, j, Shl(k - c, g));
      assert SameSide(y, j, Shl(c - k, g));
    }
  }
}
