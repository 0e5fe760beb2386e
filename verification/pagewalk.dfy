/**
 The Sv32 page walk of get_phys_addr over guest RAM, as a function: what it reads, what it answers,
 and the accessed/dirty bits it writes back.
 */
module PageWalk {
  import opened Basics

  /** RV_RAM_BASE */
  const RAM_BASE := 0x8000_0000
  const PAGE := 0x1000
  const SPACE := 0x1_0000_0000

  type Ram = m: seq<Byte> | |m| % PAGE == 0 && |m| <= 0x4000_0000 witness []

  datatype Access = Read | Write | Code

  /** The CPU state a translation depends on. */
  datatype Regime = Regime(satp: nat, priv: nat, mprv: bool, mpp: nat, sum: bool, mxr: bool)

  const PRV_U := 0
  const PRV_S := 1
  const PRV_M := 3

  function EffectivePriv(c: Regime, acc: Access): nat {
    if c.mprv && acc != Code then c.mpp else c.priv
  }

  predicate Translates(c: Regime, acc: Access) {
    EffectivePriv(c, acc) != PRV_M && c.satp / 0x8000_0000 != 0
  }

  predicate InRam(m: Ram, a: int, n: nat) {
    RAM_BASE <= a && a + n <= RAM_BASE + |m|
  }

  /** phys_read_u32: 0 where there is no RAM */
  function Word32(m: Ram, a: int): nat {
    if InRam(m, a, 4) then
      var o := a - RAM_BASE;
      m[o] as int + 0x100 * m[o + 1] as int + 0x1_0000 * m[o + 2] as int + 0x100_0000 * m[o + 3] as int
    else 0
  }

  /* ---- page table entries ---- */

  predicate IsValid(pte: nat) {
    pte % 2 == 1
  }

  function Xwr(pte: nat): nat {
    pte / 2 % 8
  }

  predicate IsUser(pte: nat) {
    pte / 16 % 2 == 1
  }

  predicate IsAccessed(pte: nat) {
    pte / 64 % 2 == 1
  }

  predicate IsDirty(pte: nat) {
    pte / 128 % 2 == 1
  }

  /** (pte >> 10) << PG_SHIFT, in 32 bits */
  function TargetOf(pte: nat): nat {
    pte / 1024 * PAGE % SPACE
  }

  /** The privilege and protection checks on a leaf: SUM and MXR apply to every access kind. */
  predicate Permits(c: Regime, acc: Access, pte: nat) {
    && Xwr(pte) != 2 && Xwr(pte) != 6
    && (if EffectivePriv(c, acc) == PRV_S then !IsUser(pte) || c.sum else IsUser(pte))
    && match acc
       case Read => Xwr(pte) % 2 == 1 || (c.mxr && Xwr(pte) >= 4)
       case Write => Xwr(pte) / 2 % 2 == 1
       case Code => Xwr(pte) >= 4
  }

  /** pte with A, and for a write D, set */
  function Marked(pte: nat, acc: Access): nat {
    pte + (if IsAccessed(pte) then 0 else 64) + (if acc == Write && !IsDirty(pte) then 128 else 0)
  }

  /* ---- the walk ---- */

  datatype Walked = Fault | Untranslated | Leaf(paddr: nat, pteAddr: nat, pte: nat)

  /** Bytes mapped by an entry at level i. */
  function Span(i: nat): nat {
    if i == 0 then 0x40_0000 else PAGE
  }

  function PteAddr(v: nat, table: nat, i: nat): nat {
    table + v / Span(i) % 1024 * 4
  }

  function RootTable(c: Regime): nat {
    c.satp % 0x40_0000 * PAGE % SPACE
  }

  function WalkFrom(c: Regime, m: Ram, v: nat, acc: Access, table: nat, i: nat): Walked
    decreases 2 - i
  {
    if i >= 2 then
      Fault
    else
      var a := PteAddr(v, table, i);
      var pte := Word32(m, a);
      if !IsValid(pte) then
        Fault
      else if Xwr(pte) == 0 then
        WalkFrom(c, m, v, acc, TargetOf(pte), i + 1)
      else if Permits(c, acc, pte) then
        Leaf(v % Span(i) + (TargetOf(pte) - TargetOf(pte) % Span(i)), a, pte)
      else
        Fault
  }

  function Walk(c: Regime, m: Ram, v: nat, acc: Access): Walked {
    if Translates(c, acc) then WalkFrom(c, m, v, acc, RootTable(c), 0) else Untranslated
  }

  /** The physical address, if the access is allowed. */
  function Outcome(c: Regime, m: Ram, v: nat, acc: Access): Option<nat> {
    match Walk(c, m, v, acc)
    case Fault => None
    case Untranslated => Some(v)
    case Leaf(p, _, _) => Some(p)
  }

  /** Memory after the walk: the leaf entry marked, nothing else touched. */
  function AfterWalk(c: Regime, m: Ram, v: nat, acc: Access): (r: Ram)
    ensures |r| == |m|
  {
    match Walk(c, m, v, acc)
    case Leaf(_, a, pte) => WithWord(m, a, Marked(pte, acc))
    case _ => m
  }

  function ByteOf(w: nat, k: nat): Byte {
    if k == 0 then w % 0x100
    else if k == 1 then w / 0x100 % 0x100
    else if k == 2 then w / 0x1_0000 % 0x100
    else w / 0x100_0000 % 0x100
  }

  /** phys_write_u32 */
  function WithWord(m: Ram, a: int, w: nat): (r: Ram)
    ensures |r| == |m|
  {
    if InRam(m, a, 4) then
      var o := a - RAM_BASE;
      m[o := ByteOf(w, 0)][o + 1 := ByteOf(w, 1)][o + 2 := ByteOf(w, 2)][o + 3 := ByteOf(w, 3)]
    else m
  }

  /** A page number shifted into a 32-bit address. */
  lemma Truncated(n: nat)
    ensures n * PAGE % SPACE == n % 0x10_0000 * PAGE
    ensures n * PAGE % SPACE % PAGE == 0 && n * PAGE % SPACE % 4 == 0
  {
    var k := n % 0x10_0000;
    DivIs(n * PAGE, SPACE, n / 0x10_0000, k * PAGE);
    DivIs(k * PAGE, PAGE, k, 0);
    DivIs(k * PAGE, 4, k * 0x400, 0);
  }

  lemma TargetAligned(pte: nat)
    ensures TargetOf(pte) % PAGE == 0 && TargetOf(pte) % 4 == 0 && TargetOf(pte) < SPACE
  {
    Truncated(pte / 1024);
  }

  lemma PteAligned(v: nat, table: nat, i: nat)
    requires table % 4 == 0
    ensures PteAddr(v, table, i) % 4 == 0
  {
    var k := v / Span(i) % 1024;
    assert k >= 0;
  }

  lemma ValidIsRam(m: Ram, a: int)
    requires IsValid(Word32(m, a))
    ensures InRam(m, a, 4)
  {
  }

  /** Entries are word-aligned, and a walk that finds a leaf found it in RAM. */
  lemma {:induction false} LeafInRam(c: Regime, m: Ram, v: nat, acc: Access, table: nat, i: nat)
    requires table % 4 == 0
    ensures WalkFrom(c, m, v, acc, table, i).Leaf? ==>
              var w := WalkFrom(c, m, v, acc, table, i);
              w.pteAddr % 4 == 0 && InRam(m, w.pteAddr, 4) && w.pte == Word32(m, w.pteAddr)
              && IsValid(w.pte) && Xwr(w.pte) != 0
    decreases 2 - i
  {
    hide Span, Permits, TargetOf, PteAddr, Word32, IsValid, InRam;
    if i < 2 {
      var a := PteAddr(v, table, i);
      PteAligned(v, table, i);
      if IsValid(Word32(m, a)) {
        ValidIsRam(m, a);
        TargetAligned(Word32(m, a));
        if Xwr(Word32(m, a)) == 0 {
          LeafInRam(c, m, v, acc, TargetOf(Word32(m, a)), i + 1);
        }
      }
    }
  }

  /* ---- accessed and dirty bits do not matter ---- */

  /** The two words differ at most in the A and D bits. */
  predicate SameEntry(w: nat, w': nat) {
    w % 64 == w' % 64 && w / 256 == w' / 256
  }

  lemma SameEntryFields(w: nat, w': nat)
    requires SameEntry(w, w')
    ensures IsValid(w) == IsValid(w') && Xwr(w) == Xwr(w') && IsUser(w) == IsUser(w') && TargetOf(w) == TargetOf(w')
  {
    LowFields(w);
    LowFields(w');
    HighField(w);
    HighField(w');
  }

  lemma LowFields(w: nat)
    ensures w % 2 == w % 64 % 2 && w / 2 % 8 == w % 64 / 2 % 8 && w / 16 % 2 == w % 64 / 16 % 2
  {
    LowBit(w / 64, w % 64);
    LowXwr(w / 64, w % 64);
    LowUser(w / 64, w % 64);
  }

  /** Quotient and remainder, from any way of writing the dividend with a small remainder. */
  lemma DivIs(a: nat, n: nat, q: nat, r: nat)
    requires a == n * q + r && r < n
    ensures a / n == q && a % n == r
  {
    var d := q - a / n;
    assert n * d == a % n - r;
    AtLeastOnce(n, d);
  }

  lemma AtLeastOnce(n: nat, d: int)
    ensures d >= 1 ==> n * d >= n
    ensures d <= -1 ==> n * d <= 0 - n
  {
  }

  lemma LowBit(h: nat, l: nat)
    ensures (64 * h + l) % 2 == l % 2
  {
    DivIs(64 * h + l, 2, 32 * h + l / 2, l % 2);
  }

  lemma LowXwr(h: nat, l: nat)
    requires l < 64
    ensures (64 * h + l) / 2 % 8 == l / 2 % 8
  {
    DivIs(64 * h + l, 2, 32 * h + l / 2, l % 2);
    DivIs(32 * h + l / 2, 8, 4 * h + l / 2 / 8, l / 2 % 8);
  }

  lemma LowUser(h: nat, l: nat)
    requires l < 64
    ensures (64 * h + l) / 16 % 2 == l / 16 % 2
  {
    DivIs(64 * h + l, 16, 4 * h + l / 16, l % 16);
    DivIs(4 * h + l / 16, 2, 2 * h + l / 16 / 2, l / 16 % 2);
  }

  lemma HighField(w: nat)
    ensures w / 1024 == w / 256 / 4
  {
    var a := w / 256;
    DivIs(w, 1024, a / 4, 256 * (a % 4) + w % 256);
  }

  /** Two memories that agree but for A and D bits of aligned words. */
  ghost predicate SameTables(m: Ram, m': Ram) {
    |m| == |m'| && forall o :: 0 <= o < |m| ==> SameByte(m, m', o)
  }

  predicate SameByte(m: Ram, m': Ram, o: nat)
    requires o < |m| == |m'|
  {
    if o % 4 == 0 then m[o] % 64 == m'[o] % 64 else m[o] == m'[o]
  }

  lemma SameTablesWord(m: Ram, m': Ram, a: nat)
    requires SameTables(m, m') && a % 4 == 0
    ensures SameEntry(Word32(m, a), Word32(m', a))
  {
    if InRam(m, a, 4) {
      var o := a - RAM_BASE;
      assert o % 4 == 0 && (o + 1) % 4 == 1 && (o + 2) % 4 == 2 && (o + 3) % 4 == 3;
      assert SameByte(m, m', o) && SameByte(m, m', o + 1) && SameByte(m, m', o + 2) && SameByte(m, m', o + 3);
      LowSix(m[o], m[o + 1], m[o + 2], m[o + 3]);
      LowSix(m'[o], m'[o + 1], m'[o + 2], m'[o + 3]);
    }
  }

  lemma LowSix(b0: Byte, b1: Byte, b2: Byte, b3: Byte)
    ensures var w: int := b0 as int + 0x100 * b1 as int + 0x1_0000 * b2 as int + 0x100_0000 * b3 as int;
            w % 64 == b0 % 64 && w / 256 == b1 as int + 0x100 * b2 as int + 0x1_0000 * b3 as int
  {
    var h: nat := b1 as int + 0x100 * b2 as int + 0x1_0000 * b3 as int;
    DivIs(256 * h + b0, 64, 4 * h + b0 / 64, b0 % 64);
    DivIs(256 * h + b0, 256, h, b0);
  }

  /** The words a walk reads. */
  function WordsFrom(m: Ram, v: nat, table: nat, i: nat): seq<nat>
    decreases 2 - i
  {
    if i >= 2 then []
    else
      var a := PteAddr(v, table, i);
      [a] + if IsValid(Word32(m, a)) && Xwr(Word32(m, a)) == 0 then WordsFrom(m, v, TargetOf(Word32(m, a)), i + 1) else []
  }

  function WordsRead(c: Regime, m: Ram, v: nat, acc: Access): seq<nat> {
    if Translates(c, acc) then WordsFrom(m, v, RootTable(c), 0) else []
  }

  predicate SameEntries(m: Ram, m': Ram, words: seq<nat>) {
    forall k :: 0 <= k < |words| ==> SameEntry(Word32(m, words[k]), Word32(m', words[k]))
  }

  predicate SameAnswer(w: Walked, w': Walked) {
    match w
    case Leaf(p, a, pte) => w'.Leaf? && w'.paddr == p && w'.pteAddr == a && SameEntry(pte, w'.pte)
    case _ => w == w'
  }

  /** A walk depends on the words it reads, and not on their A and D bits. */
  lemma {:induction false} WalkIsLocal(c: Regime, m: Ram, m': Ram, v: nat, acc: Access, table: nat, i: nat)
    requires SameEntries(m, m', WordsFrom(m, v, table, i))
    ensures SameAnswer(WalkFrom(c, m, v, acc, table, i), WalkFrom(c, m', v, acc, table, i))
    ensures WordsFrom(m', v, table, i) == WordsFrom(m, v, table, i)
    decreases 2 - i
  {
    hide Permits, Span, PteAddr, SameEntry;
    if i < 2 {
      var a := PteAddr(v, table, i);
      var words := WordsFrom(m, v, table, i);
      assert words[0] == a;
      SameEntryFields(Word32(m, a), Word32(m', a));
      PermitsSame(c, acc, Word32(m, a), Word32(m', a));
      if IsValid(Word32(m, a)) && Xwr(Word32(m, a)) == 0 {
        var table' := TargetOf(Word32(m, a));
        assert WordsFrom(m, v, table', i + 1) == words[1..];
        WalkIsLocal(c, m, m', v, acc, table', i + 1);
      }
    }
  }

  lemma PermitsSame(c: Regime, acc: Access, w: nat, w': nat)
    requires SameEntry(w, w')
    ensures Permits(c, acc, w) == Permits(c, acc, w')
  {
    SameEntryFields(w, w');
  }

  lemma MarkedEntry(pte: nat, acc: Access)
    ensures SameEntry(pte, Marked(pte, acc))
    ensures IsAccessed(Marked(pte, acc)) && (IsDirty(Marked(pte, acc)) <==> IsDirty(pte) || acc == Write)
    ensures Marked(pte, acc) == pte <==> IsAccessed(pte) && (acc == Write ==> IsDirty(pte))
    ensures pte < SPACE ==> Marked(pte, acc) < SPACE
  {
    EntryParts(pte);
    MarkedParts(pte / 256, pte / 128 % 2, pte / 64 % 2, pte % 64, acc);
  }

  lemma EntryParts(pte: nat)
    ensures pte == 256 * (pte / 256) + 128 * (pte / 128 % 2) + 64 * (pte / 64 % 2) + pte % 64
  {
    var q := pte / 64;
    DivIs(pte, 128, q / 2, 64 * (q % 2) + pte % 64);
    DivIs(pte, 256, q / 2 / 2, 128 * (q / 2 % 2) + 64 * (q % 2) + pte % 64);
  }

  lemma MarkedParts(h: nat, d: nat, a: nat, l: nat, acc: Access)
    requires d <= 1 && a <= 1 && l < 64
    ensures var pte := 256 * h + 128 * d + 64 * a + l;
            var w := Marked(pte, acc);
            && w == 256 * h + 128 * (if acc == Write then 1 else d) + 64 + l
            && SameEntry(pte, w) && IsAccessed(w) && (IsDirty(w) <==> d == 1 || acc == Write)
            && (IsAccessed(pte) <==> a == 1) && (IsDirty(pte) <==> d == 1)
            && (pte < SPACE ==> w < SPACE)
  {
    EntryBits(h, d, a, l);
    EntryBits(h, if acc == Write then 1 else d, 1, l);
    if 256 * h + 128 * d + 64 * a + l < SPACE {
      assert h < 0x100_0000;
    }
  }

  lemma EntryBits(h: nat, d: nat, a: nat, l: nat)
    requires d <= 1 && a <= 1 && l < 64
    ensures var w := 256 * h + 128 * d + 64 * a + l;
            w / 256 == h && w / 128 % 2 == d && w / 64 % 2 == a && w % 64 == l
  {
    var w := 256 * h + 128 * d + 64 * a + l;
    DivIs(w, 256, h, 128 * d + 64 * a + l);
    DivIs(w, 128, 2 * h + d, 64 * a + l);
    DivIs(w, 64, 4 * h + 2 * d + a, l);
    DivIs(2 * h + d, 2, h, d);
    DivIs(4 * h + 2 * d + a, 2, 2 * h + d, a);
  }

  lemma BytesOfWord(w: nat)
    requires w < SPACE
    ensures ByteOf(w, 0) as int + 0x100 * ByteOf(w, 1) as int + 0x1_0000 * ByteOf(w, 2) as int
            + 0x100_0000 * ByteOf(w, 3) as int == w
  {
    var w1 := w / 0x100;
    UpperParts(w);
    DivIs(w1, 0x1_0000, w1 / 0x100 / 0x100, 0x100 * (w1 / 0x100 % 0x100) + w1 % 0x100);
  }

  lemma WordBytes(b0: Byte, b1: Byte, b2: Byte, b3: Byte)
    ensures var w: int := b0 as int + 0x100 * b1 as int + 0x1_0000 * b2 as int + 0x100_0000 * b3 as int;
            0 <= w < SPACE && ByteOf(w, 0) == b0 && ByteOf(w, 1) == b1 && ByteOf(w, 2) == b2 && ByteOf(w, 3) == b3
  {
    var w: nat := b0 as int + 0x100 * b1 as int + 0x1_0000 * b2 as int + 0x100_0000 * b3 as int;
    DivIs(w, 0x100, b1 as int + 0x100 * b2 as int + 0x1_0000 * b3 as int, b0);
    DivIs(b1 as int + 0x100 * b2 as int + 0x1_0000 * b3 as int, 0x100, b2 as int + 0x100 * b3 as int, b1);
    DivIs(w, 0x1_0000, b2 as int + 0x100 * b3 as int, b0 as int + 0x100 * b1 as int);
    DivIs(b2 as int + 0x100 * b3 as int, 0x100, b3, b2);
    DivIs(w, 0x100_0000, b3, b0 as int + 0x100 * b1 as int + 0x1_0000 * b2 as int);
  }

  lemma WordFits(m: Ram, a: int)
    ensures Word32(m, a) < SPACE
    ensures WithWord(m, a, Word32(m, a)) == m
  {
    if InRam(m, a, 4) {
      var o := a - RAM_BASE;
      WordBytes(m[o], m[o + 1], m[o + 2], m[o + 3]);
    }
  }

  lemma WordAfterWrite(m: Ram, a: int, w: nat, b: int)
    requires a % 4 == 0 && b % 4 == 0 && w < SPACE && InRam(m, a, 4)
    ensures Word32(WithWord(m, a, w), b) == if b == a then w else Word32(m, b)
  {
    hide ByteOf;
    BytesOfWord(w);
    var m' := WithWord(m, a, w);
    if b != a && InRam(m, b, 4) {
      assert b + 4 <= a || a + 4 <= b;
    }
  }

  /** Every aligned word after a walk is the word before it, or that word with its marks. */
  lemma WordAfterWalk(c: Regime, m: Ram, v: nat, acc: Access, b: nat)
    requires b % 4 == 0
    ensures var w, w' := Word32(m, b), Word32(AfterWalk(c, m, v, acc), b);
            w' == w || w' == Marked(w, acc)
  {
    hide WalkFrom, Word32, WithWord, Marked;
    RootAligned(c);
    LeafInRam(c, m, v, acc, RootTable(c), 0);
    match Walk(c, m, v, acc)
    case Leaf(_, a, pte) =>
      WordFits(m, a);
      MarkedEntry(pte, acc);
      WordAfterWrite(m, a, Marked(pte, acc), b);
    case _ =>
  }

  lemma RootAligned(c: Regime)
    ensures RootTable(c) % PAGE == 0 && RootTable(c) % 4 == 0 && RootTable(c) < SPACE
  {
    Truncated(c.satp % 0x40_0000);
  }

  lemma {:induction false} WordsAligned(m: Ram, v: nat, table: nat, i: nat)
    requires table % 4 == 0
    ensures forall k :: 0 <= k < |WordsFrom(m, v, table, i)| ==> WordsFrom(m, v, table, i)[k] % 4 == 0
    decreases 2 - i
  {
    hide TargetOf, PteAddr, Word32;
    if i < 2 {
      PteAligned(v, table, i);
      var pte := Word32(m, PteAddr(v, table, i));
      TargetAligned(pte);
      WordsAligned(m, v, TargetOf(pte), i + 1);
    }
  }

  /** Walks over memories that differ only in A and D bits give the same answer and read the same words. */
  lemma SameTablesSameWalk(c: Regime, m: Ram, m': Ram, v: nat, acc: Access)
    requires SameTables(m, m')
    ensures SameAnswer(Walk(c, m, v, acc), Walk(c, m', v, acc)) && Outcome(c, m, v, acc) == Outcome(c, m', v, acc)
    ensures WordsRead(c, m, v, acc) == WordsRead(c, m', v, acc)
  {
    hide WalkFrom, WordsFrom, Word32, SameEntry, SameTables;
    RootAligned(c);
    var words := WordsFrom(m, v, RootTable(c), 0);
    WordsAligned(m, v, RootTable(c), 0);
    forall k | 0 <= k < |words|
      ensures SameEntry(Word32(m, words[k]), Word32(m', words[k]))
    {
      SameTablesWord(m, m', words[k]);
    }
    WalkIsLocal(c, m, m', v, acc, RootTable(c), 0);
  }

  lemma WriteMarks(m: Ram, a: nat, acc: Access)
    requires a % 4 == 0 && InRam(m, a, 4)
    ensures SameTables(m, WithWord(m, a, Marked(Word32(m, a), acc)))
  {
    hide Marked, ByteOf, SameEntry, Word32;
    var o := a - RAM_BASE;
    var w := Word32(m, a);
    BytesInRam(m, a);
    MarkedEntry(w, acc);
    HighBytes(w, Marked(w, acc));
    var m' := WithWord(m, a, Marked(w, acc));
    forall k | 0 <= k < |m|
      ensures SameByte(m, m', k)
    {
      if k == o {
        assert m'[k] == ByteOf(Marked(w, acc), 0);
      } else if o < k < o + 4 {
        assert k % 4 == k - o;
      }
    }
  }

  lemma BytesInRam(m: Ram, a: nat)
    requires a % 4 == 0 && InRam(m, a, 4)
    ensures var o := a - RAM_BASE;
            o % 4 == 0 && forall k: nat :: k < 4 ==> ByteOf(Word32(m, a), k) == m[o + k]
  {
    hide ByteOf;
    var o := a - RAM_BASE;
    WordBytes(m[o], m[o + 1], m[o + 2], m[o + 3]);
  }

  lemma HighBytes(w: nat, w': nat)
    requires SameEntry(w, w')
    ensures ByteOf(w, 0) % 64 == ByteOf(w', 0) % 64
    ensures ByteOf(w, 1) == ByteOf(w', 1) && ByteOf(w, 2) == ByteOf(w', 2) && ByteOf(w, 3) == ByteOf(w', 3)
  {
    UpperParts(w);
    UpperParts(w');
  }

  lemma UpperParts(w: nat)
    ensures w % 0x100 % 64 == w % 64
    ensures w / 0x1_0000 == w / 0x100 / 0x100 && w / 0x100_0000 == w / 0x100 / 0x1_0000
  {
    var a, b := w / 0x100, w % 0x100;
    DivIs(w, 64, 4 * a + b / 64, b % 64);
    DivIs(w, 0x1_0000, a / 0x100, 0x100 * (a % 0x100) + b);
    DivIs(w, 0x100_0000, a / 0x1_0000, 0x100 * (a % 0x1_0000) + b);
  }

  /** A walk changes nothing but A and D bits. */
  lemma WalkKeepsTables(c: Regime, m: Ram, v: nat, acc: Access)
    ensures SameTables(m, AfterWalk(c, m, v, acc))
  {
    hide WalkFrom, Word32, WithWord, Marked;
    RootAligned(c);
    LeafInRam(c, m, v, acc, RootTable(c), 0);
    match Walk(c, m, v, acc)
    case Leaf(_, a, pte) => WriteMarks(m, a, acc);
    case _ =>
  }

  /**
   The write-back of one walk never changes the outcome of any walk, for any regime, address and kind
   of access, whatever the tables share with each other or with themselves.
   */
  lemma WriteBackIsInvisible(c: Regime, m: Ram, v: nat, acc: Access, c': Regime, v': nat, acc': Access)
    ensures Outcome(c', AfterWalk(c, m, v, acc), v', acc') == Outcome(c', m, v', acc')
    ensures WordsRead(c', AfterWalk(c, m, v, acc), v', acc') == WordsRead(c', m, v', acc')
  {
    WalkKeepsTables(c, m, v, acc);
    SameTablesSameWalk(c', m, AfterWalk(c, m, v, acc), v', acc');
  }

  /** A walk that writes nothing: its leaf, if any, is already marked. */
  predicate Settled(c: Regime, m: Ram, v: nat, acc: Access) {
    AfterWalk(c, m, v, acc) == m
  }

  predicate LeafMarked(w: Walked, acc: Access) {
    w.Leaf? ==> Marked(w.pte, acc) == w.pte
  }

  lemma SettledIsMarked(c: Regime, m: Ram, v: nat, acc: Access)
    ensures Settled(c, m, v, acc) <==> LeafMarked(Walk(c, m, v, acc), acc)
  {
    hide WalkFrom, Word32, WithWord, Marked;
    RootAligned(c);
    LeafInRam(c, m, v, acc, RootTable(c), 0);
    match Walk(c, m, v, acc)
    case Leaf(_, a, pte) =>
      WordFits(m, a);
      MarkedEntry(pte, acc);
      WordAfterWrite(m, a, Marked(pte, acc), a);
    case _ =>
  }

  /** Marks are never taken away, so a settled walk stays settled whatever else is walked. */
  lemma SettledPersists(c: Regime, m: Ram, v: nat, acc: Access, c': Regime, v': nat, acc': Access)
    requires Settled(c, m, v, acc)
    ensures Settled(c, AfterWalk(c', m, v', acc'), v, acc)
  {
    hide WalkFrom, Word32, WithWord, Marked, AfterWalk, SameEntry;
    var m' := AfterWalk(c', m, v', acc');
    WalkKeepsTables(c', m, v', acc');
    SameTablesSameWalk(c, m, m', v, acc);
    SettledIsMarked(c, m, v, acc);
    SettledIsMarked(c, m', v, acc);
    RootAligned(c);
    LeafInRam(c, m, v, acc, RootTable(c), 0);
    LeafInRam(c, m', v, acc, RootTable(c), 0);
    match Walk(c, m, v, acc)
    case Leaf(_, a, pte) =>
      WordAfterWalk(c', m, v', acc', a);
      MarkedEntry(pte, acc);
      MarkedEntry(pte, acc');
      MarkedEntry(Marked(pte, acc'), acc);
    case _ =>
  }

  /** A second identical walk writes nothing. */
  lemma WalkSettles(c: Regime, m: Ram, v: nat, acc: Access)
    ensures Settled(c, AfterWalk(c, m, v, acc), v, acc)
  {
    hide WalkFrom, Word32, WithWord, Marked, SameEntry;
    var m' := AfterWalk(c, m, v, acc);
    WalkKeepsTables(c, m, v, acc);
    SameTablesSameWalk(c, m, m', v, acc);
    SettledIsMarked(c, m', v, acc);
    RootAligned(c);
    LeafInRam(c, m, v, acc, RootTable(c), 0);
    LeafInRam(c, m', v, acc, RootTable(c), 0);
    match Walk(c, m, v, acc)
    case Leaf(_, a, pte) =>
      WordFits(m, a);
      MarkedEntry(pte, acc);
      MarkedEntry(Marked(pte, acc), acc);
      WordAfterWrite(m, a, Marked(pte, acc), a);
    case _ =>
  }

  /* ---- pages ---- */

  function PageOf(v: nat): nat {
    v - v % PAGE
  }

  lemma SpanPages(v: nat, i: nat, t: nat)
    requires t % PAGE == 0
    ensures v / Span(i) == PageOf(v) / Span(i)
    ensures v % Span(i) + (t - t % Span(i)) == PageOf(v) % Span(i) + (t - t % Span(i)) + v % PAGE
    ensures (v % Span(i) + (t - t % Span(i))) % PAGE == v % PAGE
  {
    if i == 0 {
      LargeSpan(v / PAGE, v % PAGE);
      LargeSpan(v / PAGE, 0);
      LargeSpan(t / PAGE, 0);
      assert v == v / PAGE * PAGE + v % PAGE && t == t / PAGE * PAGE;
    }
  }

  lemma LargeSpan(n: nat, o: nat)
    requires o < PAGE
    ensures (n * PAGE + o) / Span(0) == n / 0x400 && (n * PAGE + o) % Span(0) == n % 0x400 * PAGE + o
    ensures (n * PAGE + o) % PAGE == o
  {
    DivIs(n * PAGE + o, 0x40_0000, n / 0x400, n % 0x400 * PAGE + o);
    DivIs(n * PAGE + o, PAGE, n, o);
  }

  lemma {:induction false} WalkPagewise(c: Regime, m: Ram, v: nat, acc: Access, table: nat, i: nat)
    ensures var w, w' := WalkFrom(c, m, v, acc, table, i), WalkFrom(c, m, PageOf(v), acc, table, i);
            if w.Leaf? then
              w'.Leaf? && w.paddr == w'.paddr + v % PAGE && w'.paddr % PAGE == 0
              && w'.pteAddr == w.pteAddr && w'.pte == w.pte
            else w' == w
    ensures WordsFrom(m, v, table, i) == WordsFrom(m, PageOf(v), table, i)
    decreases 2 - i
  {
    hide Permits, TargetOf, Word32, PageOf, Span;
    if i < 2 {
      var a := PteAddr(v, table, i);
      var pte := Word32(m, a);
      TargetAligned(pte);
      SpanPages(v, i, TargetOf(pte));
      PageOfPage(v);
      SpanPages(PageOf(v), i, TargetOf(pte));
      WalkPagewise(c, m, v, acc, TargetOf(pte), i + 1);
    }
  }

  lemma PageOfPage(v: nat)
    ensures PageOf(v) % PAGE == 0 && PageOf(PageOf(v)) == PageOf(v)
  {
  }

  /** All addresses of a page are translated alike: same fault, same frame, same entry marked. */
  lemma OutcomePagewise(c: Regime, m: Ram, v: nat, acc: Access)
    ensures Outcome(c, m, v, acc).Some? == Outcome(c, m, PageOf(v), acc).Some?
    ensures Outcome(c, m, v, acc).Some? ==>
              Outcome(c, m, v, acc).value == Outcome(c, m, PageOf(v), acc).value + v % PAGE
              && Outcome(c, m, PageOf(v), acc).value % PAGE == 0
    ensures AfterWalk(c, m, v, acc) == AfterWalk(c, m, PageOf(v), acc)
    ensures WordsRead(c, m, v, acc) == WordsRead(c, m, PageOf(v), acc)
  {
    hide WalkFrom, WordsFrom, WithWord, Marked;
    WalkPagewise(c, m, v, acc, RootTable(c), 0);
  }

  /** A page that may be written may be read, at the same place: W without R is refused. */
  lemma {:induction false} WritableIsReadable(c: Regime, m: Ram, v: nat, table: nat, i: nat)
    requires WalkFrom(c, m, v, Write, table, i).Leaf?
    ensures WalkFrom(c, m, v, Read, table, i) == WalkFrom(c, m, v, Write, table, i)
    decreases 2 - i
  {
    hide TargetOf, Word32, Span, PteAddr, IsUser, Xwr, IsValid;
    var pte := Word32(m, PteAddr(v, table, i));
    if Xwr(pte) == 0 {
      WritableIsReadable(c, m, v, TargetOf(pte), i + 1);
    } else {
      assert Xwr(pte) < 8 by { XwrRange(pte); }
    }
  }

  lemma XwrRange(pte: nat)
    ensures Xwr(pte) < 8
  {
  }
}
