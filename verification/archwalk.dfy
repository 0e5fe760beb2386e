/**
 The translation of section 4.3.2 of the RISC-V Privileged Architecture v1.12, from the bits of the entries, and
 exactly where the walk of get_phys_addr gives another answer.
 */
module ArchWalk {
  import opened Basics
  import opened PageWalk

  /** Page numbers whose address has 32 bits; an Sv32 entry holds 22-bit page numbers. */
  const PAGES_32 := 0x10_0000

  /** Bits 0 to 4 of a page table entry, and its page number. */
  datatype Entry = Entry(v: bool, r: bool, w: bool, x: bool, u: bool, ppn: nat)

  function Bits(pte: nat): Entry {
    Entry(pte % 2 == 1, pte / 2 % 2 == 1, pte / 4 % 2 == 1, pte / 8 % 2 == 1, pte / 16 % 2 == 1, pte / 1024)
  }

  /** The little-endian word at a physical address; RAM starts at 0x8000_0000, and what is not RAM reads as zero. */
  function EntryAt(m: seq<Byte>, a: int): Entry {
    var o := a - 0x8000_0000;
    Bits(if 0 <= o && o + 4 <= |m| then
           m[o] as int + 256 * m[o + 1] as int + 65536 * m[o + 2] as int + 16777216 * m[o + 3] as int
         else 0)
  }

  /** The privilege an access counts as: 0 is user, 1 supervisor, 3 machine. */
  function PrivOf(c: Regime, acc: Access): nat {
    if acc == Code || !c.mprv then c.priv else c.mpp
  }

  predicate Translated(c: Regime, acc: Access) {
    PrivOf(c, acc) != 3 && c.satp >= 0x8000_0000
  }

  /** What a leaf lets an access do; a supervisor may never fetch from a user page, SUM is for loads and stores. */
  predicate ArchPermits(c: Regime, acc: Access, e: Entry) {
    && (e.w ==> e.r)
    && (if PrivOf(c, acc) == 1 then e.u ==> c.sum && acc != Code else e.u)
    && match acc
       case Read => e.r || (e.x && c.mxr)
       case Write => e.w
       case Code => e.x
  }

  function EntryOf(m: seq<Byte>, v: nat, table: nat, i: nat): Entry {
    EntryAt(m, table + 4 * if i == 0 then v / 0x40_0000 % 1024 else v / 0x1000 % 1024)
  }

  predicate Points(e: Entry) {
    e.v && !e.r && !e.w && !e.x
  }

  /** The architecture's walk, in 34-bit physical addresses. */
  function ArchFrom(c: Regime, m: seq<Byte>, v: nat, acc: Access, table: nat, i: nat): Option<nat>
    decreases 2 - i
  {
    if i >= 2 then None
    else
      var e := EntryOf(m, v, table, i);
      if Points(e) then ArchFrom(c, m, v, acc, e.ppn * 0x1000, i + 1)
      else if !e.v || !ArchPermits(c, acc, e) then None
      else if i == 1 then Some(e.ppn * 0x1000 + v % 0x1000)
      else if e.ppn % 1024 == 0 then Some(e.ppn * 0x1000 + v % 0x40_0000)
      else None
  }

  function ArchOutcome(c: Regime, m: seq<Byte>, v: nat, acc: Access): Option<nat> {
    if Translated(c, acc) then ArchFrom(c, m, v, acc, c.satp % 0x40_0000 * 0x1000, 0) else Some(v)
  }

  /** A supervisor fetching from an executable user page with SUM set. */
  predicate SumFetch(c: Regime, acc: Access, e: Entry) {
    acc == Code && PrivOf(c, acc) == 1 && c.sum && e.u && e.x && (e.w ==> e.r)
  }

  /**
   What the coded walk does not mind on its way: a page number past 32 bits, a superpage that is not aligned, a
   supervisor fetching from a user page.
   */
  predicate OddFrom(c: Regime, m: seq<Byte>, v: nat, acc: Access, table: nat, i: nat)
    decreases 2 - i
  {
    i < 2
    && var e := EntryOf(m, v, table, i);
       && e.v
       && (e.ppn >= PAGES_32
           || if Points(e) then OddFrom(c, m, v, acc, e.ppn * 0x1000, i + 1)
              else (i == 0 && e.ppn % 1024 != 0) || SumFetch(c, acc, e))
  }

  /** The entries on the way are valid, within two levels one is a leaf, and its bits permit the access. */
  predicate AllowedFrom(c: Regime, m: seq<Byte>, v: nat, acc: Access, table: nat, i: nat)
    decreases 2 - i
  {
    i < 2
    && var e := EntryOf(m, v, table, i);
       && e.v
       && if Points(e) then AllowedFrom(c, m, v, acc, e.ppn % PAGES_32 * 0x1000, i + 1)
          else ArchPermits(c, acc, e) || SumFetch(c, acc, e)
  }

  /** The tables allow the access but for something odd on the way. */
  predicate OnlyOddly(c: Regime, m: seq<Byte>, v: nat, acc: Access) {
    var root := c.satp % 0x40_0000;
    && Translated(c, acc) && AllowedFrom(c, m, v, acc, root % PAGES_32 * 0x1000, 0)
    && (root >= PAGES_32 || OddFrom(c, m, v, acc, root * 0x1000, 0))
  }

  /* ---- the coded walk's fields ---- */

  lemma Nibble(k: nat, x: nat, w: nat, r: nat, v: nat)
    requires x <= 1 && w <= 1 && r <= 1 && v <= 1
    ensures var pte := 16 * k + 8 * x + 4 * w + 2 * r + v;
            pte / 2 % 8 == 4 * x + 2 * w + r && pte / 2 % 2 == r && pte / 4 % 2 == w && pte / 8 % 2 == x
  {
    var pte := 16 * k + 8 * x + 4 * w + 2 * r + v;
    var a, b, c := 8 * k + 4 * x + 2 * w + r, 4 * k + 2 * x + w, 2 * k + x;
    DivIs(pte, 2, a, v);
    DivIs(pte, 4, b, 2 * r + v);
    DivIs(pte, 8, c, 4 * w + 2 * r + v);
    DivIs(a, 8, k, 4 * x + 2 * w + r);
    DivIs(a, 2, b, r);
    DivIs(b, 2, c, w);
    DivIs(c, 2, k, x);
  }

  lemma XwrBits(pte: nat)
    ensures var e := Bits(pte);
            Xwr(pte) == (if e.r then 1 else 0) + (if e.w then 2 else 0) + (if e.x then 4 else 0)
  {
    var a := pte / 2;
    var b := a / 2;
    var c := b / 2;
    Nibble(c / 2, c % 2, b % 2, a % 2, pte % 2);
  }

  lemma SameEntryRead(m: Ram, a: int)
    ensures EntryAt(m, a) == Bits(Word32(m, a))
  {
  }

  lemma SamePlace(m: Ram, v: nat, table: nat, i: nat)
    requires i < 2
    ensures EntryOf(m, v, table, i) == Bits(Word32(m, PteAddr(v, table, i)))
  {
    hide EntryAt, Word32, Bits;
    SameEntryRead(m, PteAddr(v, table, i));
  }

  lemma SamePermission(c: Regime, acc: Access, pte: nat)
    ensures var e := Bits(pte);
            Permits(c, acc, pte) <==> ArchPermits(c, acc, e) || SumFetch(c, acc, e)
  {
    hide Xwr;
    XwrBits(pte);
  }

  lemma SameKind(pte: nat)
    ensures Points(Bits(pte)) <==> IsValid(pte) && Xwr(pte) == 0
  {
    hide Xwr;
    XwrBits(pte);
  }

  /** A table past 32 bits lies outside RAM, and reads as zero. */
  lemma TableOutside(c: Regime, m: Ram, v: nat, acc: Access, n: nat, i: nat)
    requires n >= PAGES_32
    ensures ArchFrom(c, m, v, acc, n * 0x1000, i) == None
  {
  }

  lemma ShortTarget(pte: nat)
    ensures TargetOf(pte) == pte / 1024 % PAGES_32 * 0x1000
    ensures pte / 1024 < PAGES_32 ==> TargetOf(pte) == pte / 1024 * 0x1000
  {
    Truncated(pte / 1024);
  }

  /** The frame a leaf stands for, as coded and as the architecture has it. */
  lemma LeafFrame(pte: nat, i: nat)
    requires i < 2
    ensures var t, n := TargetOf(pte) - TargetOf(pte) % Span(i), pte / 1024;
            if n >= PAGES_32 then t < n * 0x1000
            else i == 1 || n % 1024 == 0 ==> t == n * 0x1000
  {
    var n := pte / 1024;
    ShortTarget(pte);
    if n < PAGES_32 {
      if i == 0 {
        if n % 1024 == 0 {
          DivIs(n * 0x1000, 0x40_0000, n / 1024, 0);
        }
      } else {
        DivIs(n * 0x1000, 0x1000, n, 0);
      }
    }
  }

  lemma {:induction false} AgreesFrom(c: Regime, m: Ram, v: nat, acc: Access, table: nat, i: nat)
    ensures var w, p := WalkFrom(c, m, v, acc, table, i), ArchFrom(c, m, v, acc, table, i);
            && w != Untranslated && (w.Leaf? <==> AllowedFrom(c, m, v, acc, table, i))
            && (w.Fault? ==> p == None)
            && (w.Leaf? ==> (p == Some(w.paddr) <==> !OddFrom(c, m, v, acc, table, i)))
    decreases 2 - i
  {
    hide Permits, ArchPermits, SumFetch, TargetOf, Word32, EntryOf, Points, Xwr, PteAddr;
    if i < 2 {
      var pte := Word32(m, PteAddr(v, table, i));
      SamePlace(m, v, table, i);
      SameKind(pte);
      if Points(Bits(pte)) {
        ShortTarget(pte);
        AgreesFrom(c, m, v, acc, TargetOf(pte), i + 1);
        if pte / 1024 >= PAGES_32 {
          TableOutside(c, m, v, acc, pte / 1024, i + 1);
        }
      } else if IsValid(pte) {
        SamePermission(c, acc, pte);
        SumIsOdd(c, acc, Bits(pte));
        LeafFrame(pte, i);
      }
    }
  }

  lemma SumIsOdd(c: Regime, acc: Access, e: Entry)
    ensures SumFetch(c, acc, e) ==> !ArchPermits(c, acc, e)
  {
  }

  lemma SameRoot(c: Regime, acc: Access)
    ensures Translated(c, acc) <==> Translates(c, acc)
    ensures RootTable(c) == c.satp % 0x40_0000 % PAGES_32 * 0x1000
  {
    Truncated(c.satp % 0x40_0000);
  }

  /**
   The coded walk answers as the architecture does, for any tables, address and access, unless the tables allow the
   access and something on the way is odd; then, and only then, the two differ.
   */
  lemma WalkIsArchitectural(c: Regime, m: Ram, v: nat, acc: Access)
    ensures Outcome(c, m, v, acc) == ArchOutcome(c, m, v, acc) <==> !OnlyOddly(c, m, v, acc)
  {
    hide WalkFrom, ArchFrom, OddFrom, AllowedFrom, Translates, Translated, RootTable;
    SameRoot(c, acc);
    if Translates(c, acc) {
      AgreesFrom(c, m, v, acc, RootTable(c), 0);
      var n := c.satp % 0x40_0000;
      if n >= PAGES_32 {
        TableOutside(c, m, v, acc, n, 0);
      } else {
        assert n % PAGES_32 == n;
      }
    }
  }

  /* ---- the accessed and dirty bits ---- */

  /** Where the leaf is that the walk ends at. */
  function LeafAddress(m: seq<Byte>, v: nat, table: nat, i: nat): nat
    decreases 2 - i
  {
    var e := EntryOf(m, v, table, i);
    if i < 2 && Points(e) then LeafAddress(m, v, e.ppn % PAGES_32 * 0x1000, i + 1)
    else table + 4 * if i == 0 then v / 0x40_0000 % 1024 else v / 0x1000 % 1024
  }

  lemma {:induction false} LeafIsAt(c: Regime, m: Ram, v: nat, acc: Access, table: nat, i: nat)
    ensures var w := WalkFrom(c, m, v, acc, table, i);
            w.Leaf? ==> w.pteAddr == LeafAddress(m, v, table, i) && w.pte == Word32(m, w.pteAddr)
    decreases 2 - i
  {
    hide Permits, TargetOf, Word32, EntryOf, Points, Xwr;
    if i < 2 {
      var pte := Word32(m, PteAddr(v, table, i));
      SamePlace(m, v, table, i);
      SameKind(pte);
      if Points(Bits(pte)) {
        ShortTarget(pte);
        LeafIsAt(c, m, v, acc, TargetOf(pte), i + 1);
      }
    }
  }

  /** The byte with the accessed bit (6) set, and for a store the dirty bit (7). */
  predicate MarkedByte(b: Byte, b': Byte, acc: Access) {
    && b' % 64 == b % 64 && b' / 64 % 2 == 1
    && b' / 128 == if acc == Write then 1 else b / 128
  }

  lemma LowByteBits(w: nat)
    ensures var b := w % 0x100; b % 64 == w % 64 && b / 64 % 2 == w / 64 % 2 && b / 128 == w / 128 % 2
  {
    EntryParts(w);
    var h, d, a, l := w / 256, w / 128 % 2, w / 64 % 2, w % 64;
    DivIs(w, 256, h, 128 * d + 64 * a + l);
    EntryBits(0, d, a, l);
    DivIs(128 * d + 64 * a + l, 128, d, 64 * a + l);
  }

  lemma MarkingIs(m: Ram, a: nat, acc: Access)
    requires InRam(m, a, 4)
    ensures var o, m' := a - RAM_BASE, WithWord(m, a, Marked(Word32(m, a), acc));
            && MarkedByte(m[o], m'[o], acc) && forall k :: 0 <= k < |m| && k != o ==> m'[k] == m[k]
  {
    hide Word32, Marked;
    var w := Word32(m, a);
    WordFits(m, a);
    MarkedEntry(w, acc);
    HighBytes(w, Marked(w, acc));
    LowByteBits(w);
    LowByteBits(Marked(w, acc));
    var o, m' := a - RAM_BASE, WithWord(m, a, Marked(w, acc));
    assert WithWord(m, a, w)[o] == ByteOf(w, 0) && m'[o] == ByteOf(Marked(w, acc), 0);
    assert WithWord(m, a, w)[o + 1] == ByteOf(w, 1) && WithWord(m, a, w)[o + 2] == ByteOf(w, 2)
           && WithWord(m, a, w)[o + 3] == ByteOf(w, 3);
  }

  /** A walk that succeeds marks the low byte of the leaf, and changes no other byte; one that faults changes none. */
  lemma WriteBackIs(c: Regime, m: Ram, v: nat, acc: Access)
    ensures var m' := AfterWalk(c, m, v, acc);
            if Translated(c, acc) && Outcome(c, m, v, acc).Some? then
              var o := LeafAddress(m, v, c.satp % 0x40_0000 % PAGES_32 * 0x1000, 0) - 0x8000_0000;
              && |m'| == |m| && 0 <= o < |m| && MarkedByte(m[o], m'[o], acc)
              && forall k :: 0 <= k < |m| && k != o ==> m'[k] == m[k]
            else m' == m
  {
    hide WalkFrom, LeafAddress, Translates, Translated, RootTable, Word32, Marked, WithWord, Xwr, MarkedByte;
    SameRoot(c, acc);
    if Translates(c, acc) {
      RootAligned(c);
      LeafIsAt(c, m, v, acc, RootTable(c), 0);
      LeafInRam(c, m, v, acc, RootTable(c), 0);
      match WalkFrom(c, m, v, acc, RootTable(c), 0) {
        case Leaf(_, a, pte) => MarkingIs(m, a, acc);
        case Fault =>
        case Untranslated => AgreesFrom(c, m, v, acc, RootTable(c), 0);
      }
    }
  }

  /* ---- where the two differ ---- */

  /** One page of RAM holding a root table whose first entry is pte. */
  function OneEntry(pte: nat): Ram
    requires pte < SPACE
  {
    var m: Ram := seq(PAGE, _ => 0);
    WithWord(m, RAM_BASE, pte)
  }

  lemma FirstEntry(pte: nat)
    requires pte < SPACE
    ensures Word32(OneEntry(pte), RAM_BASE) == pte
  {
    var m: Ram := seq(PAGE, _ => 0);
    WordAfterWrite(m, RAM_BASE, pte, RAM_BASE);
  }

  const SUPERVISOR := Regime(0x8008_0000, PRV_S, false, PRV_U, true, false)

  /** A superpage mapped by the first entry of the root table, at address 0. */
  lemma FirstSuperpage(m: Ram, pte: nat, acc: Access)
    requires pte < SPACE && m == OneEntry(pte) && Bits(pte).v && !Points(Bits(pte))
    ensures var e := Bits(pte);
            && Outcome(SUPERVISOR, m, 0, acc)
               == (if ArchPermits(SUPERVISOR, acc, e) || SumFetch(SUPERVISOR, acc, e)
                   then Some(TargetOf(pte) - TargetOf(pte) % 0x40_0000) else None)
            && ArchOutcome(SUPERVISOR, m, 0, acc)
               == if ArchPermits(SUPERVISOR, acc, e) && e.ppn % 1024 == 0 then Some(e.ppn * 0x1000) else None
  {
    hide Word32, Xwr, Permits, ArchPermits, SumFetch, TargetOf, EntryOf, Points, OneEntry;
    FirstEntry(pte);
    assert PteAddr(0, RAM_BASE, 0) == RAM_BASE && RootTable(SUPERVISOR) == RAM_BASE;
    SamePlace(m, 0, RAM_BASE, 0);
    SamePermission(SUPERVISOR, acc, pte);
    SameKind(pte);
  }

  /** With SUM set, a supervisor does fetch from a user page. */
  lemma SumReachesFetch()
    ensures Outcome(SUPERVISOR, OneEntry(0x1b), 0, Code) == Some(0)
    ensures ArchOutcome(SUPERVISOR, OneEntry(0x1b), 0, Code) == None
  {
    hide OneEntry, Outcome, ArchOutcome;
    FirstSuperpage(OneEntry(0x1b), 0x1b, Code);
  }

  /** A superpage with a page number that is no multiple of 1024 is accepted, rounded down. */
  lemma MisalignedSuperpageAccepted()
    ensures Outcome(SUPERVISOR, OneEntry(0x41b), 0, Read) == Some(0)
    ensures ArchOutcome(SUPERVISOR, OneEntry(0x41b), 0, Read) == None
  {
    hide OneEntry, Outcome, ArchOutcome;
    FirstSuperpage(OneEntry(0x41b), 0x41b, Read);
  }

  /** A page number past 32 bits loses its top bits. */
  lemma HighPageTruncated()
    ensures Outcome(SUPERVISOR, OneEntry(0x4000_001b), 0, Read) == Some(0)
    ensures ArchOutcome(SUPERVISOR, OneEntry(0x4000_001b), 0, Read) == Some(SPACE)
  {
    hide OneEntry, Outcome, ArchOutcome;
    FirstSuperpage(OneEntry(0x4000_001b), 0x4000_001b, Read);
  }
}
