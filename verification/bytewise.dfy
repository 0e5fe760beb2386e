/** Loads and stores as sequences of byte accesses, each with its own translation and write-back. */
module Bytewise {
  import opened Basics
  import opened PageWalk

  function Next(v: nat): nat {
    (v + 1) % SPACE
  }

  function Plus(v: nat, k: nat): nat {
    (v + k) % SPACE
  }

  datatype Loaded = Bytes(bs: seq<Byte>) | PageFault(at: nat) | Outside

  function Prepended(b: Byte, rest: (Loaded, Ram)): (Loaded, Ram) {
    (if rest.0.Bytes? then Bytes([b] + rest.0.bs) else rest.0, rest.1)
  }

  /** One load and the load that follows it, as one. */
  function Joined(first: (Loaded, Ram), second: (Loaded, Ram)): (Loaded, Ram) {
    if first.0.Bytes? then (if second.0.Bytes? then Bytes(first.0.bs + second.0.bs) else second.0, second.1)
    else first
  }

  lemma PrependJoined(b: Byte, first: (Loaded, Ram), second: (Loaded, Ram))
    ensures Prepended(b, Joined(first, second)) == Joined(Prepended(b, first), second)
  {
    if first.0.Bytes? && second.0.Bytes? {
      assert [b] + (first.0.bs + second.0.bs) == [b] + first.0.bs + second.0.bs;
    }
  }

  lemma JoinEmpty(m: Ram, second: (Loaded, Ram))
    ensures Joined((Bytes([]), m), second) == second
  {
    if second.0.Bytes? {
      assert [] + second.0.bs == second.0.bs;
    }
  }

  /** Loading n bytes one by one, lowest first: the result, and memory with the walks' write-back. */
  function LoadFrom(c: Regime, m: Ram, v: nat, n: nat): (r: (Loaded, Ram))
    ensures |r.1| == |m| && (r.0.Bytes? ==> |r.0.bs| == n)
    decreases n
  {
    if n == 0 then (Bytes([]), m)
    else if Outcome(c, m, v, Read).None? then (PageFault(v), m)
    else
      var p, m' := Outcome(c, m, v, Read).value, AfterWalk(c, m, v, Read);
      if !InRam(m, p, 1) then (Outside, m')
      else
        Prepended(m'[p - RAM_BASE], LoadFrom(c, m', Next(v), n - 1))
  }

  /** One byte stored through a translation that allows it. */
  function StoreByte(c: Regime, m: Ram, v: nat, b: Byte): (r: Ram)
    ensures |r| == |m|
  {
    var m' := AfterWalk(c, m, v, Write);
    match Outcome(c, m, v, Write)
    case Some(p) => if InRam(m, p, 1) then m'[p - RAM_BASE := b] else m'
    case None => m
  }

  /** Storing bytes one by one; a byte that lands outside RAM leaves RAM alone. */
  function StoreFrom(c: Regime, m: Ram, v: nat, bs: seq<Byte>): (r: (bool, Ram))
    ensures |r.1| == |m|
    decreases |bs|
  {
    if |bs| == 0 then (true, m)
    else if Outcome(c, m, v, Write).None? then (false, m)
    else StoreFrom(c, StoreByte(c, m, v, bs[0]), Next(v), bs[1..])
  }

  /** One page holds all of v, v + 1, ..., v + n - 1. */
  predicate InPage(v: nat, n: nat) {
    v < SPACE && n >= 1 && v % PAGE + n <= PAGE
  }

  lemma InPageNext(v: nat, n: nat)
    requires InPage(v, n) && n >= 2
    ensures Next(v) == v + 1 && InPage(v + 1, n - 1) && PageOf(v + 1) == PageOf(v)
    ensures (v + 1) % PAGE == v % PAGE + 1
  {
    var q := v / PAGE;
    assert v == q * PAGE + v % PAGE;
    assert (v + 1) / PAGE == q;
  }

  /** RAM is whole pages, so a page is in RAM or out of it. */
  lemma PageInRam(m: Ram, p: nat, n: nat)
    requires n >= 1 && p % PAGE + n <= PAGE
    ensures InRam(m, p, 1) <==> InRam(m, p, n)
    ensures InRam(m, p, 1) <==> InRam(m, p - p % PAGE, PAGE)
  {
    var q, o := p / PAGE, p % PAGE;
    assert p == q * PAGE + o;
    assert RAM_BASE == 0x8_0000 * PAGE && |m| == |m| / PAGE * PAGE;
  }

  /** What a whole in-page load does: one walk, then bytes straight from RAM. */
  function PageLoad(c: Regime, m: Ram, v: nat, n: nat): (Loaded, Ram) {
    match Outcome(c, m, v, Read)
    case None => (PageFault(v), m)
    case Some(p) =>
      var m' := AfterWalk(c, m, v, Read);
      (if InRam(m, p, n) then Bytes(m'[p - RAM_BASE..p - RAM_BASE + n]) else Outside, m')
  }

  /** A second translation on the same page finds the same frame and writes nothing. */
  lemma SamePageOutcome(c: Regime, m: Ram, v: nat, k: nat, acc: Access)
    requires v % PAGE + k < PAGE && v + k < SPACE && Outcome(c, m, v, acc).Some?
    ensures var m1 := AfterWalk(c, m, v, acc);
            Outcome(c, m1, v + k, acc) == Some(Outcome(c, m, v, acc).value + k) && AfterWalk(c, m1, v + k, acc) == m1
  {
    hide Walk, AfterWalk, Outcome, WordsRead, PageOf;
    var m1 := AfterWalk(c, m, v, acc);
    SamePage(v, k);
    WriteBackIsInvisible(c, m, v, acc, c, v, acc);
    WalkSettles(c, m, v, acc);
    OutcomePagewise(c, m, v, acc);
    OutcomePagewise(c, m1, v, acc);
    OutcomePagewise(c, m1, v + k, acc);
  }

  lemma {:induction false} InPageLoad(c: Regime, m: Ram, v: nat, n: nat)
    requires InPage(v, n)
    ensures LoadFrom(c, m, v, n) == PageLoad(c, m, v, n)
    decreases n
  {
    hide AfterWalk, Outcome, PageLoad, Prepended;
    if Outcome(c, m, v, Read).None? {
      FaultingLoad(c, m, v, n);
    } else {
      var p, m' := Outcome(c, m, v, Read).value, AfterWalk(c, m, v, Read);
      FrameOffset(c, m, v, Read);
      PageInRam(m, p, n);
      if !InRam(m, p, 1) {
        OutsideLoad(c, m, v, n);
      } else if n == 1 {
        LastByte(c, m, v);
      } else {
        InPageNext(v, n);
        FirstByte(c, m, v, n);
        InPageLoad(c, m', v + 1, n - 1);
      }
    }
  }

  lemma FaultingLoad(c: Regime, m: Ram, v: nat, n: nat)
    requires n >= 1 && Outcome(c, m, v, Read).None?
    ensures LoadFrom(c, m, v, n) == PageLoad(c, m, v, n)
  {
  }

  lemma OutsideLoad(c: Regime, m: Ram, v: nat, n: nat)
    requires n >= 1 && Outcome(c, m, v, Read).Some? && !InRam(m, Outcome(c, m, v, Read).value, 1)
    requires !InRam(m, Outcome(c, m, v, Read).value, n)
    ensures LoadFrom(c, m, v, n) == PageLoad(c, m, v, n)
  {
    hide AfterWalk, Outcome;
  }

  lemma LastByte(c: Regime, m: Ram, v: nat)
    requires Outcome(c, m, v, Read).Some? && InRam(m, Outcome(c, m, v, Read).value, 1)
    ensures LoadFrom(c, m, v, 1) == PageLoad(c, m, v, 1)
  {
    hide AfterWalk, Outcome;
    var p, m' := Outcome(c, m, v, Read).value, AfterWalk(c, m, v, Read);
    assert LoadFrom(c, m', Next(v), 0) == (Bytes([]), m');
    assert m'[p - RAM_BASE..p - RAM_BASE + 1] == [m'[p - RAM_BASE]] + [];
  }

  /** A load within a page is its first byte and a load of the rest, which walks to the same entry and marks nothing. */
  lemma FirstByte(c: Regime, m: Ram, v: nat, n: nat)
    requires InPage(v, n) && n >= 2 && Outcome(c, m, v, Read).Some? && InRam(m, Outcome(c, m, v, Read).value, n)
    ensures var p, m' := Outcome(c, m, v, Read).value, AfterWalk(c, m, v, Read);
            PageLoad(c, m, v, n) == Prepended(m'[p - RAM_BASE], PageLoad(c, m', v + 1, n - 1))
  {
    hide AfterWalk, Outcome;
    var p, m' := Outcome(c, m, v, Read).value, AfterWalk(c, m, v, Read);
    InPageNext(v, n);
    SamePageOutcome(c, m, v, 1, Read);
    SplitSlice(m', p - RAM_BASE, n);
  }

  lemma SplitSlice(m: Ram, o: nat, n: nat)
    requires n >= 1 && o + n <= |m|
    ensures m[o..o + n] == [m[o]] + m[o + 1..o + n]
  {
  }

  lemma PageOffset(v: nat)
    ensures PageOf(v) + v % PAGE == v
  {
  }

  lemma FrameOffset(c: Regime, m: Ram, v: nat, acc: Access)
    requires Outcome(c, m, v, acc).Some?
    ensures Outcome(c, m, v, acc).value % PAGE == v % PAGE
  {
    hide AfterWalk, Walk, WordsRead, Outcome;
    OutcomePagewise(c, m, v, acc);
    var q := Outcome(c, m, PageOf(v), acc).value;
    assert q == q / PAGE * PAGE;
    ModuloOffset(q / PAGE, v % PAGE);
  }

  lemma ModuloOffset(k: nat, o: nat)
    requires o < PAGE
    ensures (k * PAGE + o) % PAGE == o && (k * PAGE + o) / PAGE == k
  {
    DivIs(k * PAGE + o, PAGE, k, o);
  }

  /** Loading n + k bytes is loading n, then k more. */
  lemma {:induction false} LoadSplit(c: Regime, m: Ram, v: nat, n: nat, k: nat)
    requires v < SPACE
    ensures var first := LoadFrom(c, m, v, n);
            LoadFrom(c, m, v, n + k) == Joined(first, LoadFrom(c, first.1, Plus(v, n), k))
    decreases n
  {
    hide AfterWalk, Outcome, Joined, Prepended;
    if n == 0 {
      JoinEmpty(m, LoadFrom(c, m, v, k));
    } else if Outcome(c, m, v, Read).Some? && InRam(m, Outcome(c, m, v, Read).value, 1) {
      var p, m' := Outcome(c, m, v, Read).value, AfterWalk(c, m, v, Read);
      LoadSplit(c, m', Next(v), n - 1, k);
      PlusNext(v, n);
      var rest := LoadFrom(c, m', Next(v), n - 1);
      PrependKeeps(m'[p - RAM_BASE], rest);
      PrependJoined(m'[p - RAM_BASE], rest, LoadFrom(c, rest.1, Plus(v, n), k));
    } else {
      JoinFailed(LoadFrom(c, m, v, n), LoadFrom(c, LoadFrom(c, m, v, n).1, Plus(v, n), k));
    }
  }

  lemma PrependKeeps(b: Byte, rest: (Loaded, Ram))
    ensures Prepended(b, rest).1 == rest.1
  {
  }

  lemma JoinFailed(first: (Loaded, Ram), second: (Loaded, Ram))
    ensures !first.0.Bytes? ==> Joined(first, second) == first
  {
  }

  lemma PlusNext(v: nat, n: nat)
    requires v < SPACE && n >= 1
    ensures Plus(Next(v), n - 1) == Plus(v, n)
  {
  }

  /**
   A load across two aligned words, as target_read_slow splices it: the high part of the first word,
   then the low part of the second.
   */
  lemma SplicedLoad(c: Regime, m: Ram, v: nat, size: nat)
    requires (size == 4 || size == 8) && v < SPACE && Misalign(v, size) != 0
    ensures var al := Misalign(v, size);
            var first := LoadFrom(c, m, v - al, size);
            var second := LoadFrom(c, first.1, Plus(v - al, size), size);
            var whole := LoadFrom(c, m, v, size);
            if first.0.PageFault? then first == (PageFault(v - al), m) && whole == (PageFault(v), m)
            else if first.0.Outside? || second.0.Outside? then whole.0.Outside?
            else if second.0.PageFault? then second.0.at == Plus(v - al, size) && whole == second
            else |first.0.bs| == size == |second.0.bs| && whole == (Bytes(first.0.bs[al..] + second.0.bs[..al]), second.1)
  {
    hide AfterWalk, Outcome, LoadFrom, PageLoad, PageOf, Plus, InPage, Misalign;
    var al := Misalign(v, size);
    var base, next := v - al, Plus(v - al, size);
    AlignedTail(v, size);
    var first := LoadFrom(c, m, base, size);
    var second := LoadFrom(c, first.1, next, size);
    FirstPart(c, m, base, al, size, first, LoadFrom(c, m, v, size - al));
    LoadSplit(c, m, v, size - al, al);
    SecondPart(c, first.1, next, al, size, second, LoadFrom(c, first.1, next, al));
  }

  /** The bytes from v on are the tail of the aligned word around it. */
  lemma FirstPart(c: Regime, m: Ram, base: nat, al: nat, size: nat, first: (Loaded, Ram), part: (Loaded, Ram))
    requires (size == 4 || size == 8) && base + al < SPACE && al == Misalign(base + al, size) != 0
    requires first == LoadFrom(c, m, base, size) && part == LoadFrom(c, m, base + al, size - al)
    ensures part.1 == first.1 && part.0.Bytes? == first.0.Bytes? && part.0.Outside? == first.0.Outside?
    ensures first.0.PageFault? ==> first == (PageFault(base), m) && part == (PageFault(base + al), m)
    ensures first.0.Bytes? ==> |first.0.bs| == size && part.0.bs == first.0.bs[al..]
  {
    hide AfterWalk, Outcome, LoadFrom, PageLoad, PageOf, Plus, InPage, Misalign;
    AlignedTail(base + al, size);
    AlignedInPage(base, size);
    ShorterInPage(base, size, al);
    InPageLoad(c, m, base, size);
    InPageLoad(c, m, base + al, size - al);
    PagePrefix(c, m, base, size, base + al, size - al);
  }

  /** The bytes past it are the head of the next aligned word. */
  lemma SecondPart(c: Regime, m: Ram, next: nat, al: nat, size: nat, second: (Loaded, Ram), part: (Loaded, Ram))
    requires (size == 4 || size == 8) && next < SPACE && Misalign(next, size) == 0 && 0 < al < size
    requires second == LoadFrom(c, m, next, size) && part == LoadFrom(c, m, next, al)
    ensures part.1 == second.1 && part.0.Bytes? == second.0.Bytes? && part.0.Outside? == second.0.Outside?
    ensures second.0.PageFault? ==> part == second && second.0.at == next
    ensures second.0.Bytes? ==> |second.0.bs| == size && part.0.bs == second.0.bs[..al]
  {
    hide AfterWalk, Outcome, LoadFrom, PageLoad, PageOf, Plus, InPage, Misalign;
    AlignedInPage(next, size);
    ShorterInPage(next, size, al);
    InPageLoad(c, m, next, size);
    InPageLoad(c, m, next, al);
    PagePrefix(c, m, next, size, next, al);
  }

  lemma ShorterInPage(v: nat, n: nat, k: nat)
    requires InPage(v, n) && 1 <= k < n && v + k < SPACE
    ensures InPage(v, k) && InPage(v + k, n - k)
  {
    SamePage(v, k);
  }

  predicate IsWidth(size: nat) {
    size == 1 || size == 2 || size == 4 || size == 8
  }

  /** addr & (size - 1) */
  function Misalign(v: nat, size: nat): (al: nat)
    requires IsWidth(size)
    ensures al < size && al <= v
  {
    if size == 1 then 0 else if size == 2 then v % 2 else if size == 4 then v % 4 else v % 8
  }

  lemma Multiples4(k: nat)
    ensures 4 * k % PAGE == k % 0x400 * 4 && 4 * k % SPACE == k % 0x4000_0000 * 4 && 4 * k % 4 == 0
  {
    DivIs(4 * k, PAGE, k / 0x400, k % 0x400 * 4);
    DivIs(4 * k, SPACE, k / 0x4000_0000, k % 0x4000_0000 * 4);
    DivIs(4 * k, 4, k, 0);
  }

  lemma Multiples8(k: nat)
    ensures 8 * k % PAGE == k % 0x200 * 8 && 8 * k % SPACE == k % 0x2000_0000 * 8 && 8 * k % 8 == 0
  {
    DivIs(8 * k, PAGE, k / 0x200, k % 0x200 * 8);
    DivIs(8 * k, SPACE, k / 0x2000_0000, k % 0x2000_0000 * 8);
    DivIs(8 * k, 8, k, 0);
  }

  lemma Multiples2(k: nat)
    ensures 2 * k % PAGE == k % 0x800 * 2
  {
    DivIs(2 * k, PAGE, k / 0x800, k % 0x800 * 2);
  }

  lemma AlignedInPage(v: nat, size: nat)
    requires IsWidth(size) && v < SPACE && Misalign(v, size) == 0
    ensures InPage(v, size)
  {
    if size == 2 {
      Multiples2(v / 2);
    } else if size == 4 {
      Multiples4(v / 4);
    } else if size == 8 {
      Multiples8(v / 8);
    }
  }

  lemma AlignedWords(v: nat, size: nat)
    requires (size == 4 || size == 8) && v < SPACE
    ensures var al := Misalign(v, size);
            Misalign(v - al, size) == 0 && Misalign((v - al + size) % SPACE, size) == 0
  {
    if size == 4 {
      Multiples4(v / 4);
      Multiples4(v / 4 + 1);
      Multiples4((v / 4 + 1) % 0x4000_0000);
      assert v == 4 * (v / 4) + v % 4;
    } else {
      Multiples8(v / 8);
      Multiples8(v / 8 + 1);
      Multiples8((v / 8 + 1) % 0x2000_0000);
      assert v == 8 * (v / 8) + v % 8;
    }
  }

  lemma AlignedTail(v: nat, size: nat)
    requires (size == 4 || size == 8) && v < SPACE
    ensures var al := Misalign(v, size);
            && Misalign(v - al, size) == 0 && Misalign(Plus(v - al, size), size) == 0 && Plus(v - al, size) < SPACE
            && Plus(v, size - al) == Plus(v - al, size)
            && PageOf(v - al) == PageOf(v) && v % PAGE == (v - al) % PAGE + al
  {
    hide PageOf, Misalign;
    var al := Misalign(v, size);
    AlignedWords(v, size);
    AlignedInPage(v - al, size);
    SamePage(v - al, al);
  }

  lemma SamePage(v: nat, k: nat)
    requires v % PAGE + k < PAGE
    ensures PageOf(v + k) == PageOf(v) && (v + k) % PAGE == v % PAGE + k
  {
    var q := v / PAGE;
    assert v == q * PAGE + v % PAGE;
    ModuloOffset(q, v % PAGE + k);
  }

  /** Part of an in-page load, from the same page and memory. */
  lemma PagePrefix(c: Regime, m: Ram, b: nat, n: nat, v: nat, k: nat)
    requires InPage(b, n) && b <= v && v + k <= b + n && InPage(v, k)
    requires PageOf(v) == PageOf(b) && v % PAGE == b % PAGE + (v - b)
    ensures var whole, part := PageLoad(c, m, b, n), PageLoad(c, m, v, k);
            && part.1 == whole.1 && part.0.Bytes? == whole.0.Bytes? && part.0.Outside? == whole.0.Outside?
            && (whole.0.PageFault? ==> whole == (PageFault(b), m) && part == (PageFault(v), m))
            && (whole.0.Bytes? ==> |whole.0.bs| == n && part.0.bs == whole.0.bs[v - b..v - b + k])
  {
    hide AfterWalk, Walk, WordsRead, PageOf, Outcome;
    OutcomePagewise(c, m, b, Read);
    OutcomePagewise(c, m, v, Read);
    if Outcome(c, m, b, Read).Some? {
      FrameOffset(c, m, b, Read);
      FrameOffset(c, m, v, Read);
      PageInRam(m, Outcome(c, m, b, Read).value, n);
      PageInRam(m, Outcome(c, m, v, Read).value, k);
      FrameOfOffset(Outcome(c, m, b, Read).value, Outcome(c, m, v, Read).value, b % PAGE, v % PAGE);
    }
  }

  lemma FrameOfOffset(p: nat, q: nat, x: nat, y: nat)
    requires p % PAGE == x && q % PAGE == y && p - x == q - y
    ensures p - p % PAGE == q - q % PAGE
  {
  }

  /* ---- stores and page tables ---- */

  /** tables holds every word any walk reads. */
  ghost predicate TablesIn(c: Regime, m: Ram, tables: iset<nat>) {
    forall v: nat, acc: Access, k: nat :: k < |WordsRead(c, m, v, acc)| ==> WordsRead(c, m, v, acc)[k] in tables
  }

  /** The aligned word a RAM byte belongs to. */
  function WordAt(p: nat): nat {
    p - p % 4
  }

  lemma ByteStoreWord(m: Ram, p: nat, b: Byte, a: nat)
    requires InRam(m, p, 1) && a % 4 == 0 && a != WordAt(p)
    ensures Word32(m[p - RAM_BASE := b], a) == Word32(m, a)
  {
  }

  /** Storing outside the tables leaves every walk as it was. */
  lemma StoreOutsideTables(c: Regime, m: Ram, p: nat, b: Byte, tables: iset<nat>)
    requires InRam(m, p, 1) && TablesIn(c, m, tables) && WordAt(p) !in tables
    ensures TablesIn(c, m[p - RAM_BASE := b], tables)
    ensures forall v: nat, acc: Access :: Outcome(c, m[p - RAM_BASE := b], v, acc) == Outcome(c, m, v, acc)
    ensures forall v: nat, acc: Access :: Settled(c, m, v, acc) ==> Settled(c, m[p - RAM_BASE := b], v, acc)
  {
    hide AfterWalk, Outcome, Walk, WordsRead, Word32, WordAt, Settled;
    var m' := m[p - RAM_BASE := b];
    forall v: nat, acc: Access
      ensures Outcome(c, m', v, acc) == Outcome(c, m, v, acc)
      ensures WordsRead(c, m', v, acc) == WordsRead(c, m, v, acc)
      ensures Settled(c, m, v, acc) ==> Settled(c, m', v, acc)
    {
      StoreKeepsWalk(c, m, p, b, tables, v, acc);
    }
  }

  lemma StoreKeepsWalk(c: Regime, m: Ram, p: nat, b: Byte, tables: iset<nat>, v: nat, acc: Access)
    requires InRam(m, p, 1) && TablesIn(c, m, tables) && WordAt(p) !in tables
    ensures Outcome(c, m[p - RAM_BASE := b], v, acc) == Outcome(c, m, v, acc)
    ensures WordsRead(c, m[p - RAM_BASE := b], v, acc) == WordsRead(c, m, v, acc)
    ensures Settled(c, m, v, acc) ==> Settled(c, m[p - RAM_BASE := b], v, acc)
  {
    hide WalkFrom, WordsFrom, Word32, WordAt, Settled, Marked;
    var m' := m[p - RAM_BASE := b];
    var words := WordsRead(c, m, v, acc);
    RootAligned(c);
    WordsAligned(m, v, RootTable(c), 0);
    forall k | 0 <= k < |words|
      ensures Word32(m', words[k]) == Word32(m, words[k])
    {
      ByteStoreWord(m, p, b, words[k]);
    }
    if Translates(c, acc) {
      WalkIsLocal(c, m, m', v, acc, RootTable(c), 0);
      if Walk(c, m, v, acc).Leaf? {
        LeafIsRead(c, m, v, acc, RootTable(c), 0);
      }
      LeafInRam(c, m, v, acc, RootTable(c), 0);
      LeafInRam(c, m', v, acc, RootTable(c), 0);
    }
    SettledIsMarked(c, m, v, acc);
    SettledIsMarked(c, m', v, acc);
  }

  /** The leaf's word is one of the words read. */
  lemma {:induction false} LeafIsRead(c: Regime, m: Ram, v: nat, acc: Access, table: nat, i: nat)
    requires WalkFrom(c, m, v, acc, table, i).Leaf?
    ensures WalkFrom(c, m, v, acc, table, i).pteAddr in WordsFrom(m, v, table, i)
    decreases 2 - i
  {
    hide Permits, TargetOf, Word32, PteAddr;
    var pte := Word32(m, PteAddr(v, table, i));
    if Xwr(pte) == 0 {
      LeafIsRead(c, m, v, acc, TargetOf(pte), i + 1);
    }
  }

  lemma WalkInsideTables(c: Regime, m: Ram, v: nat, acc: Access, tables: iset<nat>)
    requires TablesIn(c, m, tables)
    ensures TablesIn(c, AfterWalk(c, m, v, acc), tables)
  {
    hide AfterWalk, Outcome, Walk, WordsRead;
    forall v': nat, acc': Access
      ensures WordsRead(c, AfterWalk(c, m, v, acc), v', acc') == WordsRead(c, m, v', acc')
    {
      WriteBackIsInvisible(c, m, v, acc, c, v', acc');
    }
  }

  /** None of the n bytes from v on lands in a table word. */
  ghost predicate Avoids(c: Regime, m: Ram, v: nat, n: nat, tables: iset<nat>) {
    forall k: nat :: k < n ==> MissesTables(Outcome(c, m, Plus(v, k), Write), tables)
  }

  predicate MissesTables(p: Option<nat>, tables: iset<nat>) {
    p.Some? ==> WordAt(p.value) !in tables
  }

  /** What an in-page store does: one walk, then bytes straight into RAM. */
  function PageStore(c: Regime, m: Ram, v: nat, bs: seq<Byte>): (bool, Ram)
    requires |bs| >= 1
  {
    match Outcome(c, m, v, Write)
    case None => (false, m)
    case Some(p) =>
      var m' := AfterWalk(c, m, v, Write);
      (true, if InRam(m, p, |bs|) then Overwritten(m', p - RAM_BASE, bs) else m')
  }

  function Overwritten(m: Ram, o: nat, bs: seq<Byte>): (r: Ram)
    requires o + |bs| <= |m|
    ensures |r| == |m|
  {
    m[..o] + bs + m[o + |bs|..]
  }

  lemma OverwrittenOne(m: Ram, o: nat, bs: seq<Byte>)
    requires |bs| == 1 && o < |m|
    ensures Overwritten(m, o, bs) == m[o := bs[0]]
  {
  }

  lemma OverwrittenStep(m: Ram, o: nat, bs: seq<Byte>)
    requires |bs| >= 2 && o + |bs| <= |m|
    ensures Overwritten(m[o := bs[0]], o + 1, bs[1..]) == Overwritten(m, o, bs)
  {
  }

  /** No byte of the n from p on is in a page-table word. */
  predicate OffTables(p: nat, n: nat, tables: iset<nat>) {
    forall q: nat :: p <= q < p + n ==> WordAt(q) !in tables
  }

  /** Bytes written straight into RAM, as devices do, away from the page tables. */
  lemma {:induction false} WriteOutsideTables(c: Regime, m: Ram, o: nat, bs: seq<Byte>, tables: iset<nat>)
    requires o + |bs| <= |m| && TablesIn(c, m, tables) && OffTables(RAM_BASE + o, |bs|, tables)
    ensures var m' := Overwritten(m, o, bs);
            && TablesIn(c, m', tables)
            && (forall v: nat, acc: Access :: Outcome(c, m', v, acc) == Outcome(c, m, v, acc))
            && (forall v: nat, acc: Access :: Settled(c, m, v, acc) ==> Settled(c, m', v, acc))
    decreases |bs|
  {
    hide AfterWalk, Walk, WordsRead, Outcome, TablesIn, WordAt, Overwritten, Settled;
    if bs == [] {
      OverwrittenNone(m, o);
    } else {
      var p := RAM_BASE + o;
      StoreOutsideTables(c, m, p, bs[0], tables);
      if |bs| == 1 {
        OverwrittenOne(m, o, bs);
      } else {
        OverwrittenStep(m, o, bs);
        WriteOutsideTables(c, m[o := bs[0]], o + 1, bs[1..], tables);
      }
    }
  }

  lemma OverwrittenNone(m: Ram, o: nat)
    requires o <= |m|
    ensures Overwritten(m, o, []) == m
  {
  }

  lemma {:induction false} InPageStore(c: Regime, m: Ram, v: nat, bs: seq<Byte>, tables: iset<nat>)
    requires InPage(v, |bs|) && TablesIn(c, m, tables) && Avoids(c, m, v, |bs|, tables)
    ensures StoreFrom(c, m, v, bs) == PageStore(c, m, v, bs)
    decreases |bs|
  {
    hide AfterWalk, Walk, WordsRead, PageOf, Outcome, TablesIn, WordAt, Overwritten, StoreByte;
    if Outcome(c, m, v, Write).Some? {
      var p, m' := Outcome(c, m, v, Write).value, AfterWalk(c, m, v, Write);
      FrameOffset(c, m, v, Write);
      PageInRam(m, p, |bs|);
      AvoidsFirst(c, m, v, |bs|, tables);
      StoredByte(c, m, v, bs[0], tables);
      var m1 := StoreByte(c, m, v, bs[0]);
      if |bs| == 1 {
        if InRam(m, p, 1) {
          OverwrittenOne(m', p - RAM_BASE, bs);
        }
        assert StoreFrom(c, m1, Next(v), bs[1..]) == (true, m1);
      } else {
        StepStore(c, m, v, bs, tables);
        InPageNext(v, |bs|);
        InPageStore(c, m1, v + 1, bs[1..], tables);
        if InRam(m, p, 1) {
          OverwrittenStep(m', p - RAM_BASE, bs);
        }
      }
    }
  }

  /** After the first byte the rest of the page is translated as before, without further marks. */
  lemma StepStore(c: Regime, m: Ram, v: nat, bs: seq<Byte>, tables: iset<nat>)
    requires InPage(v, |bs|) && |bs| >= 2 && TablesIn(c, m, tables) && Avoids(c, m, v, |bs|, tables)
    requires Outcome(c, m, v, Write).Some?
    ensures var m1 := StoreByte(c, m, v, bs[0]);
            && Outcome(c, m1, v + 1, Write) == Some(Outcome(c, m, v, Write).value + 1)
            && AfterWalk(c, m1, v + 1, Write) == m1
            && TablesIn(c, m1, tables) && Avoids(c, m1, v + 1, |bs| - 1, tables)
  {
    hide AfterWalk, Walk, WordsRead, PageOf, Outcome, TablesIn, WordAt, StoreByte, Avoids;
    var m', m1 := AfterWalk(c, m, v, Write), StoreByte(c, m, v, bs[0]);
    InPageNext(v, |bs|);
    PageOffset(v);
    PageOffset(v + 1);
    OutcomePagewise(c, m, v, Write);
    OutcomePagewise(c, m, v + 1, Write);
    WalkSettles(c, m, v, Write);
    OutcomePagewise(c, m', v, Write);
    OutcomePagewise(c, m', v + 1, Write);
    AvoidsFirst(c, m, v, |bs|, tables);
    StoredByte(c, m, v, bs[0], tables);
    assert Settled(c, m', v + 1, Write);
    assert Settled(c, m1, v + 1, Write);
    AvoidsRest(c, m, m1, v, |bs|, tables);
  }

  lemma AvoidsFirst(c: Regime, m: Ram, v: nat, n: nat, tables: iset<nat>)
    requires v < SPACE && n >= 1 && Avoids(c, m, v, n, tables)
    ensures MissesTables(Outcome(c, m, v, Write), tables)
  {
    hide Outcome, MissesTables;
    assert Plus(v, 0) == v;
  }

  lemma AvoidsRest(c: Regime, m: Ram, m1: Ram, v: nat, n: nat, tables: iset<nat>)
    requires v < SPACE && n >= 1 && Avoids(c, m, v, n, tables)
    requires forall w: nat, acc: Access :: Outcome(c, m1, w, acc) == Outcome(c, m, w, acc)
    ensures Avoids(c, m1, Next(v), n - 1, tables)
  {
    hide Outcome, MissesTables;
    forall k: nat | k < n - 1
      ensures MissesTables(Outcome(c, m1, Plus(Next(v), k), Write), tables)
    {
      assert Plus(Next(v), k) == Plus(v, k + 1);
    }
  }

  /** One byte stored outside the tables: no walk changes its outcome, and none comes unsettled. */
  lemma StoredByte(c: Regime, m: Ram, v: nat, b: Byte, tables: iset<nat>)
    requires TablesIn(c, m, tables) && Outcome(c, m, v, Write).Some?
    requires MissesTables(Outcome(c, m, v, Write), tables)
    ensures var p, m', m1 := Outcome(c, m, v, Write).value, AfterWalk(c, m, v, Write), StoreByte(c, m, v, b);
            && m1 == (if InRam(m, p, 1) then m'[p - RAM_BASE := b] else m')
            && TablesIn(c, m1, tables)
            && (forall w: nat, acc: Access :: Outcome(c, m1, w, acc) == Outcome(c, m, w, acc))
            && (forall w: nat, acc: Access :: Settled(c, m', w, acc) ==> Settled(c, m1, w, acc))
  {
    hide AfterWalk, Walk, WordsRead, PageOf, Outcome, TablesIn, WordAt, Settled;
    var p, m' := Outcome(c, m, v, Write).value, AfterWalk(c, m, v, Write);
    WalkInsideTables(c, m, v, Write, tables);
    forall w: nat, acc: Access
      ensures Outcome(c, m', w, acc) == Outcome(c, m, w, acc)
    {
      WriteBackIsInvisible(c, m, v, Write, c, w, acc);
    }
    if InRam(m, p, 1) {
      StoreOutsideTables(c, m', p, b, tables);
    }
  }

  /* ---- a load after a store ---- */

  lemma {:induction false} WalkTranslates(c: Regime, m: Ram, v: nat, acc: Access, table: nat, i: nat)
    ensures WalkFrom(c, m, v, acc, table, i) != Untranslated
    decreases 2 - i
  {
    hide Permits, TargetOf, Word32, PteAddr;
    if i < 2 {
      WalkTranslates(c, m, v, acc, TargetOf(Word32(m, PteAddr(v, table, i))), i + 1);
    }
  }

  lemma WritableOutcome(c: Regime, m: Ram, v: nat)
    requires Outcome(c, m, v, Write).Some?
    ensures Outcome(c, m, v, Read) == Outcome(c, m, v, Write)
    ensures Settled(c, m, v, Write) ==> Settled(c, m, v, Read)
  {
    hide WalkFrom, Marked, Settled;
    SettledIsMarked(c, m, v, Write);
    SettledIsMarked(c, m, v, Read);
    WalkTranslates(c, m, v, Write, RootTable(c), 0);
    if Translates(c, Write) {
      WritableIsReadable(c, m, v, RootTable(c), 0);
      MarkedEntry(Walk(c, m, v, Write).pte, Write);
      MarkedEntry(Walk(c, m, v, Write).pte, Read);
    }
  }

  /** Every byte of the store is in RAM. */
  ghost predicate AllInRam(c: Regime, m: Ram, v: nat, n: nat) {
    forall k: nat :: k < n ==> LandsInRam(m, Outcome(c, m, Plus(v, k), Write))
  }

  predicate LandsInRam(m: Ram, p: Option<nat>) {
    p.Some? && InRam(m, p.value, 1)
  }

  lemma AllInRamRest(c: Regime, m: Ram, m1: Ram, v: nat, n: nat)
    requires v < SPACE && n >= 1 && AllInRam(c, m, v, n) && |m1| == |m|
    requires forall w: nat, acc: Access :: Outcome(c, m1, w, acc) == Outcome(c, m, w, acc)
    ensures LandsInRam(m, Outcome(c, m, v, Write))
    ensures AllInRam(c, m1, Next(v), n - 1)
  {
    hide Outcome;
    assert Plus(v, 0) == v;
    forall k: nat | k < n - 1
      ensures LandsInRam(m1, Outcome(c, m1, Plus(Next(v), k), Write))
    {
      assert Plus(Next(v), k) == Plus(v, k + 1);
    }
  }

  /** A byte outside the tables is changed only by a store that lands on it. */
  lemma ByteFrame(c: Regime, m: Ram, v: nat, b: Byte, tables: iset<nat>, q: nat)
    requires TablesIn(c, m, tables) && Outcome(c, m, v, Write).Some? && InRam(m, q, 1)
    requires WordAt(q) !in tables && Outcome(c, m, v, Write).value != q
    ensures StoreByte(c, m, v, b)[q - RAM_BASE] == m[q - RAM_BASE]
  {
    hide WalkFrom, WordsFrom, ByteOf, Marked, Word32;
    RootAligned(c);
    match Walk(c, m, v, Write)
    case Leaf(_, a, pte) =>
      LeafInRam(c, m, v, Write, RootTable(c), 0);
      LeafIsRead(c, m, v, Write, RootTable(c), 0);
      var words := WordsRead(c, m, v, Write);
      var k :| 0 <= k < |words| && words[k] == a;
      assert a in tables;
    case _ =>
  }

  lemma {:induction false} StoreFrame(c: Regime, m: Ram, v: nat, bs: seq<Byte>, tables: iset<nat>, q: nat)
    requires v < SPACE && TablesIn(c, m, tables) && Avoids(c, m, v, |bs|, tables) && AllInRam(c, m, v, |bs|)
    requires InRam(m, q, 1) && WordAt(q) !in tables
    requires forall k: nat :: k < |bs| ==> Outcome(c, m, Plus(v, k), Write) != Some(q)
    ensures var after := StoreFrom(c, m, v, bs);
            after.0 && after.1[q - RAM_BASE] == m[q - RAM_BASE]
    decreases |bs|
  {
    hide AfterWalk, Walk, WordsRead, PageOf, Outcome, TablesIn, WordAt, Settled, StoreByte, Avoids, AllInRam,
         MissesTables;
    if |bs| > 0 {
      var m1 := StoreByte(c, m, v, bs[0]);
      AvoidsFirst(c, m, v, |bs|, tables);
      assert Plus(v, 0) == v;
      StoreStep(c, m, v, bs, tables);
      ByteFrame(c, m, v, bs[0], tables, q);
      forall k: nat | k < |bs| - 1
        ensures Outcome(c, m1, Plus(Next(v), k), Write) != Some(q)
      {
        assert Plus(Next(v), k) == Plus(v, k + 1);
      }
      StoreFrame(c, m1, Next(v), bs[1..], tables, q);
    }
  }

  /** What holds before a store of several bytes holds, for the rest, after its first byte. */
  lemma StoreStep(c: Regime, m: Ram, v: nat, bs: seq<Byte>, tables: iset<nat>)
    requires v < SPACE && |bs| >= 1 && TablesIn(c, m, tables)
    requires Avoids(c, m, v, |bs|, tables) && AllInRam(c, m, v, |bs|)
    ensures var m1 := StoreByte(c, m, v, bs[0]);
            && LandsInRam(m, Outcome(c, m, v, Write))
            && m1[Outcome(c, m, v, Write).value - RAM_BASE] == bs[0]
            && TablesIn(c, m1, tables) && Avoids(c, m1, Next(v), |bs| - 1, tables)
            && AllInRam(c, m1, Next(v), |bs| - 1)
            && (forall w: nat, acc: Access :: Outcome(c, m1, w, acc) == Outcome(c, m, w, acc))
            && Settled(c, m1, v, Write)
  {
    hide AfterWalk, Walk, WordsRead, PageOf, Outcome, TablesIn, WordAt, Settled, StoreByte, Avoids, AllInRam,
         MissesTables;
    var m', m1 := AfterWalk(c, m, v, Write), StoreByte(c, m, v, bs[0]);
    AvoidsFirst(c, m, v, |bs|, tables);
    assert LandsInRam(m, Outcome(c, m, v, Write)) by {
      AllInRamRest(c, m, m, v, |bs|);
    }
    StoredByte(c, m, v, bs[0], tables);
    WalkSettles(c, m, v, Write);
    AvoidsRest(c, m, m1, v, |bs|, tables);
    AllInRamRest(c, m, m1, v, |bs|);
  }

  /** A store outside the tables changes no walk's outcome and unsettles none, fault or no fault. */
  lemma {:induction false} StoreKeepsSettled(c: Regime, m: Ram, v: nat, bs: seq<Byte>, tables: iset<nat>)
    requires v < SPACE && TablesIn(c, m, tables) && Avoids(c, m, v, |bs|, tables)
    ensures var m' := StoreFrom(c, m, v, bs).1;
            && TablesIn(c, m', tables)
            && (forall w: nat, acc: Access :: Outcome(c, m', w, acc) == Outcome(c, m, w, acc))
            && (forall w: nat, acc: Access :: Settled(c, m, w, acc) ==> Settled(c, m', w, acc))
    decreases |bs|
  {
    hide AfterWalk, Walk, WordsRead, PageOf, Outcome, TablesIn, WordAt, Settled, StoreByte, Avoids, MissesTables;
    if |bs| > 0 && Outcome(c, m, v, Write).Some? {
      var m1 := StoreByte(c, m, v, bs[0]);
      AvoidsFirst(c, m, v, |bs|, tables);
      StoredByte(c, m, v, bs[0], tables);
      forall w: nat, acc: Access | Settled(c, m, w, acc)
        ensures Settled(c, m1, w, acc)
      {
        SettledPersists(c, m, w, acc, c, v, Write);
      }
      AvoidsRest(c, m, m1, v, |bs|, tables);
      StoreKeepsSettled(c, m1, Next(v), bs[1..], tables);
    }
  }

  /** Within a page's length, bytes at different addresses land on different bytes of RAM. */
  lemma DistinctBytes(c: Regime, m: Ram, v: nat, k: nat)
    requires v < SPACE && 1 <= k < PAGE
    requires Outcome(c, m, v, Write).Some?
    ensures Outcome(c, m, Plus(v, k), Write) != Outcome(c, m, v, Write)
  {
    hide Outcome;
    FrameOffset(c, m, v, Write);
    if Outcome(c, m, Plus(v, k), Write).Some? {
      FrameOffset(c, m, Plus(v, k), Write);
      OffsetDiffers(v, k);
    }
  }

  lemma OffsetDiffers(v: nat, k: nat)
    requires v < SPACE && 1 <= k < PAGE
    ensures (v + k) % SPACE % PAGE != v % PAGE
  {
    var q, o := v / PAGE, v % PAGE;
    assert v == q * PAGE + o && SPACE == 0x10_0000 * PAGE;
    if v + k >= SPACE {
      assert (v + k) % SPACE == (q - 0x10_0000) * PAGE + (o + k);
    }
  }

  lemma FirstByteStays(c: Regime, m: Ram, v: nat, bs: seq<Byte>, tables: iset<nat>)
    requires v < SPACE && 1 <= |bs| <= PAGE && TablesIn(c, m, tables)
    requires Avoids(c, m, v, |bs|, tables) && AllInRam(c, m, v, |bs|)
    ensures var p := Outcome(c, m, v, Write);
            LandsInRam(m, p) && StoreFrom(c, m, v, bs).1[p.value - RAM_BASE] == bs[0]
  {
    hide AfterWalk, Walk, WordsRead, PageOf, Outcome, TablesIn, WordAt, StoreByte, Avoids, AllInRam;
    StoreStep(c, m, v, bs, tables);
    var m1, p := StoreByte(c, m, v, bs[0]), Outcome(c, m, v, Write).value;
    AvoidsFirst(c, m, v, |bs|, tables);
    forall k: nat | k < |bs| - 1
      ensures Outcome(c, m1, Plus(Next(v), k), Write) != Some(p)
    {
      assert Plus(Next(v), k) == Plus(v, k + 1);
      DistinctBytes(c, m, v, k + 1);
    }
    StoreFrame(c, m1, Next(v), bs[1..], tables, p);
  }

  /**
   Loading what was just stored gives it back, unaligned or across pages, as long as the store hit
   no page-table word.
   */
  lemma {:induction false} LoadAfterStore(c: Regime, m: Ram, v: nat, bs: seq<Byte>, tables: iset<nat>)
    requires v < SPACE && |bs| <= PAGE && TablesIn(c, m, tables)
    requires Avoids(c, m, v, |bs|, tables) && AllInRam(c, m, v, |bs|)
    ensures var after := StoreFrom(c, m, v, bs);
            after.0 && LoadFrom(c, after.1, v, |bs|) == (Bytes(bs), after.1)
    decreases |bs|
  {
    hide AfterWalk, Walk, WordsRead, PageOf, Outcome, TablesIn, WordAt, StoreByte, Avoids, AllInRam;
    if |bs| > 0 {
      var m1 := StoreByte(c, m, v, bs[0]);
      var after := StoreFrom(c, m, v, bs);
      StoreStep(c, m, v, bs, tables);
      var p := Outcome(c, m, v, Write).value;
      LoadAfterStore(c, m1, Next(v), bs[1..], tables);
      StoreKeepsSettled(c, m1, Next(v), bs[1..], tables);
      FirstByteStays(c, m, v, bs, tables);
      WritableOutcome(c, after.1, v);
      assert Settled(c, after.1, v, Read);
      assert [bs[0]] + bs[1..] == bs;
    }
  }
}
