/**
 The software TLB over the page walk: what its entries mean, what a hit gives, and what every access does to RAM, to
 the TLB and to the history of RAM, whatever state they are in.
 */
module TlbCache {
  import opened Basics
  import opened PageWalk
  import opened Bytewise

  const TLB_SIZE := 256

  /** vaddr -1 of an empty entry */
  const NO_PAGE := 0xFFFF_FFFF

  /** addend turns a virtual address of the page into an offset in RAM. */
  datatype TlbEntry = TlbEntry(vaddr: nat, addend: int)

  type Tlb = t: seq<TlbEntry> | |t| == TLB_SIZE witness seq(TLB_SIZE, _ => TlbEntry(NO_PAGE, 0))

  function IndexOf(v: nat): nat {
    v / PAGE % TLB_SIZE
  }

  predicate Live(e: TlbEntry) {
    e.vaddr != NO_PAGE
  }

  /** The entry says what a walk of m says about its page. */
  predicate Agrees(c: Regime, m: Ram, e: TlbEntry, i: nat, acc: Access) {
    && e.vaddr % PAGE == 0 && e.vaddr < SPACE && IndexOf(e.vaddr) == i
    && Outcome(c, m, e.vaddr, acc).Some?
    && Outcome(c, m, e.vaddr, acc).value == RAM_BASE + e.vaddr + e.addend
    && InRam(m, Outcome(c, m, e.vaddr, acc).value, PAGE)
  }

  /** RAM as it stood at the last flush and after every change to it since; the last is RAM now. */
  type Past = h: seq<Ram> | |h| > 0 witness [NO_RAM]

  const NO_RAM: Ram := []

  ghost function Now(h: Past): Ram {
    h[|h| - 1]
  }

  /** The history once RAM is m; only a change is a new moment. */
  ghost function Then(h: Past, m: Ram): (r: Past)
    ensures h <= r && Now(r) == m
  {
    if m == Now(h) then h else h + [m]
  }

  ghost predicate SameSize(h: Past) {
    forall m :: m in h ==> |m| == |Now(h)|
  }

  /** Every live entry is a walk of RAM as it stood at some moment of the history. */
  ghost predicate FromPast(c: Regime, past: Past, t: Tlb, acc: Access) {
    forall i :: 0 <= i < TLB_SIZE && Live(t[i]) ==> exists m :: m in past && Agrees(c, m, t[i], i, acc)
  }

  /** Every live entry is what a walk of m would say, and that walk would write nothing. */
  ghost predicate UpToDate(c: Regime, m: Ram, t: Tlb, acc: Access) {
    forall i :: 0 <= i < TLB_SIZE && Live(t[i]) ==> Agrees(c, m, t[i], i, acc) && Settled(c, m, t[i].vaddr, acc)
  }

  /** The address a hit gives, if v hits. */
  function HitIn(t: Tlb, v: nat): Option<int> {
    var e := t[IndexOf(v)];
    if Live(e) && e.vaddr == PageOf(v) then Some(RAM_BASE + v + e.addend) else None
  }

  /** The TLB with the entry for the page of v that a walk to p installs. */
  function Filled(t: Tlb, v: nat, p: int): Tlb {
    t[IndexOf(v) := TlbEntry(PageOf(v), p - RAM_BASE - v)]
  }

  /** The tag the fast path compares: the page, with the misaligned bits left in. */
  function Tag(v: nat, size: nat): nat
    requires IsWidth(size)
  {
    PageOf(v) + Misalign(v, size)
  }

  /** A tag match means a live entry for that page and an aligned access. */
  lemma TagMatch(v: nat, size: nat, page: nat)
    requires v < SPACE && IsWidth(size) && Tag(v, size) == page
    ensures page != NO_PAGE
    ensures page % PAGE == 0 ==> Misalign(v, size) == 0 && page == PageOf(v)
  {
    hide Misalign;
    var q := v / PAGE;
    assert PageOf(v) == q * PAGE;
    ModuloOffset(q, Misalign(v, size));
    assert NO_PAGE % PAGE == 0xFFF;
  }

  /** What a hit gives is what the walk of an up-to-date memory would give, without its writing anything. */
  lemma HitIsWalk(c: Regime, m: Ram, e: TlbEntry, i: nat, acc: Access, v: nat)
    requires Agrees(c, m, e, i, acc) && e.vaddr == PageOf(v)
    ensures Outcome(c, m, v, acc).Some? && Outcome(c, m, v, acc).value == RAM_BASE + v + e.addend
    ensures forall n: nat :: v % PAGE + n <= PAGE ==> InRam(m, Outcome(c, m, v, acc).value, n)
    ensures Settled(c, m, e.vaddr, acc) ==> AfterWalk(c, m, v, acc) == m
  {
    hide Outcome, AfterWalk, WordsRead, PageOf;
    OutcomePagewise(c, m, v, acc);
    PageOffset(v);
  }

  /** The entry the slow path installs agrees with memory as its walk left it. */
  lemma FilledEntry(c: Regime, m: Ram, v: nat, acc: Access)
    requires v < SPACE && Outcome(c, m, v, acc).Some? && InRam(m, Outcome(c, m, v, acc).value, 1)
    ensures var m', e := AfterWalk(c, m, v, acc), TlbEntry(PageOf(v), Outcome(c, m, v, acc).value - RAM_BASE - v);
            Live(e) && Agrees(c, m', e, IndexOf(v), acc) && Settled(c, m', e.vaddr, acc)
  {
    hide Outcome, AfterWalk, WordsRead, Settled;
    var m', p := AfterWalk(c, m, v, acc), Outcome(c, m, v, acc).value;
    WriteBackIsInvisible(c, m, v, acc, c, v, acc);
    WalkSettles(c, m, v, acc);
    OutcomePagewise(c, m', v, acc);
    FrameOffset(c, m', v, acc);
    PageInRam(m, p, 1);
    PageOffset(v);
    PageIndex(v);
    SettledPagewise(c, m', v, acc);
  }

  lemma SettledPagewise(c: Regime, m: Ram, v: nat, acc: Access)
    ensures Settled(c, m, v, acc) <==> Settled(c, m, PageOf(v), acc)
  {
    hide Outcome, AfterWalk, WordsRead, PageOf;
    OutcomePagewise(c, m, v, acc);
  }

  lemma PageIndex(v: nat)
    ensures PageOf(v) % PAGE == 0 && IndexOf(PageOf(v)) == IndexOf(v) && PageOf(v) != NO_PAGE && PageOf(v) <= v
  {
    var q := v / PAGE;
    assert PageOf(v) == q * PAGE;
  }

  /** A walk, for whatever address, kind and regime, leaves an up-to-date TLB up to date. */
  lemma WalkKeepsUpToDate(c: Regime, m: Ram, t: Tlb, acc: Access, v: nat, acc': Access)
    requires UpToDate(c, m, t, acc)
    ensures UpToDate(c, AfterWalk(c, m, v, acc'), t, acc)
  {
    hide Outcome, AfterWalk, WordsRead, Settled, IndexOf;
    forall i | 0 <= i < TLB_SIZE && Live(t[i])
      ensures Agrees(c, AfterWalk(c, m, v, acc'), t[i], i, acc)
      ensures Settled(c, AfterWalk(c, m, v, acc'), t[i].vaddr, acc)
    {
      WriteBackIsInvisible(c, m, v, acc', c, t[i].vaddr, acc);
      SettledPersists(c, m, t[i].vaddr, acc, c, v, acc');
    }
  }

  /** So does a store that hits no page-table word. */
  lemma StoreKeepsUpToDate(c: Regime, m: Ram, t: Tlb, acc: Access, v: nat, bs: seq<Byte>, tables: iset<nat>)
    requires UpToDate(c, m, t, acc) && v < SPACE && TablesIn(c, m, tables) && Avoids(c, m, v, |bs|, tables)
    ensures UpToDate(c, StoreFrom(c, m, v, bs).1, t, acc)
  {
    hide Outcome, AfterWalk, WordsRead, Settled, IndexOf, TablesIn, Avoids, StoreFrom;
    StoreKeepsSettled(c, m, v, bs, tables);
  }

  lemma FillUpToDate(c: Regime, m: Ram, t: Tlb, acc: Access, i: nat, e: TlbEntry)
    requires UpToDate(c, m, t, acc) && i < TLB_SIZE && Agrees(c, m, e, i, acc) && Settled(c, m, e.vaddr, acc)
    ensures UpToDate(c, m, t[i := e], acc)
  {
    hide Agrees, Settled;
  }

  lemma FillFromPast(c: Regime, past: Past, m: Ram, t: Tlb, acc: Access, i: nat, e: TlbEntry)
    requires FromPast(c, past, t, acc) && i < TLB_SIZE && m in past && Agrees(c, m, e, i, acc)
    ensures FromPast(c, past, t[i := e], acc)
  {
    hide Agrees;
    var t' := t[i := e];
    forall k | 0 <= k < TLB_SIZE && Live(t'[k])
      ensures exists m :: m in past && Agrees(c, m, t'[k], k, acc)
    {
      if k != i {
        assert t'[k] == t[k];
      }
    }
  }

  /** Installing the walk's answer for its page. */
  lemma Installed(c: Regime, past: Past, m: Ram, t: Tlb, v: nat, acc: Access)
    requires v < SPACE && Outcome(c, m, v, acc).Some? && InRam(m, Outcome(c, m, v, acc).value, 1)
    requires FromPast(c, past, t, acc) && AfterWalk(c, m, v, acc) in past
    ensures var m', e := AfterWalk(c, m, v, acc), TlbEntry(PageOf(v), Outcome(c, m, v, acc).value - RAM_BASE - v);
            && FromPast(c, past, t[IndexOf(v) := e], acc)
            && (UpToDate(c, m', t, acc) ==> UpToDate(c, m', t[IndexOf(v) := e], acc))
  {
    hide FromPast, UpToDate, AfterWalk, Outcome, Agrees, Settled;
    var m', e := AfterWalk(c, m, v, acc), TlbEntry(PageOf(v), Outcome(c, m, v, acc).value - RAM_BASE - v);
    FilledEntry(c, m, v, acc);
    FillFromPast(c, past, m', t, acc, IndexOf(v), e);
    if UpToDate(c, m', t, acc) {
      FillUpToDate(c, m', t, acc, IndexOf(v), e);
    }
  }

  lemma MorePast(c: Regime, past: Past, more: Past, t: Tlb, acc: Access)
    requires FromPast(c, past, t, acc) && past <= more
    ensures FromPast(c, more, t, acc)
  {
    hide Agrees;
    forall i | 0 <= i < TLB_SIZE && Live(t[i])
      ensures exists m :: m in more && Agrees(c, m, t[i], i, acc)
    {
      var m :| m in past && Agrees(c, m, t[i], i, acc);
      assert m in more;
    }
  }

  /** No walk's tables are outside `tables`, and no byte of the store lands in them. */
  ghost predicate ClearOfTables(c: Regime, m: Ram, v: nat, n: nat, tables: iset<nat>) {
    TablesIn(c, m, tables) && Avoids(c, m, v, n, tables)
  }

  lemma OverwrittenIs(m: Ram, o: nat, bs: seq<Byte>)
    requires o + |bs| <= |m|
    ensures Overwritten(m, o, bs) == m[..o] + bs + m[o + |bs|..]
  {
  }

  lemma StoreNone(c: Regime, m: Ram, v: nat)
    ensures StoreFrom(c, m, v, []) == (true, m)
  {
  }

  /** A store of several bytes is its first byte, then the rest. */
  lemma StoreNext(c: Regime, m: Ram, v: nat, bs: seq<Byte>)
    requires |bs| >= 1
    ensures var one := StoreFrom(c, m, v, [bs[0]]);
            StoreFrom(c, m, v, bs) == if one.0 then StoreFrom(c, one.1, Next(v), bs[1..]) else one
  {
    hide StoreByte, Outcome;
    StoreNone(c, StoreByte(c, m, v, bs[0]), Next(v));
    assert [bs[0]][1..] == [];
  }

  lemma ClearFirst(c: Regime, m: Ram, v: nat, n: nat, tables: iset<nat>)
    requires v < SPACE && n >= 1 && ClearOfTables(c, m, v, n, tables)
    ensures ClearOfTables(c, m, v, 1, tables)
  {
    hide TablesIn, Outcome, MissesTables;
  }

  lemma ClearRest(c: Regime, m: Ram, v: nat, bs: seq<Byte>, tables: iset<nat>)
    requires v < SPACE && |bs| >= 1 && ClearOfTables(c, m, v, |bs|, tables)
    ensures ClearOfTables(c, StoreFrom(c, m, v, [bs[0]]).1, Next(v), |bs| - 1, tables)
  {
    hide TablesIn, Outcome, MissesTables, Settled, StoreFrom, Avoids;
    ClearFirst(c, m, v, |bs|, tables);
    StoreKeepsSettled(c, m, v, [bs[0]], tables);
    AvoidsRest(c, m, StoreFrom(c, m, v, [bs[0]]).1, v, |bs|, tables);
  }

  lemma PastGrows(c: Regime, past: Past, more: Past, r: Tlb, w: Tlb, x: Tlb)
    requires AllFromPast(c, past, r, w, x) && past <= more
    ensures AllFromPast(c, more, r, w, x)
  {
    hide FromPast;
    MorePast(c, past, more, r, Read);
    MorePast(c, past, more, w, Write);
    MorePast(c, past, more, x, Code);
  }

  lemma StoreKeepsAll(c: Regime, m: Ram, past: Past, more: Past, r: Tlb, w: Tlb, x: Tlb, v: nat,
                      bs: seq<Byte>, tables: iset<nat>)
    requires AllFromPast(c, past, r, w, x) && past <= more && v < SPACE
    ensures AllFromPast(c, more, r, w, x)
    ensures AllUpToDate(c, m, r, w, x) && ClearOfTables(c, m, v, |bs|, tables) ==>
              AllUpToDate(c, StoreFrom(c, m, v, bs).1, r, w, x) && TablesIn(c, StoreFrom(c, m, v, bs).1, tables)
  {
    hide FromPast, UpToDate, StoreFrom, TablesIn, Avoids, Outcome, Settled;
    PastGrows(c, past, more, r, w, x);
    if AllUpToDate(c, m, r, w, x) && ClearOfTables(c, m, v, |bs|, tables) {
      StoreKeepsUpToDate(c, m, r, Read, v, bs, tables);
      StoreKeepsUpToDate(c, m, w, Write, v, bs, tables);
      StoreKeepsUpToDate(c, m, x, Code, v, bs, tables);
      StoreKeepsSettled(c, m, v, bs, tables);
    }
  }

  /** A TLB up to date after the store's walk is up to date after the store. */
  lemma WalkThenStore(c: Regime, m: Ram, r: Tlb, w: Tlb, x: Tlb, v: nat, bs: seq<Byte>, tables: iset<nat>)
    requires v < SPACE && ClearOfTables(c, m, v, |bs|, tables) && |bs| >= 1
    requires AllUpToDate(c, AfterWalk(c, m, v, Write), r, w, x)
    ensures AllUpToDate(c, StoreFrom(c, m, v, bs).1, r, w, x) && TablesIn(c, StoreFrom(c, m, v, bs).1, tables)
  {
    hide UpToDate, StoreFrom, TablesIn, Avoids, Outcome, Settled, AfterWalk;
    var m' := AfterWalk(c, m, v, Write);
    WalkInsideTables(c, m, v, Write, tables);
    StoreAfterWalk(c, m, v, bs, tables);
    StoreKeepsUpToDate(c, m', r, Read, v, bs, tables);
    StoreKeepsUpToDate(c, m', w, Write, v, bs, tables);
    StoreKeepsUpToDate(c, m', x, Code, v, bs, tables);
    StoreKeepsSettled(c, m', v, bs, tables);
  }

  /** Doing the store's first walk beforehand changes nothing. */
  lemma StoreAfterWalk(c: Regime, m: Ram, v: nat, bs: seq<Byte>, tables: iset<nat>)
    requires v < SPACE && |bs| >= 1 && Avoids(c, m, v, |bs|, tables)
    ensures Avoids(c, AfterWalk(c, m, v, Write), v, |bs|, tables)
    ensures StoreFrom(c, AfterWalk(c, m, v, Write), v, bs).1 == StoreFrom(c, m, v, bs).1
  {
    hide Outcome, AfterWalk, WordsRead, MissesTables;
    var m' := AfterWalk(c, m, v, Write);
    forall k: nat | k < |bs|
      ensures Outcome(c, m', Plus(v, k), Write) == Outcome(c, m, Plus(v, k), Write)
    {
      WriteBackIsInvisible(c, m, v, Write, c, Plus(v, k), Write);
    }
    WriteBackIsInvisible(c, m, v, Write, c, v, Write);
    WalkSettles(c, m, v, Write);
    if Outcome(c, m, v, Write).None? {
      FaultWritesNothing(c, m, v, Write);
    } else {
      assert StoreByte(c, m', v, bs[0]) == StoreByte(c, m, v, bs[0]);
    }
  }

  /** What a tag match says: a live entry for the page, whose frame is RAM, and an aligned access. */
  lemma TagFrame(c: Regime, past: Past, m: Ram, t: Tlb, acc: Access, addr: nat, size: nat)
    requires addr < SPACE && IsWidth(size) && t[IndexOf(addr)].vaddr == Tag(addr, size)
    requires FromPast(c, past, t, acc) && forall m' :: m' in past ==> |m'| == |m|
    ensures var o := addr + t[IndexOf(addr)].addend;
            0 <= o && o + size <= |m| && HitIn(t, addr) == Some(RAM_BASE + o) && t[IndexOf(addr)].vaddr == PageOf(addr)
    ensures Misalign(addr, size) == 0 && Live(t[IndexOf(addr)])
  {
    hide AfterWalk, Outcome, Misalign, Agrees, Settled;
    var i := IndexOf(addr);
    var e := t[i];
    TagMatch(addr, size, e.vaddr);
    var was :| was in past && Agrees(c, was, e, i, acc);
    AgreesPage(c, was, e, i, acc);
    AlignedInPage(addr, size);
    HitIsWalk(c, was, e, i, acc, addr);
    assert InRam(was, Outcome(c, was, addr, acc).value, size);
  }

  lemma WriteHit(c: Regime, past: Past, m: Ram, t: Tlb, addr: nat, bs: seq<Byte>, tables: iset<nat>)
    requires addr < SPACE && IsWidth(|bs|) && t[IndexOf(addr)].vaddr == Tag(addr, |bs|)
    requires FromPast(c, past, t, Write) && forall m' :: m' in past ==> |m'| == |m|
    ensures var o := addr + t[IndexOf(addr)].addend;
            && 0 <= o && o + |bs| <= |m| && HitIn(t, addr) == Some(RAM_BASE + o)
            && (UpToDate(c, m, t, Write) && ClearOfTables(c, m, addr, |bs|, tables) ==>
                  StoreFrom(c, m, addr, bs) == (true, Overwritten(m, o, bs)))
    ensures Misalign(addr, |bs|) == 0
  {
    hide AfterWalk, Outcome, StoreFrom, Misalign, Agrees, Settled, Overwritten, TablesIn, Avoids, Tag, FromPast,
         Live, HitIn;
    TagFrame(c, past, m, t, Write, addr, |bs|);
    if UpToDate(c, m, t, Write) && ClearOfTables(c, m, addr, |bs|, tables) {
      AlignedInPage(addr, |bs|);
      HitIsWalk(c, m, t[IndexOf(addr)], IndexOf(addr), Write, addr);
      InPageStore(c, m, addr, bs, tables);
    }
  }

  lemma CodeFrame(m: Ram, o: nat, addr: nat)
    requires InRam(m, RAM_BASE + o, 1) && (RAM_BASE + o) % PAGE == addr % PAGE
    ensures o - addr % PAGE >= 0 && (o - addr % PAGE) % PAGE == 0 && o - addr % PAGE + PAGE <= |m|
  {
    PageInRam(m, RAM_BASE + o, 1);
    var q := (RAM_BASE + o) / PAGE;
    assert RAM_BASE + o == q * PAGE + addr % PAGE && RAM_BASE == 0x8_0000 * PAGE;
    DivIs(o - addr % PAGE, PAGE, q - 0x8_0000, 0);
  }

  lemma CodeHit(c: Regime, past: Past, m: Ram, t: Tlb, addr: nat)
    requires addr < SPACE && t[IndexOf(addr)].vaddr == PageOf(addr)
    requires FromPast(c, past, t, Code) && forall m' :: m' in past ==> |m'| == |m|
    ensures var o := addr + t[IndexOf(addr)].addend;
            && o - addr % PAGE >= 0 && (o - addr % PAGE) % PAGE == 0 && o - addr % PAGE + PAGE <= |m|
            && (exists was :: was in past && FetchOf(c, was, addr) == At(o))
            && (UpToDate(c, m, t, Code) ==> FetchOf(c, m, addr) == At(o) && AfterWalk(c, m, addr, Code) == m)
  {
    hide AfterWalk, Outcome, Agrees, Settled;
    var i := IndexOf(addr);
    var e := t[i];
    PageIndex(addr);
    var was :| was in past && Agrees(c, was, e, i, Code);
    HitIsWalk(c, was, e, i, Code, addr);
    assert InRam(was, Outcome(c, was, addr, Code).value, 1);
    FrameOffset(c, was, addr, Code);
    CodeFrame(was, addr + e.addend, addr);
    if UpToDate(c, m, t, Code) {
      HitIsWalk(c, m, e, i, Code, addr);
      assert InRam(m, Outcome(c, m, addr, Code).value, 1);
    }
  }

  lemma FaultWritesNothing(c: Regime, m: Ram, v: nat, acc: Access)
    requires Outcome(c, m, v, acc).None?
    ensures AfterWalk(c, m, v, acc) == m
  {
  }

  lemma Aligned1(v: nat)
    ensures Misalign(v, 1) == 0
  {
  }

  /** (v0 >> 8 * drop) | (v1 << 8 * (size - take)), on little-endian bytes */
  function Spliced(v0: Loaded, v1: Loaded, drop: nat, take: nat): Loaded
    requires v0.Bytes? ==> drop <= |v0.bs|
    requires v1.Bytes? ==> take <= |v1.bs|
  {
    if v1.PageFault? then v1
    else if v0.Bytes? && v1.Bytes? then Bytes(v0.bs[drop..] + v1.bs[..take])
    else Outside
  }

  /** A hit needs no walk: the bytes at the entry's place in RAM are the load. */
  lemma ReadHit(c: Regime, past: Past, m: Ram, t: Tlb, addr: nat, size: nat)
    requires addr < SPACE && IsWidth(size) && t[IndexOf(addr)].vaddr == Tag(addr, size)
    requires FromPast(c, past, t, Read) && forall m' :: m' in past ==> |m'| == |m|
    ensures var o := addr + t[IndexOf(addr)].addend;
            && 0 <= o && o + size <= |m| && HitIn(t, addr) == Some(RAM_BASE + o)
            && (UpToDate(c, m, t, Read) ==> LoadFrom(c, m, addr, size) == (Bytes(m[o..o + size]), m))
    ensures Misalign(addr, size) == 0
  {
    hide AfterWalk, Outcome, LoadFrom, Misalign, Agrees, Settled, Tag, FromPast, Live, HitIn;
    TagFrame(c, past, m, t, Read, addr, size);
    if UpToDate(c, m, t, Read) {
      AlignedInPage(addr, size);
      HitIsWalk(c, m, t[IndexOf(addr)], IndexOf(addr), Read, addr);
      InPageLoad(c, m, addr, size);
    }
  }

  lemma AgreesPage(c: Regime, m: Ram, e: TlbEntry, i: nat, acc: Access)
    requires Agrees(c, m, e, i, acc)
    ensures e.vaddr % PAGE == 0
  {
  }

  /** The outcome of a fetch: an offset in RAM, or a page fault (true) or an access fault (false). */
  datatype Fetched = At(offset: nat) | FetchFault(page: bool)

  function FetchOf(c: Regime, m: Ram, addr: nat): Fetched {
    match Outcome(c, m, addr, Code)
    case None => FetchFault(true)
    case Some(p) => if InRam(m, p, 1) then At(p - RAM_BASE) else FetchFault(false)
  }

  ghost predicate AllFromPast(c: Regime, past: Past, r: Tlb, w: Tlb, x: Tlb) {
    FromPast(c, past, r, Read) && FromPast(c, past, w, Write) && FromPast(c, past, x, Code)
  }

  ghost predicate AllUpToDate(c: Regime, m: Ram, r: Tlb, w: Tlb, x: Tlb) {
    UpToDate(c, m, r, Read) && UpToDate(c, m, w, Write) && UpToDate(c, m, x, Code)
  }

  lemma WalkKeepsAll(c: Regime, m: Ram, past: Past, more: Past, r: Tlb, w: Tlb, x: Tlb, v: nat, acc: Access)
    requires AllFromPast(c, past, r, w, x) && past <= more
    ensures AllFromPast(c, more, r, w, x)
    ensures AllUpToDate(c, m, r, w, x) ==> AllUpToDate(c, AfterWalk(c, m, v, acc), r, w, x)
  {
    hide FromPast, UpToDate, AfterWalk;
    MorePast(c, past, more, r, Read);
    MorePast(c, past, more, w, Write);
    MorePast(c, past, more, x, Code);
    if AllUpToDate(c, m, r, w, x) {
      WalkKeepsUpToDate(c, m, r, Read, v, acc);
      WalkKeepsUpToDate(c, m, w, Write, v, acc);
      WalkKeepsUpToDate(c, m, x, Code, v, acc);
    }
  }

  /** One level of the walk. */
  lemma WalkStep(c: Regime, m: Ram, v: nat, acc: Access, table: nat, i: nat)
    ensures var pte := Word32(m, PteAddr(v, table, i));
            WalkFrom(c, m, v, acc, table, i) ==
            if i >= 2 || !IsValid(pte) then Fault
            else if Xwr(pte) == 0 then WalkFrom(c, m, v, acc, TargetOf(pte), i + 1)
            else if Permits(c, acc, pte) then
              Leaf(v % Span(i) + (TargetOf(pte) - TargetOf(pte) % Span(i)), PteAddr(v, table, i), pte)
            else Fault
  {
  }

  /* ---- what an access does, whatever state the TLB is in ---- */

  /** The TLB for one kind of access, and the history of RAM. */
  datatype Seen = Seen(tlb: Tlb, past: Past)

  function Peek(m: Ram, p: int, n: nat): Loaded {
    if InRam(m, p, n) then Bytes(m[p - RAM_BASE..p - RAM_BASE + n]) else Outside
  }

  function Poke(m: Ram, p: int, bs: seq<Byte>): Ram {
    if InRam(m, p, |bs|) then Overwritten(m, p - RAM_BASE, bs) else m
  }

  /** The slow path of an aligned load: a walk, and its page installed. */
  ghost function SlowLoad(c: Regime, s: Seen, v: nat, n: nat): (Loaded, Seen) {
    var m := Now(s.past);
    match Outcome(c, m, v, Read)
    case None => (PageFault(v), s)
    case Some(p) =>
      var h := Then(s.past, AfterWalk(c, m, v, Read));
      if InRam(m, p, 1) then (Peek(Now(h), p, n), Seen(Filled(s.tlb, v, p), h)) else (Outside, Seen(s.tlb, h))
  }

  /** An aligned load: what the entry says, or else the slow path. */
  ghost function LoadWord(c: Regime, s: Seen, v: nat, n: nat): (Loaded, Seen) {
    match HitIn(s.tlb, v)
    case Some(p) => (Peek(Now(s.past), p, n), s)
    case None => SlowLoad(c, s, v, n)
  }

  /** A misaligned load is two aligned ones: two bytes, or the two words around it. */
  ghost function LoadPair(c: Regime, s: Seen, v: nat, n: nat, al: nat, take: nat): (r: (Loaded, Seen))
    requires al <= v && al <= n && take <= n
  {
    var first := LoadWord(c, s, v - al, n);
    if first.0.PageFault? then first
    else
      var second := LoadWord(c, first.1, Plus(v - al, n), n);
      (Spliced(first.0, second.0, al, take), second.1)
  }

  ghost function Load(c: Regime, s: Seen, v: nat, n: nat): (Loaded, Seen)
    requires IsWidth(n)
  {
    if Misalign(v, n) == 0 then LoadWord(c, s, v, n)
    else if n == 2 then LoadPair(c, s, v, 1, 0, 1)
    else LoadPair(c, s, v, n, Misalign(v, n), Misalign(v, n))
  }

  ghost function SlowFetch(c: Regime, s: Seen, v: nat): (Fetched, Seen) {
    var m := Now(s.past);
    match Outcome(c, m, v, Code)
    case None => (FetchFault(true), s)
    case Some(p) =>
      var h := Then(s.past, AfterWalk(c, m, v, Code));
      if InRam(m, p, 1) then (At(p - RAM_BASE), Seen(Filled(s.tlb, v, p), h)) else (FetchFault(false), Seen(s.tlb, h))
  }

  ghost function FetchWord(c: Regime, s: Seen, v: nat): (Fetched, Seen) {
    match HitIn(s.tlb, v)
    case Some(p) => (if p >= RAM_BASE then At(p - RAM_BASE) else FetchFault(false), s)
    case None => SlowFetch(c, s, v)
  }

  ghost function SlowStore(c: Regime, s: Seen, v: nat, bs: seq<Byte>): (bool, Seen) {
    var m := Now(s.past);
    match Outcome(c, m, v, Write)
    case None => (false, s)
    case Some(p) =>
      var h := Then(s.past, AfterWalk(c, m, v, Write));
      (true, if InRam(m, p, 1) then Seen(Filled(s.tlb, v, p), Then(h, Poke(Now(h), p, bs))) else Seen(s.tlb, h))
  }

  ghost function StoreWord(c: Regime, s: Seen, v: nat, bs: seq<Byte>): (bool, Seen) {
    match HitIn(s.tlb, v)
    case Some(p) => (true, s.(past := Then(s.past, Poke(Now(s.past), p, bs))))
    case None => SlowStore(c, s, v, bs)
  }

  /** A misaligned store is its bytes, until one faults. */
  ghost function StoreBytes(c: Regime, s: Seen, v: nat, bs: seq<Byte>): (bool, Seen)
    decreases |bs|
  {
    if bs == [] then (true, s)
    else
      var one := StoreWord(c, s, v, [bs[0]]);
      if one.0 then StoreBytes(c, one.1, Next(v), bs[1..]) else one
  }

  ghost function Store(c: Regime, s: Seen, v: nat, bs: seq<Byte>): (bool, Seen)
    requires IsWidth(|bs|)
  {
    if Misalign(v, |bs|) == 0 then StoreWord(c, s, v, bs) else StoreBytes(c, s, v, bs)
  }

  /* ---- what that comes to ---- */

  /** Nothing but memory of one size, and nothing in a TLB but walks of its history. */
  ghost predicate Sound(c: Regime, past: Past, r: Tlb, w: Tlb, x: Tlb) {
    SameSize(past) && AllFromPast(c, past, r, w, x)
  }

  lemma GrownSize(h: Past, m: Ram)
    requires SameSize(h) && |m| == |Now(h)|
    ensures SameSize(Then(h, m))
  {
  }

  /** Any change of RAM keeps all TLBs to the history, and one away from the page tables keeps true ones true. */
  lemma WriteSound(c: Regime, past: Past, r: Tlb, w: Tlb, x: Tlb, o: nat, bs: seq<Byte>, tables: iset<nat>)
    requires Sound(c, past, r, w, x) && o + |bs| <= |Now(past)|
    ensures var m := Now(past);
            var m' := Overwritten(m, o, bs);
            && Sound(c, Then(past, m'), r, w, x)
            && (AllUpToDate(c, m, r, w, x) && TablesIn(c, m, tables) && OffTables(RAM_BASE + o, |bs|, tables) ==>
                  AllUpToDate(c, m', r, w, x))
  {
    hide FromPast, UpToDate, TablesIn, OffTables, Overwritten;
    var m := Now(past);
    var m' := Overwritten(m, o, bs);
    GrownSize(past, m');
    MorePast(c, past, Then(past, m'), r, Read);
    MorePast(c, past, Then(past, m'), w, Write);
    MorePast(c, past, Then(past, m'), x, Code);
    if TablesIn(c, m, tables) && OffTables(RAM_BASE + o, |bs|, tables) {
      WriteKeepsUpToDate(c, m, r, Read, o, bs, tables);
      WriteKeepsUpToDate(c, m, w, Write, o, bs, tables);
      WriteKeepsUpToDate(c, m, x, Code, o, bs, tables);
    }
  }

  lemma WriteKeepsUpToDate(c: Regime, m: Ram, t: Tlb, acc: Access, o: nat, bs: seq<Byte>, tables: iset<nat>)
    requires o + |bs| <= |m| && TablesIn(c, m, tables) && OffTables(RAM_BASE + o, |bs|, tables)
    ensures UpToDate(c, m, t, acc) ==> UpToDate(c, Overwritten(m, o, bs), t, acc)
  {
    hide Outcome, AfterWalk, WordsRead, Settled, IndexOf, TablesIn, OffTables, Overwritten;
    WriteOutsideTables(c, m, o, bs, tables);
  }

  /** The slow path of any kind of access keeps all TLBs to the history, and true ones true. */
  lemma WalkSound(c: Regime, past: Past, r: Tlb, w: Tlb, x: Tlb, v: nat, acc: Access)
    requires Sound(c, past, r, w, x)
    ensures var m := Now(past);
            var h := Then(past, AfterWalk(c, m, v, acc));
            && Sound(c, h, r, w, x)
            && (AllUpToDate(c, m, r, w, x) ==> AllUpToDate(c, Now(h), r, w, x))
  {
    hide AllFromPast, AllUpToDate, AfterWalk;
    var m := Now(past);
    GrownSize(past, AfterWalk(c, m, v, acc));
    WalkKeepsAll(c, m, past, Then(past, AfterWalk(c, m, v, acc)), r, w, x, v, acc);
  }

  /** An aligned load keeps the TLBs sound; on true ones it is the bytewise load, fault and all, and keeps them true. */
  lemma LoadWordSound(c: Regime, s: Seen, w: Tlb, x: Tlb, v: nat, n: nat)
    requires Sound(c, s.past, s.tlb, w, x) && v < SPACE && IsWidth(n) && Misalign(v, n) == 0
    ensures var r := LoadWord(c, s, v, n);
            && Sound(c, r.1.past, r.1.tlb, w, x) && s.past <= r.1.past && (r.0.Bytes? ==> |r.0.bs| == n)
            && (AllUpToDate(c, Now(s.past), s.tlb, w, x) ==>
                  AllUpToDate(c, Now(r.1.past), r.1.tlb, w, x) && (r.0, Now(r.1.past)) == LoadFrom(c, Now(s.past), v, n))
  {
    hide Outcome, AfterWalk, LoadFrom, Misalign, FromPast, UpToDate, PageOf, IndexOf, Live;
    var m := Now(s.past);
    if HitIn(s.tlb, v).Some? {
      HitTag(c, s, v, n);
      ReadHit(c, s.past, m, s.tlb, v, n);
    } else {
      SlowLoadSound(c, s, w, x, v, n);
    }
  }

  /** A hit on an aligned address is a tag match. */
  lemma HitTag(c: Regime, s: Seen, v: nat, n: nat)
    requires IsWidth(n) && Misalign(v, n) == 0 && HitIn(s.tlb, v).Some?
    ensures s.tlb[IndexOf(v)].vaddr == Tag(v, n) && HitIn(s.tlb, v) == Some(RAM_BASE + (v + s.tlb[IndexOf(v)].addend))
  {
  }

  /** A tag match is a hit on an aligned address. */
  lemma TagHit(c: Regime, past: Past, t: Tlb, acc: Access, v: nat, n: nat)
    requires FromPast(c, past, t, acc) && v < SPACE && IsWidth(n)
    ensures t[IndexOf(v)].vaddr == Tag(v, n) <==> Misalign(v, n) == 0 && HitIn(t, v).Some?
  {
    hide Agrees, Misalign;
    var e := t[IndexOf(v)];
    if e.vaddr == Tag(v, n) {
      TagMatch(v, n, e.vaddr);
      var m :| m in past && Agrees(c, m, e, IndexOf(v), acc);
      AgreesPage(c, m, e, IndexOf(v), acc);
    }
  }

  lemma SlowLoadSound(c: Regime, s: Seen, w: Tlb, x: Tlb, v: nat, n: nat)
    requires Sound(c, s.past, s.tlb, w, x) && v < SPACE && IsWidth(n) && Misalign(v, n) == 0
    ensures var r := SlowLoad(c, s, v, n);
            && Sound(c, r.1.past, r.1.tlb, w, x) && s.past <= r.1.past && (r.0.Bytes? ==> |r.0.bs| == n)
            && (r.0, Now(r.1.past)) == LoadFrom(c, Now(s.past), v, n)
            && (AllUpToDate(c, Now(s.past), s.tlb, w, x) ==> AllUpToDate(c, Now(r.1.past), r.1.tlb, w, x))
  {
    hide Outcome, AfterWalk, LoadFrom, Misalign, FromPast, UpToDate, PageOf, IndexOf;
    var m := Now(s.past);
    AlignedInPage(v, n);
    InPageLoad(c, m, v, n);
    if Outcome(c, m, v, Read).Some? {
      var p := Outcome(c, m, v, Read).value;
      WalkSound(c, s.past, s.tlb, w, x, v, Read);
      FrameOffset(c, m, v, Read);
      PageInRam(m, p, n);
      if InRam(m, p, 1) {
        Installed(c, Then(s.past, AfterWalk(c, m, v, Read)), m, s.tlb, v, Read);
      }
    }
  }

  /** The same for a fetch, whose whole page is RAM. */
  lemma FetchWordSound(c: Regime, s: Seen, r: Tlb, w: Tlb, v: nat)
    requires Sound(c, s.past, r, w, s.tlb) && v < SPACE
    ensures var f := FetchWord(c, s, v);
            var m := Now(s.past);
            && Sound(c, f.1.past, r, w, f.1.tlb) && s.past <= f.1.past
            && (f.0.At? ==> InFrame(|m|, f.0.offset, v))
            && (AllUpToDate(c, m, r, w, s.tlb) ==>
                  && AllUpToDate(c, Now(f.1.past), r, w, f.1.tlb)
                  && f.0 == FetchOf(c, m, v) && Now(f.1.past) == AfterWalk(c, m, v, Code))
  {
    hide Outcome, AfterWalk, FromPast, UpToDate, PageOf, IndexOf, Live;
    var m := Now(s.past);
    if HitIn(s.tlb, v).Some? {
      HitPage(s.tlb, v);
      CodeHit(c, s.past, m, s.tlb, v);
    } else {
      SlowFetchSound(c, s, r, w, v);
    }
  }

  /** The page around offset o, where v is, lies in RAM. */
  /** The memory a fetch's translation is a walk of: one of the history, and the last of it on an up-to-date TLB. */
  lemma FetchOrigin(c: Regime, s: Seen, r: Tlb, w: Tlb, v: nat) returns (m: Ram)
    requires Sound(c, s.past, r, w, s.tlb) && v < SPACE && FetchWord(c, s, v).0.At?
    ensures m in s.past && FetchOf(c, m, v) == FetchWord(c, s, v).0
    ensures AllUpToDate(c, Now(s.past), r, w, s.tlb) ==> m == Now(s.past)
  {
    hide Outcome, AfterWalk, FromPast, UpToDate, PageOf, Live, FetchOf;
    m := Now(s.past);
    if HitIn(s.tlb, v).Some? {
      HitPage(s.tlb, v);
      CodeHit(c, s.past, m, s.tlb, v);
      if !UpToDate(c, m, s.tlb, Code) {
        m :| m in s.past && FetchOf(c, m, v) == At(v + s.tlb[IndexOf(v)].addend);
      }
    } else {
      SlowFetchSound(c, s, r, w, v);
    }
  }

  predicate InFrame(size: nat, o: nat, v: nat) {
    o - v % PAGE >= 0 && (o - v % PAGE) % PAGE == 0 && o - v % PAGE + PAGE <= size
  }

  lemma HitPage(t: Tlb, v: nat)
    requires HitIn(t, v).Some?
    ensures t[IndexOf(v)].vaddr == PageOf(v) && HitIn(t, v) == Some(RAM_BASE + (v + t[IndexOf(v)].addend))
  {
  }

  lemma SlowFetchSound(c: Regime, s: Seen, r: Tlb, w: Tlb, v: nat)
    requires Sound(c, s.past, r, w, s.tlb) && v < SPACE
    ensures var f := SlowFetch(c, s, v);
            var m := Now(s.past);
            && Sound(c, f.1.past, r, w, f.1.tlb) && s.past <= f.1.past
            && (f.0.At? ==> InFrame(|m|, f.0.offset, v))
            && f.0 == FetchOf(c, m, v) && Now(f.1.past) == AfterWalk(c, m, v, Code)
            && (AllUpToDate(c, m, r, w, s.tlb) ==> AllUpToDate(c, Now(f.1.past), r, w, f.1.tlb))
  {
    hide Outcome, AfterWalk, FromPast, UpToDate, PageOf, IndexOf;
    var m := Now(s.past);
    if Outcome(c, m, v, Code).None? {
      FaultWritesNothing(c, m, v, Code);
    } else {
      var p := Outcome(c, m, v, Code).value;
      WalkSound(c, s.past, r, w, s.tlb, v, Code);
      if InRam(m, p, 1) {
        Installed(c, Then(s.past, AfterWalk(c, m, v, Code)), m, s.tlb, v, Code);
        FrameOffset(c, m, v, Code);
        CodeFrame(m, p - RAM_BASE, v);
      }
    }
  }

  /** An aligned store: sound always; on true TLBs, and away from the page tables, the bytewise store. */
  lemma StoreWordSound(c: Regime, s: Seen, r: Tlb, x: Tlb, v: nat, bs: seq<Byte>, tables: iset<nat>)
    requires Sound(c, s.past, r, s.tlb, x) && v < SPACE && IsWidth(|bs|) && Misalign(v, |bs|) == 0
    ensures var q := StoreWord(c, s, v, bs);
            var m := Now(s.past);
            && Sound(c, q.1.past, r, q.1.tlb, x) && s.past <= q.1.past
            && (AllUpToDate(c, m, r, s.tlb, x) && ClearOfTables(c, m, v, |bs|, tables) ==>
                  && AllUpToDate(c, Now(q.1.past), r, q.1.tlb, x) && TablesIn(c, Now(q.1.past), tables)
                  && (q.0, Now(q.1.past)) == StoreFrom(c, m, v, bs))
  {
    hide Outcome, AfterWalk, StoreFrom, Misalign, FromPast, UpToDate, PageOf, IndexOf, Live, TablesIn, Avoids,
         Overwritten;
    var m := Now(s.past);
    if HitIn(s.tlb, v).Some? {
      WriteTag(c, s, v, bs);
      WriteHit(c, s.past, m, s.tlb, v, bs, tables);
      var h := Then(s.past, Poke(m, HitIn(s.tlb, v).value, bs));
      GrownSize(s.past, Now(h));
      StoreKeepsAll(c, m, s.past, h, r, s.tlb, x, v, bs, tables);
    } else {
      SlowStoreSound(c, s, r, x, v, bs, tables);
    }
  }

  lemma WriteTag(c: Regime, s: Seen, v: nat, bs: seq<Byte>)
    requires IsWidth(|bs|) && Misalign(v, |bs|) == 0 && HitIn(s.tlb, v).Some?
    ensures s.tlb[IndexOf(v)].vaddr == Tag(v, |bs|) && HitIn(s.tlb, v) == Some(RAM_BASE + (v + s.tlb[IndexOf(v)].addend))
  {
    HitTag(c, s, v, |bs|);
  }

  /** The page of a store installed after its walk. */
  lemma InstallSound(c: Regime, h: Past, m: Ram, r: Tlb, w: Tlb, x: Tlb, v: nat)
    requires Sound(c, h, r, w, x) && v < SPACE && Now(h) == AfterWalk(c, m, v, Write)
    requires Outcome(c, m, v, Write).Some? && InRam(m, Outcome(c, m, v, Write).value, 1)
    ensures var t := Filled(w, v, Outcome(c, m, v, Write).value);
            Sound(c, h, r, t, x) && (AllUpToDate(c, Now(h), r, w, x) ==> AllUpToDate(c, Now(h), r, t, x))
  {
    hide Outcome, AfterWalk, FromPast, UpToDate, PageOf, IndexOf;
    Installed(c, h, m, w, v, Write);
  }

  lemma SlowStoreSound(c: Regime, s: Seen, r: Tlb, x: Tlb, v: nat, bs: seq<Byte>, tables: iset<nat>)
    requires Sound(c, s.past, r, s.tlb, x) && v < SPACE && IsWidth(|bs|) && Misalign(v, |bs|) == 0
    ensures var q := SlowStore(c, s, v, bs);
            var m := Now(s.past);
            && Sound(c, q.1.past, r, q.1.tlb, x) && s.past <= q.1.past
            && (AllUpToDate(c, m, r, s.tlb, x) && ClearOfTables(c, m, v, |bs|, tables) ==>
                  && AllUpToDate(c, Now(q.1.past), r, q.1.tlb, x) && TablesIn(c, Now(q.1.past), tables)
                  && (q.0, Now(q.1.past)) == StoreFrom(c, m, v, bs))
  {
    hide Outcome, AfterWalk, StoreFrom, Misalign, Sound, AllUpToDate, Filled, TablesIn, Avoids, Overwritten, Poke;
    var m := Now(s.past);
    if Outcome(c, m, v, Write).None? {
      FaultingStore(c, m, v, bs, tables);
    } else {
      var p, m' := Outcome(c, m, v, Write).value, AfterWalk(c, m, v, Write);
      var h := Then(s.past, m');
      WalkSound(c, s.past, r, s.tlb, x, v, Write);
      if InRam(m, p, 1) {
        InstallSound(c, h, m, r, s.tlb, x, v);
        StoredSound(c, Seen(Filled(s.tlb, v, p), h), m, r, x, v, bs, tables);
      } else {
        StoreOutside(c, m, v, bs, tables);
      }
    }
  }

  lemma FaultingStore(c: Regime, m: Ram, v: nat, bs: seq<Byte>, tables: iset<nat>)
    requires Outcome(c, m, v, Write).None? && |bs| >= 1
    ensures StoreFrom(c, m, v, bs) == (false, m)
    ensures ClearOfTables(c, m, v, |bs|, tables) ==> TablesIn(c, m, tables)
  {
  }

  lemma StoreOutside(c: Regime, m: Ram, v: nat, bs: seq<Byte>, tables: iset<nat>)
    requires v < SPACE && IsWidth(|bs|) && Misalign(v, |bs|) == 0
    requires Outcome(c, m, v, Write).Some? && !InRam(m, Outcome(c, m, v, Write).value, 1)
    ensures ClearOfTables(c, m, v, |bs|, tables) ==>
              && TablesIn(c, AfterWalk(c, m, v, Write), tables)
              && StoreFrom(c, m, v, bs) == (true, AfterWalk(c, m, v, Write))
  {
    hide Outcome, AfterWalk, StoreFrom, Misalign, TablesIn, Avoids, PageOf;
    if ClearOfTables(c, m, v, |bs|, tables) {
      AlignedInPage(v, |bs|);
      FrameOffset(c, m, v, Write);
      PageInRam(m, Outcome(c, m, v, Write).value, |bs|);
      InPageStore(c, m, v, bs, tables);
      WalkInsideTables(c, m, v, Write, tables);
    }
  }

  /** After the walk, and its page installed, the bytes are put in place. */
  lemma StoredSound(c: Regime, s: Seen, m: Ram, r: Tlb, x: Tlb, v: nat, bs: seq<Byte>, tables: iset<nat>)
    requires Sound(c, s.past, r, s.tlb, x) && v < SPACE && IsWidth(|bs|) && Misalign(v, |bs|) == 0
    requires Now(s.past) == AfterWalk(c, m, v, Write) && Outcome(c, m, v, Write).Some?
    requires InRam(m, Outcome(c, m, v, Write).value, 1)
    ensures var m' := Poke(Now(s.past), Outcome(c, m, v, Write).value, bs);
            && Sound(c, Then(s.past, m'), r, s.tlb, x)
            && (AllUpToDate(c, Now(s.past), r, s.tlb, x) && ClearOfTables(c, m, v, |bs|, tables) ==>
                  && AllUpToDate(c, m', r, s.tlb, x) && TablesIn(c, m', tables)
                  && (true, m') == StoreFrom(c, m, v, bs))
  {
    hide Outcome, AfterWalk, StoreFrom, Misalign, FromPast, UpToDate, PageOf, IndexOf, TablesIn, Avoids, Overwritten,
         SameSize, Then;
    var p := Outcome(c, m, v, Write).value;
    var m' := Poke(Now(s.past), p, bs);
    AlignedInPage(v, |bs|);
    FrameOffset(c, m, v, Write);
    PageInRam(m, p, |bs|);
    GrownSize(s.past, m');
    PastGrows(c, s.past, Then(s.past, m'), r, s.tlb, x);
    if AllUpToDate(c, Now(s.past), r, s.tlb, x) && ClearOfTables(c, m, v, |bs|, tables) {
      InPageStore(c, m, v, bs, tables);
      WalkThenStore(c, m, r, s.tlb, x, v, bs, tables);
    }
  }

  /** So for the bytes of a misaligned store, up to one that faults. */
  lemma {:induction false} StoreBytesSound(c: Regime, s: Seen, r: Tlb, x: Tlb, v: nat, bs: seq<Byte>, tables: iset<nat>)
    requires Sound(c, s.past, r, s.tlb, x) && v < SPACE
    ensures var q := StoreBytes(c, s, v, bs);
            var m := Now(s.past);
            && Sound(c, q.1.past, r, q.1.tlb, x) && s.past <= q.1.past
            && (AllUpToDate(c, m, r, s.tlb, x) && ClearOfTables(c, m, v, |bs|, tables) ==>
                  && AllUpToDate(c, Now(q.1.past), r, q.1.tlb, x) && TablesIn(c, Now(q.1.past), tables)
                  && (q.0, Now(q.1.past)) == StoreFrom(c, m, v, bs))
    decreases |bs|
  {
    hide Outcome, StoreFrom, Misalign, Sound, AllUpToDate, TablesIn, Avoids, StoreWord;
    var m := Now(s.past);
    if bs == [] {
      StoreNone(c, m, v);
    } else {
      Aligned1(v);
      StoreWordSound(c, s, r, x, v, [bs[0]], tables);
      var one := StoreWord(c, s, v, [bs[0]]);
      if one.0 {
        StoreBytesSound(c, one.1, r, x, Next(v), bs[1..], tables);
      }
      if AllUpToDate(c, m, r, s.tlb, x) && ClearOfTables(c, m, v, |bs|, tables) {
        ClearFirst(c, m, v, |bs|, tables);
        StoreNext(c, m, v, bs);
        ClearRest(c, m, v, bs, tables);
      }
    }
  }

  /**
   A store of any width and alignment, on whatever TLB, keeps every entry a walk of the history. On a TLB no
   page-table word was stored to under, and away from the tables itself, it is the bytewise store.
   */
  lemma StoreIsBytewise(c: Regime, s: Seen, r: Tlb, x: Tlb, v: nat, bs: seq<Byte>, tables: iset<nat>)
    requires Sound(c, s.past, r, s.tlb, x) && v < SPACE && IsWidth(|bs|)
    ensures var q := Store(c, s, v, bs);
            var m := Now(s.past);
            && Sound(c, q.1.past, r, q.1.tlb, x) && s.past <= q.1.past
            && (AllUpToDate(c, m, r, s.tlb, x) && ClearOfTables(c, m, v, |bs|, tables) ==>
                  && AllUpToDate(c, Now(q.1.past), r, q.1.tlb, x) && TablesIn(c, Now(q.1.past), tables)
                  && (q.0, Now(q.1.past)) == StoreFrom(c, m, v, bs))
  {
    hide StoreFrom, Misalign, Sound, AllUpToDate, TablesIn, Avoids, StoreWord, StoreBytes;
    if Misalign(v, |bs|) == 0 {
      StoreWordSound(c, s, r, x, v, bs, tables);
    } else {
      StoreBytesSound(c, s, r, x, v, bs, tables);
    }
  }

  /** The address target_read_slow reports for a load that faults at a byte: a word's own address. */
  function Reported(l: Loaded, n: nat): Loaded
    requires IsWidth(n)
  {
    match l
    case PageFault(at) => PageFault(if n <= 2 then at else at - Misalign(at, n))
    case _ => l
  }

  lemma LoadPairSound(c: Regime, s: Seen, w: Tlb, x: Tlb, v: nat, n: nat, al: nat, take: nat)
    requires Sound(c, s.past, s.tlb, w, x) && v < SPACE && IsWidth(n) && al <= v && al <= n && take <= n
    requires Misalign(v - al, n) == 0 && Misalign(Plus(v - al, n), n) == 0
    ensures var r := LoadPair(c, s, v, n, al, take);
            && Sound(c, r.1.past, r.1.tlb, w, x) && s.past <= r.1.past && (r.0.Bytes? ==> |r.0.bs| == n - al + take)
            && (AllUpToDate(c, Now(s.past), s.tlb, w, x) ==>
                  var first := LoadFrom(c, Now(s.past), v - al, n);
                  var second := LoadFrom(c, first.1, Plus(v - al, n), n);
                  && AllUpToDate(c, Now(r.1.past), r.1.tlb, w, x)
                  && (r.0, Now(r.1.past)) ==
                     if first.0.PageFault? then first else (Spliced(first.0, second.0, al, take), second.1))
  {
    hide LoadFrom, Misalign, Sound, AllUpToDate, LoadWord;
    LoadWordSound(c, s, w, x, v - al, n);
    var first := LoadWord(c, s, v - al, n);
    LoadWordSound(c, first.1, w, x, Plus(v - al, n), n);
  }

  /** What the two aligned loads come to, for two bytes and for two words. */
  lemma PairIsWhole(c: Regime, m: Ram, v: nat, n: nat)
    requires v < SPACE && IsWidth(n) && Misalign(v, n) != 0
    ensures var al, w := if n == 2 then 0 else Misalign(v, n), if n == 2 then 1 else n;
            var take := if n == 2 then 1 else al;
            var first := LoadFrom(c, m, v - al, w);
            var second := LoadFrom(c, first.1, Plus(v - al, w), w);
            var whole := LoadFrom(c, m, v, n);
            var r := if first.0.PageFault? then first else (Spliced(first.0, second.0, al, take), second.1);
            && (!whole.0.Outside? ==> r == (Reported(whole.0, n), whole.1))
            && (whole.0.Outside? ==> !r.0.Bytes?)
  {
    hide LoadFrom, Misalign;
    if n == 2 {
      LoadSplit(c, m, v, 1, 1);
      var first := LoadFrom(c, m, v, 1);
      var second := LoadFrom(c, first.1, Plus(v, 1), 1);
      if first.0.Bytes? && second.0.Bytes? {
        assert first.0.bs[0..] + second.0.bs[..1] == first.0.bs + second.0.bs;
      }
    } else {
      AlignedTail(v, n);
      SplicedLoad(c, m, v, n);
    }
  }

  lemma WholeFault(c: Regime, m: Ram, v: nat, n: nat)
    requires v < SPACE && IsWidth(n) && Misalign(v, n) == 0
    ensures Reported(LoadFrom(c, m, v, n).0, n) == LoadFrom(c, m, v, n).0
  {
    hide LoadFrom, Misalign, Outcome, AfterWalk;
    AlignedInPage(v, n);
    InPageLoad(c, m, v, n);
  }

  /**
   A load of any width and alignment, on whatever TLB, keeps every entry a walk of the history. On a TLB no
   page-table word was stored to under, it is the bytewise load, a fault reported at the word it is in.
   */
  lemma LoadIsBytewise(c: Regime, s: Seen, w: Tlb, x: Tlb, v: nat, n: nat)
    requires Sound(c, s.past, s.tlb, w, x) && v < SPACE && IsWidth(n)
    ensures var r := Load(c, s, v, n);
            var whole := LoadFrom(c, Now(s.past), v, n);
            && Sound(c, r.1.past, r.1.tlb, w, x) && s.past <= r.1.past && (r.0.Bytes? ==> |r.0.bs| == n)
            && (AllUpToDate(c, Now(s.past), s.tlb, w, x) ==>
                  && AllUpToDate(c, Now(r.1.past), r.1.tlb, w, x)
                  && (!whole.0.Outside? ==> (r.0, Now(r.1.past)) == (Reported(whole.0, n), whole.1))
                  && (whole.0.Outside? ==> !r.0.Bytes?))
  {
    hide LoadFrom, Misalign, Sound, AllUpToDate, LoadWord, LoadPair;
    if Misalign(v, n) == 0 {
      LoadWordSound(c, s, w, x, v, n);
      WholeFault(c, Now(s.past), v, n);
    } else {
      PairIsWhole(c, Now(s.past), v, n);
      if n == 2 {
        Aligned1(v);
        Aligned1(Plus(v, 1));
        LoadPairSound(c, s, w, x, v, 1, 0, 1);
      } else {
        AlignedTail(v, n);
        LoadPairSound(c, s, w, x, v, n, Misalign(v, n), Misalign(v, n));
      }
    }
  }

  lemma StoreBytesStep(c: Regime, s: Seen, v: nat, bs: seq<Byte>)
    requires bs != []
    ensures var one := StoreWord(c, s, v, [bs[0]]);
            StoreBytes(c, s, v, bs) == if one.0 then StoreBytes(c, one.1, Next(v), bs[1..]) else one
  {
  }

  lemma StoreBytesNone(c: Regime, s: Seen, v: nat, bs: seq<Byte>)
    requires bs == []
    ensures StoreBytes(c, s, v, bs) == (true, s)
  {
  }

  /** The tag of a fetch is its page, so a match is a hit. */
  lemma FetchTag(c: Regime, past: Past, t: Tlb, v: nat)
    requires v < SPACE
    ensures t[IndexOf(v)].vaddr == PageOf(v) <==> HitIn(t, v).Some?
  {
    PageIndex(v);
  }

  /** Where a tag matches, a load is the bytes at the entry's place. */
  lemma HitLoad(c: Regime, s: Seen, w: Tlb, x: Tlb, v: nat, n: nat)
    requires Sound(c, s.past, s.tlb, w, x) && v < SPACE && IsWidth(n) && s.tlb[IndexOf(v)].vaddr == Tag(v, n)
    ensures var o := v + s.tlb[IndexOf(v)].addend;
            0 <= o && o + n <= |Now(s.past)| && Load(c, s, v, n) == (Bytes(Now(s.past)[o..o + n]), s)
  {
    hide FromPast, HitIn, Tag, Misalign, IndexOf, SlowLoad, LoadPair;
    TagFrame(c, s.past, Now(s.past), s.tlb, Read, v, n);
  }

  /** And a store puts its bytes there. */
  lemma HitStore(c: Regime, s: Seen, r: Tlb, x: Tlb, v: nat, bs: seq<Byte>)
    requires Sound(c, s.past, r, s.tlb, x) && v < SPACE && IsWidth(|bs|) && s.tlb[IndexOf(v)].vaddr == Tag(v, |bs|)
    ensures var o := v + s.tlb[IndexOf(v)].addend;
            && 0 <= o && o + |bs| <= |Now(s.past)|
            && Store(c, s, v, bs) == (true, s.(past := Then(s.past, Overwritten(Now(s.past), o, bs))))
  {
    hide FromPast, HitIn, Tag, Misalign, IndexOf, SlowStore, StoreBytes, Overwritten;
    TagFrame(c, s.past, Now(s.past), s.tlb, Write, v, |bs|);
  }

  /** Where it does not, an aligned address misses. */
  lemma MissedTag(c: Regime, past: Past, r: Tlb, w: Tlb, x: Tlb, v: nat, n: nat)
    requires Sound(c, past, r, w, x) && v < SPACE && IsWidth(n)
    ensures r[IndexOf(v)].vaddr != Tag(v, n) && Misalign(v, n) == 0 ==> HitIn(r, v).None?
    ensures w[IndexOf(v)].vaddr != Tag(v, n) && Misalign(v, n) == 0 ==> HitIn(w, v).None?
  {
    hide FromPast, HitIn, Tag, Misalign, IndexOf;
    TagHit(c, past, r, Read, v, n);
    TagHit(c, past, w, Write, v, n);
  }
}
