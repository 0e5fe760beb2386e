/** The CPU's memory accesses: fast paths, slow paths, and the flushes. */
module SoftMmu {
  import opened Basics
  import opened PageWalk
  import opened Bytewise
  import opened TlbCache
  import ArchWalk

  /** The registers and caches of the CPU that take part in memory accesses, and guest RAM. */
  class Cpu {
    const ram: array<Byte>
    var satp: nat
    var priv: nat
    // mstatus.MPRV, MPP, SUM and MXR
    var mprv: bool
    var mpp: nat
    var sum: bool
    var mxr: bool
    var tlbRead: Tlb
    var tlbWrite: Tlb
    var tlbCode: Tlb
    /** RAM as it stood at the last flush and after every change to it since. */
    ghost var past: Past

    /** What a translation depends on: MPP only matters while MPRV is set. */
    function Context(): Regime
      reads this
    {
      Regime(satp, priv, mprv, if mprv then mpp else PRV_U, sum, mxr)
    }

    predicate HasPages()
      reads this
    {
      ram.Length % PAGE == 0 && ram.Length <= 0x4000_0000
    }

    function Memory(): Ram
      requires HasPages()
      reads this, ram
    {
      ram[..]
    }

    /**
     The history ends with RAM as it is, and every live entry equals a walk under the current satp, privilege, SUM and
     MXR of RAM as it stood at some moment of the history.
     */
    ghost predicate Valid()
      reads this, ram
    {
      HasPages() && Memory() == Now(past) && Sound(Context(), past, tlbRead, tlbWrite, tlbCode)
    }

    /** Every live entry equals a walk of memory as it is now: no page-table word was stored to since. */
    ghost predicate Coherent()
      requires HasPages()
      reads this, ram
    {
      AllUpToDate(Context(), Memory(), tlbRead, tlbWrite, tlbCode)
    }

    /** The cache for accesses of one kind. */
    function TlbFor(acc: Access): Tlb
      reads `tlbRead, `tlbWrite, `tlbCode
    {
      match acc
      case Read => tlbRead
      case Write => tlbWrite
      case Code => tlbCode
    }

    /**
     A hit is what the walk answered at some moment of the history since the last flush. While no page-table word was
     stored to, it is what the walk answers now, and that walk would write nothing.
     */
    lemma HitMeaning(v: nat, acc: Access)
      requires Valid() && v < SPACE && HitIn(TlbFor(acc), v).Some?
      ensures exists k :: 0 <= k < |past| && Outcome(Context(), past[k], v, acc) == HitIn(TlbFor(acc), v)
      ensures Coherent() ==>
                && Outcome(Context(), Memory(), v, acc) == HitIn(TlbFor(acc), v)
                && AfterWalk(Context(), Memory(), v, acc) == Memory()
    {
      hide Outcome, AfterWalk, Settled, PageOf, InRam;
      var c, t, i := Context(), TlbFor(acc), IndexOf(v);
      assert FromPast(c, past, t, acc);
      var m :| m in past && Agrees(c, m, t[i], i, acc);
      HitIsWalk(c, m, t[i], i, acc, v);
      var k :| 0 <= k < |past| && past[k] == m;
      if Coherent() {
        assert UpToDate(c, Memory(), t, acc);
        HitIsWalk(c, Memory(), t[i], i, acc, v);
      }
    }

    /** tlb_flush_all: the history begins anew. */
    method TlbFlushAll()
      requires HasPages()
      modifies `tlbRead, `tlbWrite, `tlbCode, `past
      ensures Valid() && Coherent() && past == [Memory()]
      ensures forall i :: 0 <= i < TLB_SIZE ==> !Live(tlbRead[i]) && !Live(tlbWrite[i]) && !Live(tlbCode[i])
    {
      var i := 0;
      while i < TLB_SIZE
        invariant 0 <= i <= TLB_SIZE
        invariant forall k :: 0 <= k < i ==> !Live(tlbRead[k]) && !Live(tlbWrite[k]) && !Live(tlbCode[k])
      {
        tlbRead := tlbRead[i := tlbRead[i].(vaddr := NO_PAGE)];
        tlbWrite := tlbWrite[i := tlbWrite[i].(vaddr := NO_PAGE)];
        tlbCode := tlbCode[i := tlbCode[i].(vaddr := NO_PAGE)];
        i := i + 1;
      }
      past := [Memory()];
    }

    /** The TLB-relevant part of set_mstatus: it flushes exactly when MPRV, SUM, MXR or an active MPP changes. */
    method SetMstatus(newMprv: bool, newMpp: nat, newSum: bool, newMxr: bool)
      requires Valid()
      modifies `mprv, `mpp, `sum, `mxr, `tlbRead, `tlbWrite, `tlbCode, `past
      ensures Valid() && mprv == newMprv && mpp == newMpp && sum == newSum && mxr == newMxr
      ensures old(Coherent()) ==> Coherent()
      ensures past == if Context() == old(Context()) then old(past) else [Memory()]
    {
      hide UpToDate, FromPast;
      var flush := mprv != newMprv || sum != newSum || mxr != newMxr || (mprv && mpp != newMpp);
      mprv, mpp, sum, mxr := newMprv, newMpp, newSum, newMxr;
      if flush {
        TlbFlushAll();
      }
    }

    /** set_priv */
    method SetPriv(newPriv: nat)
      requires Valid()
      modifies `priv, `tlbRead, `tlbWrite, `tlbCode, `past
      ensures Valid() && priv == newPriv && (old(Coherent()) ==> Coherent())
      ensures past == if newPriv == old(priv) then old(past) else [Memory()]
    {
      hide UpToDate, FromPast;
      if priv != newPriv {
        TlbFlushAll();
        priv := newPriv;
        Emptied();
      }
    }

    /** An empty TLB is valid and up to date under any registers. */
    lemma Emptied()
      requires HasPages() && past == [Memory()]
      requires forall i :: 0 <= i < TLB_SIZE ==> !Live(tlbRead[i]) && !Live(tlbWrite[i]) && !Live(tlbCode[i])
      ensures Valid() && Coherent()
    {
    }

    /** The write of satp: mode bit and page number kept, ASID dropped, everything flushed. */
    method WriteSatp(val: nat)
      requires Valid() && val < SPACE
      modifies `satp, `tlbRead, `tlbWrite, `tlbCode, `past
      ensures Valid() && Coherent() && satp == val % 0x40_0000 + val / 0x8000_0000 * 0x8000_0000
      ensures past == [Memory()]
    {
      hide UpToDate, FromPast;
      satp := val % 0x40_0000 + val / 0x8000_0000 * 0x8000_0000;
      TlbFlushAll();
    }

    function PhysReadU32(a: nat): nat
      requires HasPages()
      reads this, ram
    {
      Word32(Memory(), a)
    }

    /** phys_write_u32 */
    method PhysWriteU32(a: nat, w: nat)
      requires HasPages()
      modifies ram
      ensures Memory() == WithWord(old(Memory()), a, w)
    {
      hide ByteOf;
      if RAM_BASE <= a && a - RAM_BASE + 4 <= ram.Length {
        var o := a - RAM_BASE;
        ram[o] := ByteOf(w, 0);
        ram[o + 1] := ByteOf(w, 1);
        ram[o + 2] := ByteOf(w, 2);
        ram[o + 3] := ByteOf(w, 3);
      }
    }

    /** get_phys_addr: the walk's answer, and RAM, in its history, as the walk leaves it */
    method GetPhysAddr(vaddr: nat, acc: Access) returns (paddr: Option<nat>)
      requires Valid()
      modifies ram, `past
      ensures Valid() && (old(Coherent()) ==> Coherent())
      ensures paddr == Outcome(Context(), old(Memory()), vaddr, acc)
      ensures ArchWalk.OnlyOddly(Context(), old(Memory()), vaddr, acc)
              || paddr == ArchWalk.ArchOutcome(Context(), old(Memory()), vaddr, acc)
      ensures Memory() == AfterWalk(Context(), old(Memory()), vaddr, acc) && past == Then(old(past), Memory())
    {
      hide UpToDate, FromPast, WithWord, Word32, Permits, Marked, WalkFrom, Sound, AllUpToDate, Xwr, IsValid,
           TargetOf, PteAddr, ArchWalk.OnlyOddly, ArchWalk.ArchOutcome;
      ghost var c, m, h := Context(), Memory(), past;
      ArchWalk.WalkIsArchitectural(c, m, vaddr, acc);
      WalkSound(c, h, tlbRead, tlbWrite, tlbCode, vaddr, acc);
      if EffectivePriv(Context(), acc) == PRV_M || satp / 0x8000_0000 == 0 {
        return Some(vaddr);
      }
      var i, table := 0, RootTable(Context());
      while i < 2
        invariant 0 <= i <= 2 && Memory() == m && past == h
        invariant WalkFrom(c, m, vaddr, acc, table, i) == Walk(c, m, vaddr, acc)
      {
        WalkStep(c, m, vaddr, acc, table, i);
        var pteAddr := PteAddr(vaddr, table, i);
        var pte := PhysReadU32(pteAddr);
        if !IsValid(pte) {
          return None;
        }
        if Xwr(pte) != 0 {
          if !Permits(Context(), acc, pte) {
            return None;
          }
          paddr := Some(vaddr % Span(i) + (TargetOf(pte) - TargetOf(pte) % Span(i)));
          if Marked(pte, acc) != pte {
            PhysWriteU32(pteAddr, Marked(pte, acc));
            past := Then(past, Memory());
          } else {
            WordFits(m, pteAddr);
          }
          return paddr;
        }
        table := TargetOf(pte);
        i := i + 1;
      }
      WalkStep(c, m, vaddr, acc, table, i);
      return None;
    }

    /** target_read_insn_slow: where the instruction bytes are in RAM, or why they cannot be fetched */
    method ReadInsnSlow(addr: nat) returns (r: Fetched)
      requires Valid() && addr < SPACE
      modifies ram, `past, `tlbCode
      ensures (r, Seen(tlbCode, past)) == SlowFetch(Context(), old(Seen(tlbCode, past)), addr)
      ensures HasPages() && Memory() == Now(past)
    {
      hide ArchWalk.OnlyOddly, ArchWalk.ArchOutcome, UpToDate, FromPast, AfterWalk, Outcome, Sound;
      var paddr := GetPhysAddr(addr, Code);
      if paddr.None? {
        FaultWritesNothing(Context(), old(Memory()), addr, Code);
        return FetchFault(true);
      }
      if !(RAM_BASE <= paddr.value && paddr.value - RAM_BASE + 1 <= ram.Length) {
        return FetchFault(false);
      }
      tlbCode := tlbCode[IndexOf(addr) := TlbEntry(PageOf(addr), paddr.value - RAM_BASE - addr)];
      return At(paddr.value - RAM_BASE);
    }

    /**
     The code TLB, or else the slow path: where the bytes at addr are in RAM, as a walk of `origin` says, a memory of the
     history.
     */
    method FindCode(addr: nat) returns (r: Fetched, ghost origin: Ram)
      requires Valid() && addr < SPACE
      modifies ram, `past, `tlbCode
      ensures Valid() && (old(Coherent()) ==> Coherent())
      ensures (r, Seen(tlbCode, past)) == FetchWord(Context(), old(Seen(tlbCode, past)), addr)
      ensures r.At? ==> r.offset - addr % PAGE >= 0 && (r.offset - addr % PAGE) % PAGE == 0
                        && r.offset - addr % PAGE + PAGE <= ram.Length
      ensures r.At? ==> origin in old(past) && FetchOf(Context(), origin, addr) == r
      ensures old(Coherent()) ==> r == FetchOf(Context(), old(Memory()), addr) && origin == old(Memory())
                                  && Memory() == AfterWalk(Context(), old(Memory()), addr, Code)
    {
      hide UpToDate, FromPast, AfterWalk, Outcome, PageOf, Agrees, SlowFetch, AllUpToDate;
      FetchWordSound(Context(), Seen(tlbCode, past), tlbRead, tlbWrite, addr);
      FetchTag(Context(), past, tlbCode, addr);
      origin := Memory();
      if FetchWord(Context(), Seen(tlbCode, past), addr).0.At? {
        origin := FetchOrigin(Context(), Seen(tlbCode, past), tlbRead, tlbWrite, addr);
      }
      var i := IndexOf(addr);
      if tlbCode[i].vaddr == PageOf(addr) {
        CodeHit(Context(), past, Memory(), tlbCode, addr);
        return At(addr + tlbCode[i].addend), origin;
      }
      r := ReadInsnSlow(addr);
    }

    /**
     target_read_u8 .. target_read_u64: the little-endian bytes. While no page-table word has been stored to since the
     last flush, a load is the byte-by-byte load through translation, whatever its width and alignment, hit or miss,
     with the address of the word it is in for a fault.
     */
    method TargetRead(addr: nat, size: nat) returns (r: Loaded)
      requires Valid() && addr < SPACE && IsWidth(size)
      modifies ram, `past, `tlbRead
      ensures Valid() && (old(Coherent()) ==> Coherent()) && (r.Bytes? ==> |r.bs| == size)
      ensures (r, Seen(tlbRead, past)) == Load(Context(), old(Seen(tlbRead, past)), addr, size)
      ensures var whole := LoadFrom(Context(), old(Memory()), addr, size);
              old(Coherent()) ==>
                && (!whole.0.Outside? ==> (r, Memory()) == (Reported(whole.0, size), whole.1))
                && (whole.0.Outside? ==> !r.Bytes?)
      decreases if Misalign(addr, size) == 0 then 0 else 1, 4
    {
      hide UpToDate, FromPast, AfterWalk, Outcome, LoadFrom, Misalign, PageOf, Agrees, AllUpToDate, Load, Sound,
           HitIn, Tag;
      LoadIsBytewise(Context(), Seen(tlbRead, past), tlbWrite, tlbCode, addr, size);
      MissedTag(Context(), past, tlbRead, tlbWrite, tlbCode, addr, size);
      var i := IndexOf(addr);
      if tlbRead[i].vaddr == Tag(addr, size) {
        HitLoad(Context(), Seen(tlbRead, past), tlbWrite, tlbCode, addr, size);
        var o := addr + tlbRead[i].addend;
        return Bytes(ram[o..o + size]);
      }
      r := ReadSlow(addr, size);
    }

    /** target_read_slow */
    method ReadSlow(addr: nat, size: nat) returns (r: Loaded)
      requires Valid() && addr < SPACE && IsWidth(size) && (Misalign(addr, size) == 0 ==> HitIn(tlbRead, addr).None?)
      modifies ram, `past, `tlbRead
      ensures (r, Seen(tlbRead, past)) == Load(Context(), old(Seen(tlbRead, past)), addr, size)
      ensures HasPages() && Memory() == Now(past)
      decreases if Misalign(addr, size) == 0 then 0 else 1, 3
    {
      hide UpToDate, FromPast, AfterWalk, Outcome, LoadFrom, Misalign, PageOf, Agrees, Sound, SlowLoad, HitIn;
      if Misalign(addr, size) == 0 {
        r := ReadAligned(addr, size);
      } else if size == 2 {
        r := ReadTwoBytes(addr);
      } else {
        r := ReadTwoWords(addr, size);
      }
    }

    /** target_read_slow on a misaligned half word */
    method ReadTwoBytes(addr: nat) returns (r: Loaded)
      requires Valid() && addr < SPACE
      modifies ram, `past, `tlbRead
      ensures (r, Seen(tlbRead, past)) == LoadPair(Context(), old(Seen(tlbRead, past)), addr, 1, 0, 1)
      ensures HasPages() && Memory() == Now(past)
      decreases 1, 2
    {
      hide UpToDate, FromPast, LoadFrom, LoadWord, Sound, AllUpToDate;
      Aligned1(addr);
      Aligned1(Plus(addr, 1));
      var v0 := TargetRead(addr, 1);
      if v0.PageFault? {
        return v0;
      }
      var v1 := TargetRead(Plus(addr, 1), 1);
      r := Spliced(v0, v1, 0, 1);
    }

    /** target_read_slow on a misaligned word or double word */
    method ReadTwoWords(addr: nat, size: nat) returns (r: Loaded)
      requires Valid() && addr < SPACE && (size == 4 || size == 8) && Misalign(addr, size) != 0
      modifies ram, `past, `tlbRead
      ensures var al := Misalign(addr, size);
              (r, Seen(tlbRead, past)) == LoadPair(Context(), old(Seen(tlbRead, past)), addr, size, al, al)
      ensures HasPages() && Memory() == Now(past)
      decreases 1, 2
    {
      hide UpToDate, FromPast, LoadFrom, LoadWord, Sound, AllUpToDate, Misalign, PageOf;
      var al := Misalign(addr, size);
      AlignedTail(addr, size);
      var v0 := TargetRead(addr - al, size);
      if v0.PageFault? {
        return v0;
      }
      var v1 := TargetRead(Plus(addr - al, size), size);
      r := Spliced(v0, v1, al, al);
    }

    /** target_read_slow on an aligned address */
    method ReadAligned(addr: nat, size: nat) returns (r: Loaded)
      requires Valid() && addr < SPACE && IsWidth(size) && Misalign(addr, size) == 0
      modifies ram, `past, `tlbRead
      ensures (r, Seen(tlbRead, past)) == SlowLoad(Context(), old(Seen(tlbRead, past)), addr, size)
      ensures (r, Memory()) == LoadFrom(Context(), old(Memory()), addr, size)
      ensures HasPages() && Memory() == Now(past)
    {
      hide ArchWalk.OnlyOddly, ArchWalk.ArchOutcome, UpToDate, FromPast, AfterWalk, Outcome, LoadFrom, Misalign, Agrees,
           PageOf, Sound;
      ghost var c, m := Context(), Memory();
      SlowLoadSound(c, Seen(tlbRead, past), tlbWrite, tlbCode, addr, size);
      AlignedInPage(addr, size);
      var paddr := GetPhysAddr(addr, Read);
      if paddr.None? {
        FaultWritesNothing(c, m, addr, Read);
        return PageFault(addr);
      }
      FrameOffset(c, m, addr, Read);
      PageInRam(m, paddr.value, size);
      if !(RAM_BASE <= paddr.value && paddr.value - RAM_BASE + 1 <= ram.Length) {
        return Outside;
      }
      tlbRead := tlbRead[IndexOf(addr) := TlbEntry(PageOf(addr), paddr.value - RAM_BASE - addr)];
      var o := paddr.value - RAM_BASE;
      return Bytes(ram[o..o + size]);
    }

    /** The bytes of a store, put in place in RAM */
    method PutBytes(o: nat, bs: seq<Byte>)
      requires HasPages() && Memory() == Now(past) && o + |bs| <= ram.Length
      modifies ram, `past
      ensures Memory() == Overwritten(old(Memory()), o, bs) && past == Then(old(past), Memory())
    {
      hide Overwritten;
      ghost var m := Memory();
      var i := 0;
      while i < |bs|
        invariant 0 <= i <= |bs| && past == old(past)
        invariant ram[..o + i] == m[..o] + bs[..i]
        invariant ram[o + i..] == m[o + i..]
      {
        ram[o + i] := bs[i];
        i := i + 1;
      }
      assert ram[..] == ram[..o + |bs|] + ram[o + |bs|..];
      OverwrittenIs(m, o, bs);
      past := Then(past, Memory());
    }

    /**
     A device writes RAM behind the caches: the history gains a moment, and caches that agree with memory still do if no
     page-table word is hit.
     */
    method DeviceWrite(paddr: nat, bs: seq<Byte>, ghost tables: iset<nat>) returns (ok: bool)
      requires Valid()
      modifies ram, `past
      ensures Valid() && ok == InRam(old(Memory()), paddr, |bs|)
      ensures Memory() == if ok then Overwritten(old(Memory()), paddr - RAM_BASE, bs) else old(Memory())
      ensures past == Then(old(past), Memory())
      ensures old(Coherent() && TablesIn(Context(), Memory(), tables)) && OffTables(paddr, |bs|, tables) ==> Coherent()
    {
      hide Sound, AllUpToDate, TablesIn, OffTables, Overwritten;
      ok := RAM_BASE <= paddr && paddr - RAM_BASE + |bs| <= ram.Length;
      if ok {
        WriteSound(Context(), past, tlbRead, tlbWrite, tlbCode, paddr - RAM_BASE, bs, tables);
        PutBytes(paddr - RAM_BASE, bs);
      }
    }

    /**
     target_write_u8 .. target_write_u64. A store that hits no page-table word, on a TLB no such word
     was stored to under, is the byte-by-byte store through translation, and leaves the TLB coherent.
     */
    method TargetWrite(addr: nat, bs: seq<Byte>, ghost tables: iset<nat>) returns (ok: bool)
      requires Valid() && addr < SPACE && IsWidth(|bs|)
      modifies ram, `past, `tlbWrite
      ensures Valid()
      ensures (ok, Seen(tlbWrite, past)) == Store(Context(), old(Seen(tlbWrite, past)), addr, bs)
      ensures old(Coherent() && ClearOfTables(Context(), Memory(), addr, |bs|, tables)) ==>
                && Coherent() && TablesIn(Context(), Memory(), tables)
                && (ok, Memory()) == StoreFrom(Context(), old(Memory()), addr, bs)
      decreases if Misalign(addr, |bs|) == 0 then 0 else 1, 2
    {
      hide UpToDate, FromPast, AfterWalk, Outcome, StoreFrom, Misalign, PageOf, Agrees, TablesIn, Avoids, Overwritten,
           AllUpToDate, Store, Sound, HitIn, Tag;
      StoreIsBytewise(Context(), Seen(tlbWrite, past), tlbRead, tlbCode, addr, bs, tables);
      MissedTag(Context(), past, tlbRead, tlbWrite, tlbCode, addr, |bs|);
      var i := IndexOf(addr);
      if tlbWrite[i].vaddr == Tag(addr, |bs|) {
        HitStore(Context(), Seen(tlbWrite, past), tlbRead, tlbCode, addr, bs);
        PutBytes(addr + tlbWrite[i].addend, bs);
        return true;
      }
      ok := WriteSlow(addr, bs, tables);
    }

    /** target_write_slow */
    method WriteSlow(addr: nat, bs: seq<Byte>, ghost tables: iset<nat>) returns (ok: bool)
      requires Valid() && addr < SPACE && IsWidth(|bs|) && (Misalign(addr, |bs|) == 0 ==> HitIn(tlbWrite, addr).None?)
      modifies ram, `past, `tlbWrite
      ensures (ok, Seen(tlbWrite, past)) == Store(Context(), old(Seen(tlbWrite, past)), addr, bs)
      ensures HasPages() && Memory() == Now(past)
      decreases if Misalign(addr, |bs|) == 0 then 0 else 1, 1
    {
      hide UpToDate, FromPast, StoreFrom, Misalign, PageOf, Sound, AllUpToDate, SlowStore, HitIn, StoreBytes, TablesIn,
           Avoids;
      if Misalign(addr, |bs|) == 0 {
        ok := WriteAligned(addr, bs);
        return ok;
      }
      ghost var c, s := Context(), Seen(tlbWrite, past);
      var i := 0;
      assert bs[0..] == bs && Plus(addr, 0) == addr;
      while i < |bs|
        invariant 0 <= i <= |bs| && Valid() && Context() == c
        invariant StoreBytes(c, s, addr, bs) == StoreBytes(c, Seen(tlbWrite, past), Plus(addr, i), bs[i..])
      {
        Aligned1(Plus(addr, i));
        StoreBytesStep(c, Seen(tlbWrite, past), Plus(addr, i), bs[i..]);
        ok := TargetWrite(Plus(addr, i), [bs[i]], tables);
        if !ok {
          return false;
        }
        assert bs[i..][1..] == bs[i + 1..] && Plus(addr, i + 1) == Next(Plus(addr, i)) && bs[i..][0] == bs[i];
        i := i + 1;
      }
      StoreBytesNone(c, Seen(tlbWrite, past), Plus(addr, i), bs[i..]);
      return true;
    }

    /** target_write_slow on an aligned address */
    method WriteAligned(addr: nat, bs: seq<Byte>) returns (ok: bool)
      requires Valid() && addr < SPACE && IsWidth(|bs|) && Misalign(addr, |bs|) == 0
      modifies ram, `past, `tlbWrite
      ensures (ok, Seen(tlbWrite, past)) == SlowStore(Context(), old(Seen(tlbWrite, past)), addr, bs)
      ensures HasPages() && Memory() == Now(past)
    {
      hide ArchWalk.OnlyOddly, ArchWalk.ArchOutcome, UpToDate, FromPast, AfterWalk, Outcome, Misalign, PageOf, Sound,
           Overwritten;
      ghost var c, m := Context(), Memory();
      AlignedInPage(addr, |bs|);
      var paddr := GetPhysAddr(addr, Write);
      if paddr.None? {
        FaultWritesNothing(c, m, addr, Write);
        return false;
      }
      FrameOffset(c, m, addr, Write);
      PageInRam(m, paddr.value, |bs|);
      if RAM_BASE <= paddr.value && paddr.value - RAM_BASE + 1 <= ram.Length {
        tlbWrite := tlbWrite[IndexOf(addr) := TlbEntry(PageOf(addr), paddr.value - RAM_BASE - addr)];
        PutBytes(paddr.value - RAM_BASE, bs);
      }
      return true;
    }
  }

  /** A caller that stores and loads back gets what it stored: hit or miss, aligned or not, across pages. */
  method StoreThenLoad(cpu: Cpu, addr: nat, bs: seq<Byte>, ghost tables: iset<nat>) returns (ok: bool, r: Loaded)
    requires cpu.Valid() && cpu.Coherent() && addr < SPACE && IsWidth(|bs|)
    requires ClearOfTables(cpu.Context(), cpu.Memory(), addr, |bs|, tables)
    requires AllInRam(cpu.Context(), cpu.Memory(), addr, |bs|)
    modifies cpu.ram, cpu`past, cpu`tlbRead, cpu`tlbWrite
    ensures ok && r == Bytes(bs) && cpu.Valid() && cpu.Coherent()
    ensures cpu.Memory() == StoreFrom(cpu.Context(), old(cpu.Memory()), addr, bs).1
  {
    hide StoreFrom, LoadFrom, TablesIn, Avoids, AllInRam, Sound, AllUpToDate, Load, Store, Outcome;
    LoadAfterStore(cpu.Context(), cpu.Memory(), addr, bs, tables);
    ok := cpu.TargetWrite(addr, bs, tables);
    r := cpu.TargetRead(addr, |bs|);
  }
}
