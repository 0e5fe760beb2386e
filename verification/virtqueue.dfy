/** Split virtqueues in guest memory: descriptor chains, the available and the used ring. */
module Virtqueue {
  import opened Basics
  import opened PageWalk

  type Memory = seq<Byte>

  const NEXT := 1
  const WRITE := 2
  const INDIRECT := 4

  /** rv_guest_phys_ptr: the offset in RAM, if all len bytes are RAM */
  function PhysPtr(size: nat, paddr: nat, len: nat): (o: Option<nat>)
    ensures o.Some? <==> RAM_BASE <= paddr && paddr + len <= RAM_BASE + size
    ensures o.Some? ==> o.value == paddr - RAM_BASE && o.value + len <= size
  {
    if paddr < RAM_BASE || len > size then None
    else if paddr - RAM_BASE > size - len then None
    else Some(paddr - RAM_BASE)
  }

  function Le16(m: Memory, o: nat): nat
    requires o + 2 <= |m|
  {
    m[o] as int + 0x100 * m[o + 1] as int
  }

  function Le32(m: Memory, o: nat): nat
    requires o + 4 <= |m|
  {
    Le16(m, o) + 0x1_0000 * Le16(m, o + 2)
  }

  function Le64(m: Memory, o: nat): nat
    requires o + 8 <= |m|
  {
    Le32(m, o) + 0x1_0000_0000 * Le32(m, o + 4)
  }

  function Bytes16(v: nat): seq<Byte> {
    [v % 0x100, v / 0x100 % 0x100]
  }

  function Bytes32(v: nat): seq<Byte> {
    Bytes16(v % 0x1_0000) + Bytes16(v / 0x1_0000)
  }

  /** m with bs at offset o. */
  function Put(m: Memory, o: nat, bs: seq<Byte>): (r: Memory)
    requires o + |bs| <= |m|
    ensures |r| == |m|
  {
    m[..o] + bs + m[o + |bs|..]
  }

  datatype Desc = Desc(addr: nat, len: nat, flags: nat, next: nat)

  predicate Has(d: Desc, flag: nat) {
    if flag == NEXT then d.flags % 2 == 1 else if flag == WRITE then d.flags / 2 % 2 == 1 else d.flags / 4 % 2 == 1
  }

  /** desc_read */
  function DescAt(m: Memory, num: nat, table: nat, idx: nat): Option<Desc> {
    if idx >= num then None
    else
      match PhysPtr(|m|, table + idx * 16, 16)
      case None => None
      case Some(o) => Some(Desc(Le64(m, o), Le32(m, o + 8), Le16(m, o + 12), Le16(m, o + 14)))
  }

  /** The chain from idx on, if it ends within `most` descriptors and uses nothing that was not offered. */
  function ChainFrom(m: Memory, num: nat, table: nat, idx: nat, most: nat): (r: Option<seq<Desc>>)
    ensures r.Some? ==> 1 <= |r.value| <= most
    decreases most
  {
    if most == 0 then None
    else
      match DescAt(m, num, table, idx)
      case None => None
      case Some(d) =>
        if Has(d, INDIRECT) then None
        else if !Has(d, NEXT) then Some([d])
        else
          match ChainFrom(m, num, table, d.next, most - 1)
          case None => None
          case Some(rest) => Some([d] + rest)
  }

  /** What the driver was told: a chain's head and the bytes written to it. */
  datatype Used = Used(head: nat, written: nat)

  /** The queue registers and the device's place in the available ring, over guest RAM. */
  class Queue {
    const ram: array<Byte>
    var num: nat
    var ready: bool
    var descAddr: nat
    var availAddr: nat
    var usedAddr: nat
    var lastAvail: nat
    /** Chains taken from the available ring, and chains published in the used ring, since the queue was made ready. */
    ghost var taken: seq<nat>
    ghost var used: seq<Used>
    /** Other places of RAM, such as another queue's rings, that the driver keeps this queue's writes away from. */
    ghost const guarded: set<nat>

    ghost function Mem(): Memory
      reads ram
    {
      ram[..]
    }

    /** The driver's obligations: rings and table in RAM, and the used ring apart from what it writes itself. */
    ghost predicate Placed()
      reads `num, `descAddr, `availAddr, `usedAddr
    {
      && 0 < num <= 128
      && RAM_BASE <= descAddr && descAddr + 16 * num <= RAM_BASE + ram.Length
      && RAM_BASE <= availAddr && availAddr + 4 + 2 * num <= RAM_BASE + ram.Length
      && RAM_BASE <= usedAddr && usedAddr + 4 + 8 * num <= RAM_BASE + ram.Length
      && Apart(usedAddr, 4 + 8 * num, descAddr, 16 * num) && Apart(usedAddr, 4 + 8 * num, availAddr, 4 + 2 * num)
      && forall k :: k in guarded ==> !(usedAddr <= RAM_BASE + k < usedAddr + 4 + 8 * num)
    }

    /** The used ring in RAM shows what was published, and nothing taken is left unpublished but `owed`. */
    ghost predicate Kept(owed: nat)
      reads this, ram
    {
      && Placed() && lastAvail < 0x1_0000
      && lastAvail == |taken| % 0x1_0000 && InOrder(taken, used, owed)
      && Shows(Mem(), usedAddr - RAM_BASE, num, used)
    }

    /** A place in RAM that belongs to a ring or to the descriptor table. */
    predicate InOwn(k: nat)
      reads `num, `descAddr, `availAddr, `usedAddr
    {
      || descAddr <= RAM_BASE + k < descAddr + 16 * num
      || availAddr <= RAM_BASE + k < availAddr + 4 + 2 * num
      || usedAddr <= RAM_BASE + k < usedAddr + 4 + 8 * num
    }

    /** A place no buffer may lie over. */
    ghost predicate InRings(k: nat)
      reads `num, `descAddr, `availAddr, `usedAddr
    {
      InOwn(k) || k in guarded
    }

    /** The driver gives out no buffer that lies over a ring or the table. */
    ghost predicate BuffersApart(m: Memory)
      reads `num, `descAddr, `availAddr, `usedAddr
    {
      forall idx: nat :: DescAt(m, num, descAddr, idx).Some? ==> OffRings(DescAt(m, num, descAddr, idx).value)
    }

    ghost predicate OffRings(d: Desc)
      reads `num, `descAddr, `availAddr, `usedAddr
    {
      Has(d, WRITE) ==> forall k: nat :: d.addr <= RAM_BASE + k < d.addr + d.len ==> !InRings(k)
    }

    /** Rings and table are as they were. */
    ghost predicate SameRings(m: Memory, m': Memory)
      reads `num, `descAddr, `availAddr, `usedAddr
    {
      |m| == |m'| && forall k: nat :: k < |m| && InRings(k) ==> m'[k] == m[k]
    }

    /** Every descriptor of a chain is in the table. */
    lemma ChainOffRings(m: Memory, idx: nat, most: nat)
      requires BuffersApart(m) && ChainFrom(m, num, descAddr, idx, most).Some?
      ensures forall k :: 0 <= k < |ChainFrom(m, num, descAddr, idx, most).value| ==>
                OffRings(ChainFrom(m, num, descAddr, idx, most).value[k])
      decreases most
    {
      var d := DescAt(m, num, descAddr, idx).value;
      if Has(d, NEXT) {
        ChainOffRings(m, d.next, most - 1);
      }
    }

    lemma RingsKeepDescs(m: Memory, m': Memory)
      requires Placed() && |m| == ram.Length && SameRings(m, m')
      ensures BuffersApart(m) ==> BuffersApart(m')
      ensures Shows(m, usedAddr - RAM_BASE, num, used) ==> Shows(m', usedAddr - RAM_BASE, num, used)
    {
      forall k: nat | k < |m| && InOwn(k)
        ensures m'[k] == m[k]
      {
        assert InRings(k);
      }
      OwnKeepDescs(m, m');
    }

    lemma OwnKeepDescs(m: Memory, m': Memory)
      requires Placed() && |m| == |m'| == ram.Length && forall k: nat :: k < |m| && InOwn(k) ==> m'[k] == m[k]
      ensures BuffersApart(m) ==> BuffersApart(m')
      ensures Shows(m, usedAddr - RAM_BASE, num, used) ==> Shows(m', usedAddr - RAM_BASE, num, used)
    {
      hide Shows, InOwn, BuffersApart;
      OwnKeepTable(m, m');
      OwnKeepUsed(m, m');
    }

    lemma OwnKeepTable(m: Memory, m': Memory)
      requires Placed() && |m| == |m'| == ram.Length && forall k: nat :: k < |m| && InOwn(k) ==> m'[k] == m[k]
      ensures BuffersApart(m) ==> BuffersApart(m')
    {
      forall idx: nat | DescAt(m', num, descAddr, idx).Some?
        ensures DescAt(m', num, descAddr, idx) == DescAt(m, num, descAddr, idx)
      {
        SameDesc(m, m', idx);
      }
    }

    lemma OwnKeepUsed(m: Memory, m': Memory)
      requires Placed() && |m| == |m'| == ram.Length && forall k: nat :: k < |m| && InOwn(k) ==> m'[k] == m[k]
      ensures Shows(m, usedAddr - RAM_BASE, num, used) ==> Shows(m', usedAddr - RAM_BASE, num, used)
    {
      hide Shows;
      forall k: nat | usedAddr - RAM_BASE <= k < usedAddr - RAM_BASE + 4 + 8 * num
        ensures m'[k] == m[k]
      {
        assert InOwn(k);
      }
      ShowsSame(m, m', usedAddr - RAM_BASE, num, used);
    }

    /** The table and the available ring, which only the driver writes, and the guarded places are as they were. */
    ghost predicate SameInputs(m: Memory, m': Memory)
      reads `num, `descAddr, `availAddr, `usedAddr
    {
      |m| == |m'| && forall k: nat :: k < |m| && IsInput(k) ==> m'[k] == m[k]
    }

    ghost predicate IsInput(k: nat)
      reads `num, `descAddr, `availAddr, `usedAddr
    {
      || descAddr <= RAM_BASE + k < descAddr + 16 * num
      || availAddr <= RAM_BASE + k < availAddr + 4 + 2 * num
      || k in guarded
    }

    /** Writes to the driver's buffers leave the used ring as it was. */
    lemma StillKept(m: Memory, m': Memory)
      requires |m| == ram.Length && Placed() && SameRings(m, m')
      ensures Shows(m, usedAddr - RAM_BASE, num, used) ==> Shows(m', usedAddr - RAM_BASE, num, used)
    {
      RingsKeepDescs(m, m');
    }

    lemma InputsThrough(m: Memory, m1: Memory, m2: Memory)
      requires SameRings(m, m1) && SameInputs(m1, m2)
      ensures SameInputs(m, m2)
    {
      forall k: nat | k < |m| && IsInput(k)
        ensures m2[k] == m[k]
      {
        assert InRings(k);
      }
    }

    lemma InputsAreRings(m: Memory, m': Memory)
      requires SameRings(m, m')
      ensures SameInputs(m, m')
    {
      forall k: nat | k < |m| && IsInput(k)
        ensures m'[k] == m[k]
      {
        assert InRings(k);
      }
    }

    lemma RingsSelf(m: Memory)
      ensures SameRings(m, m)
    {
    }

    lemma RingsOn(m: Memory, m1: Memory, m2: Memory)
      requires SameRings(m, m1) && SameRings(m1, m2)
      ensures SameRings(m, m2)
    {
    }

    lemma SameInputsSelf(m: Memory)
      ensures SameInputs(m, m)
    {
    }

    lemma InputsOn(m: Memory, m1: Memory, m2: Memory)
      requires SameInputs(m, m1) && SameInputs(m1, m2)
      ensures SameInputs(m, m2)
    {
    }

    lemma SameHead(m: Memory, m': Memory, slot: nat)
      requires Placed() && |m| == ram.Length && SameInputs(m, m') && slot < num
      ensures Le16(m', availAddr - RAM_BASE + 4 + slot * 2) == Le16(m, availAddr - RAM_BASE + 4 + slot * 2)
    {
      var o := availAddr - RAM_BASE + 4 + slot * 2;
      assert IsInput(o) && IsInput(o + 1);
    }

    lemma SameHeadAt(m: Memory, m': Memory, slot: nat)
      requires Placed() && |m| == |m'| == ram.Length && SameInputs(m, m') && slot < num
      ensures HeadAt(m', availAddr - RAM_BASE, num, slot) == HeadAt(m, availAddr - RAM_BASE, num, slot)
    {
      SameHead(m, m', slot);
    }

    lemma AvailInRam()
      requires Placed()
      ensures num > 0 && RAM_BASE <= availAddr && availAddr - RAM_BASE + 4 + 2 * num <= ram.Length
    {
    }

    lemma SameIndex(m: Memory, m': Memory)
      requires Placed() && |m| == ram.Length && SameInputs(m, m')
      ensures Le16(m', availAddr - RAM_BASE + 2) == Le16(m, availAddr - RAM_BASE + 2)
    {
      var o := availAddr - RAM_BASE + 2;
      assert IsInput(o) && IsInput(o + 1);
    }

    /** last_avail_idx++ */
    method Take(head: nat)
      requires Kept(0)
      modifies `lastAvail, `taken
      ensures Kept(1) && taken == old(taken) + [head]
    {
      lastAvail := (lastAvail + 1) % 0x1_0000;
      taken := taken + [head];
      NextIndex(|taken| - 1);
    }

    lemma UsedRingOnly(m: Memory, m': Memory)
      requires |m| == ram.Length && Placed() && SameOutside(m, m', usedAddr - RAM_BASE, 4 + 8 * num)
      ensures SameInputs(m, m') && (BuffersApart(m) ==> BuffersApart(m'))
    {
      forall idx: nat | idx < num
        ensures DescAt(m', num, descAddr, idx) == DescAt(m, num, descAddr, idx)
      {
        DescInputs(m, m', idx);
      }
    }

    lemma DescInputs(m: Memory, m': Memory, idx: nat)
      requires Placed() && |m| == ram.Length && SameInputs(m, m') && idx < num
      ensures DescAt(m', num, descAddr, idx) == DescAt(m, num, descAddr, idx)
    {
      var o := descAddr + idx * 16 - RAM_BASE;
      forall k: nat | o <= k < o + 16
        ensures m'[k] == m[k]
      {
        assert IsInput(k);
      }
    }

    lemma SameDesc(m: Memory, m': Memory, idx: nat)
      requires Placed() && |m| == |m'| == ram.Length && idx < num
      requires forall k: nat :: k < |m| && InOwn(k) ==> m'[k] == m[k]
      ensures DescAt(m', num, descAddr, idx) == DescAt(m, num, descAddr, idx)
    {
      var o := descAddr + idx * 16 - RAM_BASE;
      forall k: nat | o <= k < o + 16
        ensures m'[k] == m[k]
      {
        assert InOwn(k);
      }
    }

    /** Data for a device-writable descriptor leaves the rings alone. */
    method WriteBuffer(addr: nat, bs: seq<Byte>, ghost d: Desc) returns (ok: bool)
      requires Placed() && OffRings(d) && Has(d, WRITE) && d.addr <= addr && addr + |bs| <= d.addr + d.len
      modifies ram
      ensures ok <==> PhysPtr(ram.Length, addr, |bs|).Some?
      ensures Mem() == if ok then Put(old(Mem()), addr - RAM_BASE, bs) else old(Mem())
      ensures SameRings(old(Mem()), Mem())
    {
      ok := Write(addr, bs);
    }

    /** gread16 */
    method Read16(addr: nat) returns (v: Option<nat>)
      ensures v == match PhysPtr(ram.Length, addr, 2) case None => None case Some(o) => Some(Le16(Mem(), o))
      ensures v.Some? ==> v.value < 0x1_0000
    {
      var o := PhysPtr(ram.Length, addr, 2);
      if o.None? {
        return None;
      }
      return Some(ram[o.value] as int + 0x100 * ram[o.value + 1] as int);
    }

    /** gwrite */
    method Write(addr: nat, bs: seq<Byte>) returns (ok: bool)
      modifies ram
      ensures ok <==> PhysPtr(ram.Length, addr, |bs|).Some?
      ensures Mem() == if ok then Put(old(Mem()), addr - RAM_BASE, bs) else old(Mem())
    {
      var o := PhysPtr(ram.Length, addr, |bs|);
      if o.None? {
        return false;
      }
      ghost var m := ram[..];
      var i := 0;
      while i < |bs|
        invariant 0 <= i <= |bs|
        invariant ram[..o.value + i] == m[..o.value] + bs[..i]
        invariant ram[o.value + i..] == m[o.value + i..]
      {
        ram[o.value + i] := bs[i];
        i := i + 1;
      }
      assert ram[..] == ram[..o.value + |bs|] + ram[o.value + |bs|..];
      return true;
    }

    /** desc_read */
    method DescRead(idx: nat) returns (d: Option<Desc>)
      ensures d == DescAt(Mem(), num, descAddr, idx)
    {
      if idx >= num {
        return None;
      }
      var o := PhysPtr(ram.Length, descAddr + idx * 16, 16);
      if o.None? {
        return None;
      }
      var raw := ram[o.value..o.value + 16];
      assert forall k :: 0 <= k < 16 ==> raw[k] == Mem()[o.value + k];
      return Some(Desc(Le64(raw, 0), Le32(raw, 8), Le16(raw, 12), Le16(raw, 14)));
    }

    /** chain_collect, and the first loop of handle_chain: ends whatever `next` links to, cycles included */
    method ChainCollect(head: nat, most: nat) returns (chain: Option<seq<Desc>>)
      ensures chain == ChainFrom(Mem(), num, descAddr, head, most)
    {
      var got: seq<Desc>, idx := [], head;
      PrefixedNone(ChainFrom(Mem(), num, descAddr, head, most));
      while true
        invariant |got| <= most
        invariant Prefixed(got, ChainFrom(Mem(), num, descAddr, idx, most - |got|)) ==
                  ChainFrom(Mem(), num, descAddr, head, most)
        decreases most - |got|
      {
        if |got| >= most {
          return None;
        }
        var d := DescRead(idx);
        if d.None? || Has(d.value, INDIRECT) {
          return None;
        }
        if !Has(d.value, NEXT) {
          return Some(got + [d.value]);
        }
        PrefixedStep(got, d.value, ChainFrom(Mem(), num, descAddr, d.value.next, most - |got| - 1));
        idx := d.value.next;
        got := got + [d.value];
      }
    }

    /** queue_complete; true when the driver wants an interrupt */
    method Complete(head: nat, written: nat) returns (notify: bool)
      requires Kept(1) && taken[|taken| - 1] == head < 0x1_0000 && written < 0x1_0000_0000
      modifies ram, `used
      ensures Kept(0) && used == old(used) + [Used(head, written)]
      ensures SameOutside(old(Mem()), Mem(), usedAddr - RAM_BASE, 4 + 8 * num)
      ensures UsedAt(Mem(), usedAddr - RAM_BASE, num, |old(used)|) == Used(head, written)
      ensures notify <==> Le16(Mem(), availAddr - RAM_BASE) % 2 == 0
    {
      hide Le16, Le32, Bytes16, Bytes32, Put, InOrder, SameOutside, Shows, UsedAt;
      ghost var m, o := Mem(), usedAddr - RAM_BASE;
      ShownIndex(m, o, num, used);
      var usedIdx := Read16(usedAddr + 2);
      if usedIdx.None? {
        return false;
      }
      var slot := usedIdx.value % num;
      var next := (usedIdx.value + 1) % 0x1_0000;
      BytesSize(head, written, next);
      var ok := Write(usedAddr + 4 + slot * 8, Bytes32(head) + Bytes32(written));
      if !ok {
        return false;
      }
      ok := Write(usedAddr + 2, Bytes16(next));
      if !ok {
        return false;
      }
      used := used + [Used(head, written)];
      PublishedShows(m, o, num, old(used), head, written);
      OneMore(taken, old(used), written);
      NextIndex(|old(used)|);
      UnchangedFlags(m, Mem(), o, 4 + 8 * num, availAddr - RAM_BASE);
      var flags := Read16(availAddr);
      return flags.None? || flags.value % 2 == 0;
    }
  }

  /** Every chain taken but the last `owed` was published, in the order taken. */
  ghost predicate InOrder(taken: seq<nat>, used: seq<Used>, owed: nat) {
    |used| + owed == |taken| && forall k :: 0 <= k < |used| ==> used[k].head == taken[k]
  }

  lemma OneMore(taken: seq<nat>, used: seq<Used>, written: nat)
    requires InOrder(taken, used, 1)
    ensures InOrder(taken, used + [Used(taken[|taken| - 1], written)], 0)
  {
  }

  lemma BytesSize(head: nat, written: nat, next: nat)
    ensures |Bytes32(head) + Bytes32(written)| == 8 && |Bytes16(next)| == 2
  {
  }

  lemma NextIndex(n: nat)
    ensures (n % 0x1_0000 + 1) % 0x1_0000 == (n + 1) % 0x1_0000
  {
  }

  lemma PutByte(m: Memory, o: nat, bs: seq<Byte>, k: nat)
    requires o + |bs| <= |m| && k < |m|
    ensures Put(m, o, bs)[k] == if o <= k < o + |bs| then bs[k - o] else m[k]
  {
  }

  lemma Read16Put(m: Memory, o: nat, v: nat)
    requires o + 2 <= |m| && v < 0x1_0000
    ensures Le16(Put(m, o, Bytes16(v)), o) == v
  {
    PutByte(m, o, Bytes16(v), o);
    PutByte(m, o, Bytes16(v), o + 1);
    DivIs(v, 0x100, v / 0x100, v % 0x100);
  }

  lemma Halves(v: nat)
    requires v < 0x1_0000_0000
    ensures v == v % 0x1_0000 + 0x1_0000 * (v / 0x1_0000) && v / 0x1_0000 < 0x1_0000
  {
  }

  lemma Read32Bytes(m: Memory, o: nat, v: nat)
    requires o + 4 <= |m| && v < 0x1_0000_0000 && m[o..o + 4] == Bytes32(v)
    ensures Le32(m, o) == v
  {
    Halves(v);
    var lo, hi := v % 0x1_0000, v / 0x1_0000;
    assert m[o..o + 4][0] == Bytes16(lo)[0] && m[o..o + 4][1] == Bytes16(lo)[1];
    assert m[o..o + 4][2] == Bytes16(hi)[0] && m[o..o + 4][3] == Bytes16(hi)[1];
    DivIs(lo, 0x100, lo / 0x100, lo % 0x100);
    DivIs(hi, 0x100, hi / 0x100, hi % 0x100);
  }

  /**
   The used ring in RAM: its index counts what was published, and it holds the last num of that, for a num as it
   must be.
   */
  predicate Shows(m: Memory, o: nat, num: nat, used: seq<Used>)
    requires num > 0 && o + 4 + 8 * num <= |m|
  {
    && Le16(m, o + 2) == |used| % 0x1_0000
    && (0x1_0000 % num == 0 ==> forall i :: 0 <= i < |used| <= i + num ==> UsedAt(m, o, num, i) == used[i])
  }

  lemma ShownIndex(m: Memory, o: nat, num: nat, used: seq<Used>)
    requires num > 0 && o + 4 + 8 * num <= |m| && Shows(m, o, num, used)
    ensures Le16(m, o + 2) == |used| % 0x1_0000
  {
  }

  lemma ShowsSame(m: Memory, m': Memory, o: nat, num: nat, used: seq<Used>)
    requires num > 0 && o + 4 + 8 * num <= |m| == |m'| && forall k :: o <= k < o + 4 + 8 * num ==> m'[k] == m[k]
    ensures Shows(m, o, num, used) ==> Shows(m', o, num, used)
  {
    forall i: nat
      ensures UsedAt(m', o, num, i) == UsedAt(m, o, num, i)
    {
      UsedSame(m, m', o, num, i);
    }
  }

  lemma UsedSame(m: Memory, m': Memory, o: nat, num: nat, i: nat)
    requires num > 0 && o + 4 + 8 * num <= |m| == |m'|
    requires var at := o + 4 + i % 0x1_0000 % num * 8; forall k :: at <= k < at + 8 ==> m'[k] == m[k]
    ensures UsedAt(m', o, num, i) == UsedAt(m, o, num, i)
  {
  }

  /** Entries less than num apart have slots of their own, around the wrap of the index too. */
  lemma SlotsDiffer(i: nat, n: nat, num: nat)
    requires num > 0 && 0x1_0000 % num == 0 && i < n < i + num
    ensures i % 0x1_0000 % num != n % 0x1_0000 % num
  {
    SlotIs(i, num);
    SlotIs(n, num);
    if i % num == n % num {
      SameResidue(i, n, num);
    }
  }

  lemma SameResidue(i: nat, n: nat, num: nat)
    requires num > 0 && i < n && i % num == n % num
    ensures n >= i + num
  {
    var d := n / num - i / num;
    assert n - i == num * d;
    AtLeastOnce(num, d);
  }

  lemma SlotIs(i: nat, num: nat)
    requires num > 0 && 0x1_0000 % num == 0
    ensures i % 0x1_0000 % num == i % num
  {
    var c, w := 0x1_0000 / num, i / 0x1_0000;
    var s := i % 0x1_0000;
    var k := s / num;
    assert i == num * (c * w + k) + s % num by {
      assert num * (c * w) == 0x1_0000 * w;
      assert s == num * k + s % num;
    }
    DivIs(i, num, c * w + k, s % num);
  }

  lemma PublishedShows(m: Memory, o: nat, num: nat, used: seq<Used>, head: nat, written: nat)
    requires 0 < num && o + 4 + 8 * num <= |m| && Shows(m, o, num, used) && head < 0x1_0000 && written < 0x1_0000_0000
    ensures |Bytes32(head) + Bytes32(written)| == 8 && |Bytes16((|used| + 1) % 0x1_0000)| == 2
    ensures var slot := |used| % 0x1_0000 % num;
            var m1 := Put(m, o + 4 + slot * 8, Bytes32(head) + Bytes32(written));
            var m2 := Put(m1, o + 2, Bytes16((|used| + 1) % 0x1_0000));
            && SameOutside(m, m2, o, 4 + 8 * num) && Shows(m2, o, num, used + [Used(head, written)])
            && UsedAt(m2, o, num, |used|) == Used(head, written)
  {
    hide Le16, Le32, Bytes16, Bytes32, Put, SameOutside;
    var slot, next, us := |used| % 0x1_0000 % num, (|used| + 1) % 0x1_0000, used + [Used(head, written)];
    Published(m, o, num, slot, head, written, next);
    var m1 := Put(m, o + 4 + slot * 8, Bytes32(head) + Bytes32(written));
    var m2 := Put(m1, o + 2, Bytes16(next));
    if 0x1_0000 % num == 0 {
      forall i: nat | i < |us| <= i + num
        ensures UsedAt(m2, o, num, i) == us[i]
      {
        if i < |used| {
          SlotsDiffer(i, |used|, num);
          OtherSlots(m, o, num, slot, i % 0x1_0000 % num, Bytes32(head) + Bytes32(written), Bytes16(next));
          UsedSame(m, m2, o, num, i);
        }
      }
    }
  }

  lemma OtherSlots(m: Memory, o: nat, num: nat, slot: nat, other: nat, elem: seq<Byte>, index: seq<Byte>)
    requires o + 4 + 8 * num <= |m| && slot < num && other < num && slot != other && |elem| == 8 && |index| == 2
    ensures var m2 := Put(Put(m, o + 4 + slot * 8, elem), o + 2, index);
            forall k :: o + 4 + other * 8 <= k < o + 4 + other * 8 + 8 ==> m2[k] == m[k]
  {
    hide Put;
    var m1 := Put(m, o + 4 + slot * 8, elem);
    forall k: nat | o + 4 + other * 8 <= k < o + 4 + other * 8 + 8
      ensures Put(m1, o + 2, index)[k] == m[k]
    {
      PutByte(m, o + 4 + slot * 8, elem, k);
      PutByte(m1, o + 2, index, k);
    }
  }

  /** Writing the element and then the index puts both in place and touches nothing outside the used ring. */
  lemma Published(m: Memory, o: nat, num: nat, slot: nat, head: nat, written: nat, next: nat)
    requires 0 < num && o + 4 + 8 * num <= |m| && slot < num
    requires head < 0x1_0000 && written < 0x1_0000_0000 && next < 0x1_0000
    ensures |Bytes32(head) + Bytes32(written)| == 8 && |Bytes16(next)| == 2
    ensures var m1 := Put(m, o + 4 + slot * 8, Bytes32(head) + Bytes32(written));
            var m2 := Put(m1, o + 2, Bytes16(next));
            && SameOutside(m, m2, o, 4 + 8 * num) && Le16(m2, o + 2) == next
            && Le32(m2, o + 4 + slot * 8) == head && Le32(m2, o + 4 + slot * 8 + 4) == written
  {
    hide Le16, Le32, Bytes16, Bytes32, Put;
    BytesSize(head, written, next);
    Bytes32Size(head);
    var elem := Bytes32(head) + Bytes32(written);
    var at := o + 4 + slot * 8;
    var m1 := Put(m, at, elem);
    var m2 := Put(m1, o + 2, Bytes16(next));
    Read16Put(m1, o + 2, next);
    PutSlice(m, at, elem);
    PutElsewhere(m1, o + 2, Bytes16(next), at, 8);
    assert m2[at..at + 8] == elem;
    assert m2[at..at + 4] == m2[at..at + 8][..4] == Bytes32(head);
    assert m2[at + 4..at + 8] == m2[at..at + 8][4..] == Bytes32(written);
    Read32Bytes(m2, at, head);
    Read32Bytes(m2, at + 4, written);
    PutOutside(m, at, elem, o, 4 + 8 * num);
    PutOutside(m1, o + 2, Bytes16(next), o, 4 + 8 * num);
  }

  lemma PutSlice(m: Memory, o: nat, bs: seq<Byte>)
    requires o + |bs| <= |m|
    ensures Put(m, o, bs)[o..o + |bs|] == bs
  {
  }

  lemma PutElsewhere(m: Memory, o: nat, bs: seq<Byte>, a: nat, n: nat)
    requires o + |bs| <= |m| && a + n <= |m| && Apart(o, |bs|, a, n)
    ensures Put(m, o, bs)[a..a + n] == m[a..a + n]
  {
    var got, was := Put(m, o, bs)[a..a + n], m[a..a + n];
    forall k: nat | k < n
      ensures got[k] == was[k]
    {
      PutByte(m, o, bs, a + k);
    }
  }

  lemma PutOutside(m: Memory, o: nat, bs: seq<Byte>, a: nat, n: nat)
    requires o + |bs| <= |m| && a <= o && o + |bs| <= a + n
    ensures SameOutside(m, Put(m, o, bs), a, n)
  {
  }

  lemma Bytes32Size(v: nat)
    ensures |Bytes32(v)| == 4
  {
  }

  lemma UnchangedFlags(m: Memory, m': Memory, o: nat, n: nat, at: nat)
    requires SameOutside(m, m', o, n) && at + 2 <= |m| && Apart(o, n, at, 2)
    ensures Le16(m', at) == Le16(m, at)
  {
  }

  predicate Apart(a: nat, n: nat, b: nat, k: nat) {
    a + n <= b || b + k <= a
  }

  predicate SameOutside(m: Memory, m': Memory, o: nat, n: nat) {
    |m| == |m'| && forall k :: 0 <= k < |m| && !(o <= k < o + n) ==> m'[k] == m[k]
  }

  /** Element i of the used ring at offset o. */
  function UsedAt(m: Memory, o: nat, num: nat, i: nat): Used
    requires num > 0 && o + 4 + 8 * num <= |m|
  {
    var at := o + 4 + i % 0x1_0000 % num * 8;
    Used(Le32(m, at), Le32(m, at + 4))
  }

  function Prefixed(got: seq<Desc>, rest: Option<seq<Desc>>): Option<seq<Desc>> {
    match rest
    case None => None
    case Some(chain) => Some(got + chain)
  }

  lemma PrefixedNone(rest: Option<seq<Desc>>)
    ensures Prefixed([], rest) == rest
  {
    if rest.Some? {
      assert [] + rest.value == rest.value;
    }
  }

  lemma PrefixedStep(got: seq<Desc>, d: Desc, rest: Option<seq<Desc>>)
    ensures Prefixed(got + [d], rest) == Prefixed(got, Prefixed([d], rest))
  {
    if rest.Some? {
      assert got + [d] + rest.value == got + ([d] + rest.value);
    }
  }

  /** How many chains wait in the available ring, of which `taken` were already taken. */
  function Waiting(m: Memory, o: nat, taken: nat): nat
    requires o + 4 <= |m|
  {
    (Le16(m, o + 2) - taken % 0x1_0000) % 0x1_0000
  }

  /** The n heads of the available ring from entry `from` on, around the ring. */
  function Heads(m: Memory, o: nat, num: nat, from: nat, n: nat): (r: seq<nat>)
    requires num > 0 && o + 4 + 2 * num <= |m|
    ensures |r| == n
  {
    if n == 0 then [] else Heads(m, o, num, from, n - 1) + [HeadAt(m, o, num, (from + n - 1) % 0x1_0000 % num)]
  }

  function HeadAt(m: Memory, o: nat, num: nat, slot: nat): nat
    requires slot < num && o + 4 + 2 * num <= |m|
  {
    Le16(m, o + 4 + slot * 2)
  }

  lemma SlotFits(slot: nat, num: nat)
    requires slot < num
    ensures slot * 2 + 2 <= 2 * num
  {
  }

  lemma NoHeads(m: Memory, o: nat, num: nat, from: nat)
    requires num > 0 && o + 4 + 2 * num <= |m|
    ensures Heads(m, o, num, from, 0) == []
  {
  }

  lemma NextHead(m: Memory, o: nat, num: nat, from: nat, n: nat)
    requires num > 0 && o + 4 + 2 * num <= |m|
    ensures Heads(m, o, num, from, n + 1) == Heads(m, o, num, from, n) + [HeadAt(m, o, num, (from + n) % 0x1_0000 % num)]
  {
  }

  lemma StillWaiting(m: Memory, o: nat, taken: nat, done: nat)
    requires o + 4 <= |m| && done <= Waiting(m, o, taken) && Le16(m, o + 2) != (taken + done) % 0x1_0000
    ensures done < Waiting(m, o, taken)
  {
  }

  lemma AllTaken(m: Memory, o: nat, taken: nat, done: nat)
    requires o + 4 <= |m| && done <= Waiting(m, o, taken) && Le16(m, o + 2) == (taken + done) % 0x1_0000
    ensures done == Waiting(m, o, taken)
  {
  }

  /** From the chains `taken` on, the chains t were taken: some of those that waited in memory m, in ring order. */
  ghost predicate Took(m: Memory, o: nat, num: nat, taken: seq<nat>, t: seq<nat>)
    requires num > 0 && o + 4 + 2 * num <= |m|
  {
    && |taken| <= |t| <= |taken| + Waiting(m, o, |taken|)
    && t == taken + Heads(m, o, num, |taken|, |t| - |taken|)
  }

  /** None or the next of the chains waiting in memory m. */
  ghost predicate TookOne(m: Memory, o: nat, num: nat, taken: seq<nat>, t: seq<nat>)
    requires num > 0 && o + 4 + 2 * num <= |m|
  {
    || t == taken
    || (Waiting(m, o, |taken|) > 0 && t == taken + [HeadAt(m, o, num, |taken| % 0x1_0000 % num)])
  }

  lemma TookNone(m: Memory, o: nat, num: nat, taken: seq<nat>)
    requires num > 0 && o + 4 + 2 * num <= |m|
    ensures Took(m, o, num, taken, taken)
  {
  }

  lemma OneTaken(m0: Memory, m: Memory, o: nat, num: nat, taken0: seq<nat>, taken: seq<nat>, taken': seq<nat>)
    requires num > 0 && o + 4 + 2 * num <= |m0| == |m| && Le16(m, o + 2) == Le16(m0, o + 2)
    requires var slot := |taken| % 0x1_0000 % num; HeadAt(m, o, num, slot) == HeadAt(m0, o, num, slot)
    requires Took(m0, o, num, taken0, taken) && TookOne(m, o, num, taken, taken')
    ensures Took(m0, o, num, taken0, taken')
  {
    hide HeadAt, Heads, Le16, Waiting;
    var done := |taken| - |taken0|;
    NextHead(m0, o, num, |taken0|, done);
    if taken' != taken {
      SomeWait(m, o, |taken|);
      StillWaiting(m0, o, |taken0|, done);
    }
  }

  lemma SomeWait(m: Memory, o: nat, taken: nat)
    requires o + 4 <= |m|
    ensures Waiting(m, o, taken) > 0 ==> Le16(m, o + 2) != taken % 0x1_0000
  {
  }

  /* ---- the driver's buffers ---- */

  /** Byte k of RAM lies in a device-writable buffer of the chain. */
  predicate InBuffers(chain: seq<Desc>, k: nat) {
    exists i :: 0 <= i < |chain| && Has(chain[i], WRITE) && Covers(chain[i], k)
  }

  predicate Covers(d: Desc, k: nat) {
    d.addr <= RAM_BASE + k < d.addr + d.len
  }

  /** No device-writable buffer lies over the used ring. */
  ghost predicate OffUsed(chain: seq<Desc>, usedAt: nat, num: nat) {
    forall k: nat :: InBuffers(chain, k) ==> !(usedAt <= k < usedAt + 4 + 8 * num)
  }

  /** How many bytes the device-writable buffers have. */
  function Capacity(chain: seq<Desc>): nat {
    if chain == [] then 0 else (if Has(chain[0], WRITE) then chain[0].len else 0) + Capacity(chain[1..])
  }

  /** No two device-writable buffers share a byte. */
  predicate Disjoint(chain: seq<Desc>) {
    forall i, j :: 0 <= i < j < |chain| && Has(chain[i], WRITE) && Has(chain[j], WRITE) ==>
      Apart(chain[i].addr, chain[i].len, chain[j].addr, chain[j].len)
  }

  lemma BuffersTail(chain: seq<Desc>, k: nat)
    requires chain != []
    ensures InBuffers(chain[1..], k) ==> InBuffers(chain, k)
  {
    forall i | 0 <= i < |chain[1..]| && Has(chain[1..][i], WRITE) && Covers(chain[1..][i], k)
      ensures InBuffers(chain, k)
    {
      assert chain[i + 1] == chain[1..][i];
    }
  }

  lemma TailSame(m: Memory, m': Memory, chain: seq<Desc>)
    requires chain != [] && |m| == |m'| && forall k: nat :: k < |m| && InBuffers(chain, k) ==> m'[k] == m[k]
    ensures forall k: nat :: k < |m| && InBuffers(chain[1..], k) ==> m'[k] == m[k]
  {
    hide InBuffers;
    forall k: nat | k < |m| && InBuffers(chain[1..], k)
      ensures m'[k] == m[k]
    {
      BuffersTail(chain, k);
    }
  }

  lemma FirstSame(m: Memory, m': Memory, chain: seq<Desc>, n: nat)
    requires chain != [] && |m| == |m'| && Has(chain[0], WRITE) && n <= chain[0].len
    requires forall k: nat :: k < |m| && InBuffers(chain, k) ==> m'[k] == m[k]
    ensures var o := PhysPtr(|m|, chain[0].addr, n);
            o.Some? ==> m'[o.value..o.value + n] == m[o.value..o.value + n]
  {
    var o := PhysPtr(|m|, chain[0].addr, n);
    if o.Some? {
      forall k: nat | o.value <= k < o.value + n
        ensures m'[k] == m[k]
      {
        assert Covers(chain[0], k);
        assert InBuffers(chain, k);
      }
    }
  }

  /** What the first buffer covers, no later one does. */
  lemma FirstApart(chain: seq<Desc>, k: nat)
    requires chain != [] && Has(chain[0], WRITE) && Covers(chain[0], k) && Disjoint(chain)
    ensures !InBuffers(chain[1..], k)
  {
    forall i | 0 <= i < |chain[1..]| && Has(chain[1..][i], WRITE)
      ensures !Covers(chain[1..][i], k)
    {
      assert chain[i + 1] == chain[1..][i];
    }
  }

  lemma {:induction false} ChainLengths(m: Memory, num: nat, table: nat, idx: nat, most: nat)
    requires ChainFrom(m, num, table, idx, most).Some?
    ensures forall k :: 0 <= k < |ChainFrom(m, num, table, idx, most).value| ==>
              ChainFrom(m, num, table, idx, most).value[k].len < 0x1_0000_0000
    decreases most
  {
    var d := DescAt(m, num, table, idx).value;
    if Has(d, NEXT) {
      ChainLengths(m, num, table, d.next, most - 1);
    }
  }
}
