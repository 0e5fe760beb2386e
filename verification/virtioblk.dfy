/** The virtio block device: what one request does, and what a notification does. */
module VirtioBlk {
  import opened Basics
  import opened PageWalk
  import opened Virtqueue

  const MAX_CHAIN := 260
  const SECTOR := 512
  const TYPE_IN := 0
  const TYPE_OUT := 1
  const TYPE_FLUSH := 4
  const STATUS_OK: Byte := 0
  const STATUS_IOERR: Byte := 1
  const STATUS_UNSUPP: Byte := 2

  /** The request header: the first 16 bytes of the leading device-readable descriptors. */
  function Header(m: Memory, chain: seq<Desc>, need: nat): (r: Option<seq<Byte>>)
    ensures r.Some? ==> |r.value| == need
  {
    if need == 0 then Some([])
    else if chain == [] || Has(chain[0], WRITE) then None
    else
      var take := if chain[0].len < need then chain[0].len else need;
      match PhysPtr(|m|, chain[0].addr, take)
      case None => None
      case Some(o) =>
        match Header(m, chain[1..], need - take)
        case None => None
        case Some(rest) => Some(m[o..o + take] + rest)
  }

  /** The last device-writable descriptor, or -1. */
  function LastWritable(chain: seq<Desc>): (i: int)
    ensures -1 <= i < |chain|
    ensures i >= 0 ==> Has(chain[i], WRITE)
    ensures forall k :: i < k < |chain| ==> !Has(chain[k], WRITE)
  {
    if chain == [] then -1
    else if Has(chain[|chain| - 1], WRITE) then |chain| - 1
    else LastWritable(chain[..|chain| - 1])
  }

  /** Disk bytes from `at` on into the device-writable descriptors in turn, each filled whole or the request fails. */
  function Scatter(m: Memory, chain: seq<Desc>, disk: seq<Byte>, at: nat): (r: (bool, Memory, nat))
    ensures |r.1| == |m|
    decreases |chain|
  {
    if chain == [] then (true, m, 0)
    else if !Has(chain[0], WRITE) then Scatter(m, chain[1..], disk, at)
    else
      var len := chain[0].len;
      if at + len > |disk| then (false, m, 0)
      else
        match PhysPtr(|m|, chain[0].addr, len)
        case None => (false, m, 0)
        case Some(o) =>
          var rest := Scatter(Put(m, o, disk[at..at + len]), chain[1..], disk, at + len);
          (rest.0, rest.1, len + rest.2)
  }

  /** Where a sector starts, in the 64 bits the device computes it in. */
  function SectorStart(sector: nat): nat {
    sector * SECTOR % 0x1_0000_0000_0000_0000
  }

  /** What a request does to the buffers: whether it succeeds, memory, and the bytes transferred. */
  function Data(m: Memory, hdr: seq<Byte>, chain: seq<Desc>, disk: seq<Byte>): (r: (bool, Memory, nat))
    requires |hdr| == 16
    ensures |r.1| == |m|
  {
    if Le32(hdr, 0) == TYPE_IN then Scatter(m, chain, disk, SectorStart(Le64(hdr, 8)))
    else (Le32(hdr, 0) == TYPE_FLUSH, m, 0)
  }

  function StatusOf(kind: nat, ok: bool): Byte {
    if ok then STATUS_OK else if kind == TYPE_IN || kind == TYPE_OUT then STATUS_IOERR else STATUS_UNSUPP
  }

  /** A request carried out: memory before the chain is published, and the length reported. */
  function Serve(m: Memory, num: nat, table: nat, disk: seq<Byte>, head: nat): (r: (Memory, nat))
    ensures |r.0| == |m|
  {
    match ChainFrom(m, num, table, head, MAX_CHAIN)
    case None => (m, 0)
    case Some(chain) =>
      match Header(m, chain, 16)
      case None => (m, 0)
      case Some(hdr) =>
        var last := LastWritable(chain);
        if last < 0 || chain[last].len < 1 then (m, 0)
        else
          var data := Data(m, hdr, chain[..last], disk);
          match PhysPtr(|m|, chain[last].addr, 1)
          case None => (data.1, 0)
          case Some(o) =>
            (Put(data.1, o, [StatusOf(Le32(hdr, 0), data.0)]), ((if data.0 then data.2 else 0) + 1) % 0x1_0000_0000)
  }

  /** One request: from the memory before it to the memory after its publication as u. */
  ghost predicate Served(num: nat, table: nat, usedAt: nat, disk: seq<Byte>, m: Memory, m': Memory, u: Used) {
    var r := Serve(m, num, table, disk, u.head);
    u.written == r.1 && SameOutside(r.0, m', usedAt, 4 + 8 * num)
  }

  ghost predicate ServedAll(num: nat, table: nat, usedAt: nat, disk: seq<Byte>, ms: seq<Memory>, us: seq<Used>) {
    && |ms| == |us| + 1
    && forall i :: 0 <= i < |us| ==> Served(num, table, usedAt, disk, ms[i], ms[i + 1], us[i])
  }

  lemma NoneServed(num: nat, table: nat, usedAt: nat, disk: seq<Byte>, m: Memory, used: seq<Used>)
    ensures ServedAll(num, table, usedAt, disk, [m], used[|used|..])
  {
  }

  lemma OneServed(num: nat, table: nat, usedAt: nat, disk: seq<Byte>, ms: seq<Memory>, used: seq<Used>, from: nat,
                  m: Memory, u: Used)
    requires from <= |used| && ServedAll(num, table, usedAt, disk, ms, used[from..])
    requires Served(num, table, usedAt, disk, ms[|ms| - 1], m, u)
    ensures ServedAll(num, table, usedAt, disk, ms + [m], (used + [u])[from..])
  {
    hide Served;
    assert (used + [u])[from..] == used[from..] + [u];
  }

  class Blk {
    const q: Queue
    /** The whole sectors of the backing store. */
    const disk: seq<Byte>
    var intStatus: bv32
    var line: bool
    var requests: nat

    constructor (queue: Queue, store: seq<Byte>)
      ensures q == queue && disk == store[..|store| / SECTOR * SECTOR] && intStatus == 0 && !line && requests == 0
    {
      q := queue;
      disk := store[..|store| / SECTOR * SECTOR];
      intStatus, line, requests := 0, false, 0;
    }

    /** The interrupt line is up exactly while a notification is unacknowledged. */
    predicate LineHolds()
      reads this
    {
      line <==> intStatus != 0
    }

    /** The chain published, and the interrupt raised unless the driver asked not to. */
    method Finish(head: nat, written: nat)
      requires q.Kept(1) && q.taken[|q.taken| - 1] == head < 0x1_0000 && written < 0x1_0000_0000 && LineHolds()
      modifies q.ram, q`used, `intStatus, `line
      ensures q.Kept(0) && q.used == old(q.used) + [Used(head, written)] && LineHolds()
      ensures SameOutside(old(q.Mem()), q.Mem(), q.usedAddr - RAM_BASE, 4 + 8 * q.num)
    {
      var notify := q.Complete(head, written);
      if notify {
        intStatus := intStatus | 1;
        line := true;
      }
    }

    /** The header loop of handle_chain */
    method ReadHeader(chain: seq<Desc>) returns (hdr: Option<seq<Byte>>)
      ensures hdr == Header(q.Mem(), chain, 16)
    {
      hide Header, Joined;
      var got: seq<Byte>, i := [], 0;
      ghost var m := q.Mem();
      JoinedNone(Header(m, chain, 16));
      assert chain[0..] == chain;
      while i < |chain| && |got| < 16
        invariant 0 <= i <= |chain| && |got| <= 16 && q.Mem() == m
        invariant Joined(got, Header(m, chain[i..], 16 - |got|)) == Header(m, chain, 16)
      {
        HeaderStep(m, chain, i, 16 - |got|);
        if Has(chain[i], WRITE) {
          JoinedFails(got);
          return None;
        }
        var take := if chain[i].len > 16 - |got| then 16 - |got| else chain[i].len;
        var o := PhysPtr(q.ram.Length, chain[i].addr, take);
        if o.None? {
          JoinedFails(got);
          return None;
        }
        JoinedStep(got, m[o.value..o.value + take], Header(m, chain[i + 1..], 16 - |got| - take));
        got := got + q.ram[o.value..o.value + take];
        i := i + 1;
      }
      HeaderEnd(m, chain, i, got);
      if |got| < 16 {
        return None;
      }
      return Some(got);
    }

    /** The data loop of a read: disk straight into the driver's buffers */
    method CopyData(chain: seq<Desc>, start: nat) returns (ok: bool, written: nat)
      requires q.Placed() && start < 0x1_0000_0000_0000_0000 && |disk| < 0x1_0000_0000_0000_0000
      requires forall k :: 0 <= k < |chain| ==> q.OffRings(chain[k]) && chain[k].len < 0x1_0000_0000
      modifies q.ram
      ensures var r := Scatter(old(q.Mem()), chain, disk, start);
              ok == r.0 && q.Mem() == r.1 && (ok ==> written == r.2 % 0x1_0000_0000)
      ensures q.SameRings(old(q.Mem()), q.Mem())
    {
      hide Scatter, Put, Queue.InRings, Queue.Placed, Queue.OffRings, Queue.SameRings;
      q.RingsSelf(q.Mem());
      ghost var m: Memory, total: nat := q.Mem(), 0;
      var offset: nat, i := start, 0;
      written := 0;
      assert chain[0..] == chain;
      while i < |chain|
        invariant 0 <= i <= |chain| && offset < 0x1_0000_0000_0000_0000 && written == total % 0x1_0000_0000
        invariant q.SameRings(m, q.Mem())
        invariant Added(total, Scatter(q.Mem(), chain[i..], disk, offset)) == Scatter(m, chain, disk, start)
      {
        ScatterStep(q.Mem(), chain, i, disk, offset);
        if Has(chain[i], WRITE) {
          var len := chain[i].len;
          var end := (offset + len) % 0x1_0000_0000_0000_0000;
          if end > |disk| || end < offset {
            return false, 0;
          }
          ghost var before := q.Mem();
          ok := q.WriteBuffer(chain[i].addr, disk[offset..offset + len], chain[i]);
          q.RingsOn(m, before, q.Mem());
          if !ok {
            return false, 0;
          }
          offset := end;
          written := (written + len) % 0x1_0000_0000;
          total := total + len;
        }
        i := i + 1;
      }
      ScatterNone(q.Mem(), chain[i..], disk, offset);
      return true, written;
    }

    /** The switch of handle_chain: status, and the bytes a read put in place */
    method Transfer(hdr: seq<Byte>, chain: seq<Desc>) returns (status: Byte, written: nat)
      requires q.Placed() && |hdr| == 16 && |disk| < 0x1_0000_0000_0000_0000
      requires forall k :: 0 <= k < |chain| ==> q.OffRings(chain[k]) && chain[k].len < 0x1_0000_0000
      modifies q.ram
      ensures var r := Data(old(q.Mem()), hdr, chain, disk);
              && q.Mem() == r.1 && status == StatusOf(Le32(hdr, 0), r.0)
              && written == (if r.0 then r.2 % 0x1_0000_0000 else 0)
      ensures q.SameRings(old(q.Mem()), q.Mem())
    {
      hide Scatter, Queue.InRings, Queue.Placed, Queue.OffRings;
      var kind := Le32(hdr, 0);
      status, written := STATUS_OK, 0;
      if kind == TYPE_IN {
        var ok: bool;
        ok, written := CopyData(chain, SectorStart(Le64(hdr, 8)));
        if !ok {
          status := STATUS_IOERR;
        }
      } else if kind == TYPE_OUT {
        status := STATUS_IOERR;
      } else if kind != TYPE_FLUSH {
        status := STATUS_UNSUPP;
      }
      if status != STATUS_OK {
        written := 0;
      }
    }

    /** handle_chain up to queue_complete, which every way through it reaches exactly once */
    method CarryOut(head: nat) returns (written: nat)
      requires q.Placed() && q.BuffersApart(q.Mem()) && |disk| < 0x1_0000_0000_0000_0000
      modifies q.ram, `requests
      ensures (q.Mem(), written) == Serve(old(q.Mem()), q.num, q.descAddr, disk, head)
      ensures q.SameRings(old(q.Mem()), q.Mem()) && written < 0x1_0000_0000
    {
      hide Scatter, Put, Header, LastWritable, ChainFrom, Queue.InRings, Queue.Placed, Queue.OffRings,
           Queue.BuffersApart,
           Data;
      var chain := q.ChainCollect(head, MAX_CHAIN);
      if chain.None? {
        return 0;
      }
      q.ChainOffRings(q.Mem(), head, MAX_CHAIN);
      ChainLengths(q.Mem(), q.num, q.descAddr, head, MAX_CHAIN);
      var hdr := ReadHeader(chain.value);
      if hdr.None? {
        return 0;
      }
      var last := LastWritable(chain.value);
      if last < 0 || chain.value[last].len < 1 {
        return 0;
      }
      LastIsWritable(chain.value);
      var status: Byte;
      status, written := Transfer(hdr.value, chain.value[..last]);
      var put := q.WriteBuffer(chain.value[last].addr, [status], chain.value[last]);
      if !put {
        return 0;
      }
      requests := requests + 1;
      return (written + 1) % 0x1_0000_0000;
    }

    /** handle_chain: one request carried out and published */
    method HandleChain(head: nat)
      requires q.Kept(1) && q.taken[|q.taken| - 1] == head < 0x1_0000 && LineHolds() && q.BuffersApart(q.Mem())
      requires |disk| < 0x1_0000_0000_0000_0000
      modifies q.ram, q`used, `intStatus, `line, `requests
      ensures q.Kept(0) && LineHolds() && q.BuffersApart(q.Mem())
      ensures var r := Serve(old(q.Mem()), q.num, q.descAddr, disk, head);
              && q.used == old(q.used) + [Used(head, r.1)]
              && SameOutside(r.0, q.Mem(), q.usedAddr - RAM_BASE, 4 + 8 * q.num)
      ensures q.SameInputs(old(q.Mem()), q.Mem())
    {
      hide Serve, Queue.InRings, Queue.Placed, Queue.BuffersApart, InOrder, Shows, Le16;
      ghost var m := q.Mem();
      var written := CarryOut(head);
      q.StillKept(m, q.Mem());
      FinishRequest(head, written, m);
    }

    /** Publishing leaves the table, and so what buffers the driver gave out, alone. */
    method FinishRequest(head: nat, written: nat, ghost m: Memory)
      requires q.Kept(1) && q.taken[|q.taken| - 1] == head < 0x1_0000 && written < 0x1_0000_0000 && LineHolds()
      requires |m| == q.ram.Length && q.SameRings(m, q.Mem()) && q.BuffersApart(m)
      modifies q.ram, q`used, `intStatus, `line
      ensures q.Kept(0) && q.used == old(q.used) + [Used(head, written)] && LineHolds() && q.BuffersApart(q.Mem())
      ensures SameOutside(old(q.Mem()), q.Mem(), q.usedAddr - RAM_BASE, 4 + 8 * q.num)
      ensures q.SameInputs(m, q.Mem())
    {
      hide InOrder, Shows, Le16, Queue.InRings, Queue.IsInput, Queue.BuffersApart, Queue.SameRings, Queue.SameInputs,
           SameOutside,
           Queue.Placed;
      ghost var before := q.Mem();
      q.RingsKeepDescs(m, before);
      Finish(head, written);
      q.UsedRingOnly(before, q.Mem());
      q.InputsThrough(m, before, q.Mem());
    }

    /** What holds of a queue the driver has made ready. */
    ghost predicate Sound()
      reads this, q, q.ram
    {
      LineHolds() && (q.ready ==> q.Kept(0) && q.BuffersApart(q.Mem()))
    }

    /**
     queue_notify: every available chain is taken once, in ring order, carried out and published, each on the
     memory the one before it left; ms are the memories in between.
     */
    method Notify() returns (ghost ms: seq<Memory>)
      requires Sound() && |disk| < 0x1_0000_0000_0000_0000
      modifies q.ram, q`used, q`taken, q`lastAvail, `intStatus, `line, `requests
      ensures Sound()
      ensures !q.ready ==> q.Mem() == old(q.Mem()) && q.taken == old(q.taken) && q.used == old(q.used)
      ensures q.ready ==> q.taken == old(q.taken) + Heads(old(q.Mem()), q.availAddr - RAM_BASE, q.num, old(|q.taken|),
                                                          Waiting(old(q.Mem()), q.availAddr - RAM_BASE, old(|q.taken|)))
      ensures q.ready ==> && |ms| > 0 && ms[0] == old(q.Mem()) && ms[|ms| - 1] == q.Mem() && old(q.used) <= q.used
                          && ServedAll(q.num, q.descAddr, q.usedAddr - RAM_BASE, disk, ms, q.used[|old(q.used)|..])
      ensures q.ready ==> q.SameInputs(old(q.Mem()), q.Mem())
    {
      hide InOrder, Shows, Le16, Queue.InRings, Queue.IsInput, Queue.BuffersApart, Queue.SameInputs, Serve, Served,
           ServedAll,
           Heads, HeadAt, Waiting;
      ms := [];
      if !q.ready {
        return;
      }
      ghost var m, o, n0, u0 := q.Mem(), q.availAddr - RAM_BASE, |q.taken|, q.used;
      q.SameInputsSelf(m);
      var availIdx := q.Read16(q.availAddr + 2);
      if availIdx.None? {
        return;
      }
      ghost var done := 0;
      ms := [m];
      NoHeads(m, o, q.num, n0);
      NoneServed(q.num, q.descAddr, q.usedAddr - RAM_BASE, disk, m, u0);
      while q.lastAvail != availIdx.value
        invariant Sound() && q.SameInputs(m, q.Mem())
        invariant done <= Waiting(m, o, n0) && q.taken == old(q.taken) + Heads(m, o, q.num, n0, done)
        invariant |ms| > 0 && ms[0] == m && ms[|ms| - 1] == q.Mem() && u0 <= q.used
        invariant ServedAll(q.num, q.descAddr, q.usedAddr - RAM_BASE, disk, ms, q.used[|u0|..])
        decreases Waiting(m, o, n0) - done
      {
        StillWaiting(m, o, n0, done);
        NextHead(m, o, q.num, n0, done);
        ghost var us := q.used;
        ServeNext(m);
        OneServed(q.num, q.descAddr, q.usedAddr - RAM_BASE, disk, ms, us, |u0|, q.Mem(), q.used[|us|]);
        ms := ms + [q.Mem()];
        done := done + 1;
      }
      AllTaken(m, o, n0, done);
    }

    /** One turn of queue_notify's loop */
    method ServeNext(ghost m: Memory)
      requires q.Kept(0) && LineHolds() && q.BuffersApart(q.Mem()) && |disk| < 0x1_0000_0000_0000_0000
      requires |m| == q.ram.Length && q.SameInputs(m, q.Mem())
      modifies q.ram, q`used, q`taken, q`lastAvail, `intStatus, `line, `requests
      ensures q.Kept(0) && LineHolds() && q.BuffersApart(q.Mem()) && q.SameInputs(m, q.Mem())
      ensures q.taken == old(q.taken) + [HeadAt(m, q.availAddr - RAM_BASE, q.num, old(|q.taken|) % 0x1_0000 % q.num)]
      ensures |q.used| == |old(q.used)| + 1 && q.used == old(q.used) + [q.used[|old(q.used)|]]
      ensures Served(q.num, q.descAddr, q.usedAddr - RAM_BASE, disk, old(q.Mem()), q.Mem(), q.used[|old(q.used)|])
    {
      hide InOrder, Shows, Queue.InRings, Queue.IsInput, Queue.BuffersApart, Queue.SameInputs, Serve, SameOutside;
      var slot := q.availAddr + 4 + q.lastAvail % q.num * 2;
      SlotFits(q.lastAvail % q.num, q.num);
      var head := q.Read16(slot);
      if head.None? {
        return;
      }
      q.SameHead(m, q.Mem(), q.lastAvail % q.num);
      q.Take(head.value);
      ghost var before := q.Mem();
      HandleChain(head.value);
      q.InputsOn(m, before, q.Mem());
    }

    /** The driver makes the queue ready: it starts sound exactly if the used index in RAM is zero. */
    method QueueReady(val: nat)
      modifies q`ready, q`lastAvail, q`taken, q`used
      ensures q.ready == (val % 2 == 1) && (q.ready ==> q.taken == [] && q.used == [] && q.lastAvail == 0)
      ensures q.ready && q.Placed() ==> (q.Kept(0) <==> Le16(q.Mem(), q.usedAddr - RAM_BASE + 2) == 0)
    {
      q.ready := val % 2 == 1;
      if q.ready {
        q.lastAvail := 0;
        q.taken, q.used := [], [];
      }
    }

    /** VIRTIO_MMIO_INT_ACK */
    method IntAck(val: bv32)
      requires LineHolds()
      modifies `intStatus, `line
      ensures LineHolds() && intStatus == old(intStatus) & !val
    {
      intStatus := intStatus & !val;
      if intStatus == 0 {
        line := false;
      }
    }

    /** Writing zero to VIRTIO_MMIO_STATUS */
    method Reset()
      modifies q`ready, q`num, q`lastAvail, `intStatus, `line
      ensures LineHolds() && !line && !q.ready && q.num == 0 && q.lastAvail == 0
    {
      q.ready, q.num, q.lastAvail := false, 0, 0;
      intStatus, line := 0, false;
    }
  }

  lemma LastIsWritable(chain: seq<Desc>)
    requires LastWritable(chain) >= 0
    ensures Has(chain[LastWritable(chain)], WRITE)
  {
  }

  /** A scatter after `total` bytes already copied. */
  function Added(total: nat, r: (bool, Memory, nat)): (bool, Memory, nat) {
    (r.0, r.1, total + r.2)
  }

  lemma ScatterStep(m: Memory, chain: seq<Desc>, i: nat, disk: seq<Byte>, at: nat)
    requires i < |chain|
    ensures var d := chain[i];
            Scatter(m, chain[i..], disk, at) ==
            if !Has(d, WRITE) then Scatter(m, chain[i + 1..], disk, at)
            else if at + d.len > |disk| || PhysPtr(|m|, d.addr, d.len).None? then (false, m, 0)
            else
              Added(d.len, Scatter(Put(m, d.addr - RAM_BASE, disk[at..at + d.len]), chain[i + 1..], disk, at + d.len))
  {
    assert chain[i..][1..] == chain[i + 1..];
  }

  lemma ScatterNone(m: Memory, chain: seq<Desc>, disk: seq<Byte>, at: nat)
    requires chain == []
    ensures Scatter(m, chain, disk, at) == (true, m, 0)
  {
  }

  /** One descriptor of the header. */
  lemma HeaderStep(m: Memory, chain: seq<Desc>, i: nat, need: nat)
    requires i < |chain| && need > 0
    ensures var take := if chain[i].len > need then need else chain[i].len;
            Header(m, chain[i..], need) ==
            if Has(chain[i], WRITE) || PhysPtr(|m|, chain[i].addr, take).None? then None
            else
              var o := PhysPtr(|m|, chain[i].addr, take).value;
              Joined(m[o..o + take], Header(m, chain[i + 1..], need - take))
  {
    assert chain[i..][1..] == chain[i + 1..];
  }

  lemma HeaderEnd(m: Memory, chain: seq<Desc>, i: nat, got: seq<Byte>)
    requires i <= |chain| && |got| <= 16 && (i == |chain| || |got| == 16)
    ensures Joined(got, Header(m, chain[i..], 16 - |got|)) == if |got| == 16 then Some(got) else None
  {
    assert got + [] == got;
  }

  lemma JoinedNone(rest: Option<seq<Byte>>)
    ensures Joined([], rest) == rest
  {
    if rest.Some? {
      assert [] + rest.value == rest.value;
    }
  }

  lemma JoinedFails(got: seq<Byte>)
    ensures Joined(got, None) == None
  {
  }

  function Joined(got: seq<Byte>, rest: Option<seq<Byte>>): Option<seq<Byte>> {
    match rest
    case None => None
    case Some(bytes) => Some(got + bytes)
  }

  lemma JoinedStep(got: seq<Byte>, some: seq<Byte>, rest: Option<seq<Byte>>)
    ensures Joined(got + some, rest) == Joined(got, Joined(some, rest))
  {
    if rest.Some? {
      assert got + some + rest.value == got + (some + rest.value);
    }
  }

  /* ---- what a read leaves in the driver's buffers ---- */

  /** The contents of the device-writable buffers, one after the other. */
  function Gather(m: Memory, chain: seq<Desc>): Option<seq<Byte>> {
    if chain == [] then Some([])
    else if !Has(chain[0], WRITE) then Gather(m, chain[1..])
    else
      match PhysPtr(|m|, chain[0].addr, chain[0].len)
      case None => None
      case Some(o) => Joined(m[o..o + chain[0].len], Gather(m, chain[1..]))
  }

  /** A read touches nothing but the buffers it was given. */
  lemma {:induction false} ScatterOutside(m: Memory, chain: seq<Desc>, disk: seq<Byte>, at: nat, k: nat)
    requires k < |m| && !InBuffers(chain, k)
    ensures Scatter(m, chain, disk, at).1[k] == m[k]
    decreases |chain|
  {
    if chain != [] {
      BuffersTail(chain, k);
      var d := chain[0];
      if !Has(d, WRITE) {
        ScatterOutside(m, chain[1..], disk, at, k);
      } else if at + d.len <= |disk| && PhysPtr(|m|, d.addr, d.len).Some? {
        var m1 := Put(m, d.addr - RAM_BASE, disk[at..at + d.len]);
        assert !Covers(d, k);
        PutByte(m, d.addr - RAM_BASE, disk[at..at + d.len], k);
        ScatterOutside(m1, chain[1..], disk, at + d.len, k);
      }
    }
  }

  /** The first buffer keeps what was put in it through the rest of the scatter. */
  lemma FirstStays(m: Memory, chain: seq<Desc>, disk: seq<Byte>, at: nat)
    requires chain != [] && Has(chain[0], WRITE) && Disjoint(chain) && at + chain[0].len <= |disk|
    requires PhysPtr(|m|, chain[0].addr, chain[0].len).Some?
    ensures var d, o := chain[0], chain[0].addr - RAM_BASE;
            Scatter(Put(m, o, disk[at..at + d.len]), chain[1..], disk, at + d.len).1[o..o + d.len] == disk[at..at + d.len]
  {
    var d, o := chain[0], chain[0].addr - RAM_BASE;
    var m1 := Put(m, o, disk[at..at + d.len]);
    var got := Scatter(m1, chain[1..], disk, at + d.len).1[o..o + d.len];
    forall j: nat | j < d.len
      ensures got[j] == disk[at..at + d.len][j]
    {
      PutByte(m, o, disk[at..at + d.len], o + j);
      FirstApart(chain, o + j);
      ScatterOutside(m1, chain[1..], disk, at + d.len, o + j);
    }
  }

  /**
   However the driver splits its buffer, a read that succeeds leaves in it, in order, exactly the bytes of
   the disk from the start on, and counts them all.
   */
  lemma {:induction false} ReadFillsBuffers(m: Memory, chain: seq<Desc>, disk: seq<Byte>, at: nat)
    requires Disjoint(chain) && Scatter(m, chain, disk, at).0 && at <= |disk|
    ensures var r := Scatter(m, chain, disk, at);
            at + r.2 <= |disk| && Gather(r.1, chain) == Some(disk[at..at + r.2])
    decreases |chain|
  {
    if chain == [] {
      assert disk[at..at] == [];
    } else {
      var d := chain[0];
      assert Disjoint(chain[1..]);
      if !Has(d, WRITE) {
        ReadFillsBuffers(m, chain[1..], disk, at);
      } else {
        var o := d.addr - RAM_BASE;
        var m1 := Put(m, o, disk[at..at + d.len]);
        ReadFillsBuffers(m1, chain[1..], disk, at + d.len);
        FirstStays(m, chain, disk, at);
        var rest := Scatter(m1, chain[1..], disk, at + d.len);
        assert disk[at..at + d.len] + disk[at + d.len..at + d.len + rest.2] == disk[at..at + d.len + rest.2];
      }
    }
  }

  /** The buffers' contents depend on nothing else. */
  lemma {:induction false} GatherSame(m: Memory, m': Memory, chain: seq<Desc>)
    requires |m| == |m'| && forall k: nat :: k < |m| && InBuffers(chain, k) ==> m'[k] == m[k]
    ensures Gather(m', chain) == Gather(m, chain)
    decreases |chain|
  {
    if chain != [] {
      TailSame(m, m', chain);
      GatherSame(m, m', chain[1..]);
      if Has(chain[0], WRITE) {
        FirstSame(m, m', chain, chain[0].len);
      }
    }
  }

  predicate NoneWritable(chain: seq<Desc>) {
    forall i :: 0 <= i < |chain| ==> !Has(chain[i], WRITE)
  }

  /** Every device-writable buffer lies in RAM. */
  predicate InRam(size: nat, chain: seq<Desc>) {
    forall i :: 0 <= i < |chain| && Has(chain[i], WRITE) ==> PhysPtr(size, chain[i].addr, chain[i].len).Some?
  }

  /** A read that can be carried out: its buffers are in RAM, and the disk has as many bytes as they have. */
  predicate Readable(size: nat, chain: seq<Desc>, disk: seq<Byte>, at: nat) {
    InRam(size, chain) && (NoneWritable(chain) || at + Capacity(chain) <= |disk|)
  }

  lemma ReadableTail(size: nat, chain: seq<Desc>, disk: seq<Byte>, at: nat)
    requires chain != []
    ensures var d := chain[0];
            Readable(size, chain, disk, at) <==>
            if !Has(d, WRITE) then Readable(size, chain[1..], disk, at)
            else at + d.len <= |disk| && PhysPtr(size, d.addr, d.len).Some? && Readable(size, chain[1..], disk, at + d.len)
  {
    hide PhysPtr;
    var d, rest := chain[0], chain[1..];
    assert forall i :: 0 <= i < |rest| ==> rest[i] == chain[i + 1];
    assert forall i :: 0 < i < |chain| ==> chain[i] == rest[i - 1];
    NoCapacity(rest);
  }

  lemma {:induction false} NoCapacity(chain: seq<Desc>)
    ensures NoneWritable(chain) ==> Capacity(chain) == 0
  {
    if chain != [] {
      NoCapacity(chain[1..]);
    }
  }

  /** A read succeeds exactly when it can be carried out, and then transfers what the buffers have room for. */
  lemma {:induction false} ScatterSucceeds(m: Memory, chain: seq<Desc>, disk: seq<Byte>, at: nat)
    ensures var r := Scatter(m, chain, disk, at);
            (r.0 <==> Readable(|m|, chain, disk, at)) && (r.0 ==> r.2 == Capacity(chain))
    decreases |chain|
  {
    hide Readable, Put;
    if chain == [] {
      NothingReadable(|m|, disk, at);
    } else {
      var d := chain[0];
      ReadableTail(|m|, chain, disk, at);
      if !Has(d, WRITE) {
        ScatterSucceeds(m, chain[1..], disk, at);
      } else if at + d.len <= |disk| && PhysPtr(|m|, d.addr, d.len).Some? {
        ScatterSucceeds(Put(m, d.addr - RAM_BASE, disk[at..at + d.len]), chain[1..], disk, at + d.len);
      }
    }
  }

  lemma NothingReadable(size: nat, disk: seq<Byte>, at: nat)
    ensures Readable(size, [], disk, at)
  {
  }

  /** Whether a request succeeds. */
  predicate Succeeds(size: nat, hdr: seq<Byte>, data: seq<Desc>, disk: seq<Byte>)
    requires |hdr| == 16
  {
    if Le32(hdr, 0) == TYPE_IN then Readable(size, data, disk, SectorStart(Le64(hdr, 8))) else Le32(hdr, 0) == TYPE_FLUSH
  }

  /**
   A well-formed request: a chain with a header, and a byte of RAM for the status in its last device-writable
   buffer.
   */
  predicate WellFormed(m: Memory, num: nat, table: nat, head: nat, chain: seq<Desc>, hdr: seq<Byte>) {
    && ChainFrom(m, num, table, head, MAX_CHAIN) == Some(chain) && Header(m, chain, 16) == Some(hdr)
    && LastWritable(chain) >= 0 && chain[LastWritable(chain)].len >= 1
    && PhysPtr(|m|, chain[LastWritable(chain)].addr, 1).Some?
  }

  /** The memory a request leaves, before its publication. */
  lemma RequestMemory(num: nat, table: nat, disk: seq<Byte>, m: Memory, head: nat, chain: seq<Desc>, hdr: seq<Byte>)
    requires WellFormed(m, num, table, head, chain, hdr)
    ensures var r, last := Serve(m, num, table, disk, head), LastWritable(chain);
            var d, data, ok := Data(m, hdr, chain[..last], disk), chain[..last], Succeeds(|m|, hdr, chain[..last], disk);
            && r.0 == Put(d.1, chain[last].addr - RAM_BASE, [StatusOf(Le32(hdr, 0), ok)])
            && r.1 == ((if ok && Le32(hdr, 0) == TYPE_IN then Capacity(data) else 0) + 1) % 0x1_0000_0000
  {
    hide ChainFrom, Header, LastWritable, Scatter, Readable, Put, StatusOf;
    ScatterSucceeds(m, chain[..LastWritable(chain)], disk, SectorStart(Le64(hdr, 8)));
  }

  /** The status byte is in none of the buffers before it, and off the used ring. */
  lemma StatusApart(chain: seq<Desc>, last: nat, usedAt: nat, num: nat)
    requires last < |chain| && Has(chain[last], WRITE) && chain[last].len >= 1 && chain[last].addr >= RAM_BASE
    requires Disjoint(chain) && OffUsed(chain, usedAt, num)
    ensures var o := chain[last].addr - RAM_BASE;
            !InBuffers(chain[..last], o) && InBuffers(chain, o) && Disjoint(chain[..last])
    ensures forall k: nat :: InBuffers(chain[..last], k) ==> InBuffers(chain, k)
  {
    var o := chain[last].addr - RAM_BASE;
    assert Covers(chain[last], o);
    forall i | 0 <= i < last && Has(chain[i], WRITE)
      ensures !Covers(chain[..last][i], o)
    {
    }
    forall k: nat | InBuffers(chain[..last], k)
      ensures InBuffers(chain, k)
    {
      var i :| 0 <= i < last && Has(chain[..last][i], WRITE) && Covers(chain[..last][i], k);
      assert chain[i] == chain[..last][i];
    }
  }

  /**
   A request as the driver sees it once its chain is published, with buffers apart from each other and off the used ring.
   The status byte is 0 for success, 1 for an I/O error, 2 for a request the device does not know: a read (type 0)
   succeeds exactly if it can be carried out, a write (1) never, a flush (4) always. A read that succeeds left in the
   buffers before the status, in order, the bytes of the disk from sector * 512 on; the length reported is theirs and the
   status byte's; and no byte outside the buffers and the used ring has changed.
   */
  lemma RequestOutcome(num: nat, table: nat, usedAt: nat, disk: seq<Byte>, m: Memory, m': Memory, u: Used,
                       chain: seq<Desc>, hdr: seq<Byte>)
    requires Served(num, table, usedAt, disk, m, m', u) && WellFormed(m, num, table, u.head, chain, hdr)
    requires Disjoint(chain) && OffUsed(chain, usedAt, num)
    ensures |m'| == |m| && 0 <= chain[LastWritable(chain)].addr - 0x8000_0000 < |m|
    ensures var last, kind, at := LastWritable(chain), Le32(hdr, 0), Le64(hdr, 8) * 512 % 0x1_0000_0000_0000_0000;
            var data, status := chain[..last], m'[chain[last].addr - 0x8000_0000];
            && (kind == 0 ==> status == if Readable(|m|, data, disk, at) then 0 else 1)
            && (kind == 1 ==> status == 1) && (kind == 4 ==> status == 0)
            && (kind != 0 && kind != 1 && kind != 4 ==> status == 2)
            && u.written == ((if kind == 0 && status == 0 then Capacity(data) else 0) + 1) % 0x1_0000_0000
            && (kind == 0 && status == 0 && at <= |disk| ==>
                  at + Capacity(data) <= |disk| && Gather(m', data) == Some(disk[at..at + Capacity(data)]))
    ensures forall k: nat :: k < |m| && !InBuffers(chain, k) && !(usedAt <= k < usedAt + 4 + 8 * num) ==> m'[k] == m[k]
  {
    hide ChainFrom, Header, LastWritable, Scatter, Readable, Put, Disjoint, InBuffers, Serve, Gather, Capacity;
    var last, at := LastWritable(chain), SectorStart(Le64(hdr, 8));
    var data, o := chain[..last], chain[last].addr - RAM_BASE;
    LastIsWritable(chain);
    RequestMemory(num, table, disk, m, u.head, chain, hdr);
    StatusApart(chain, last, usedAt, num);
    var d := Data(m, hdr, data, disk).1;
    var bs := [StatusOf(Le32(hdr, 0), Succeeds(|m|, hdr, data, disk))];
    PutByte(d, o, bs, o);
    forall k: nat | k < |m| && k != o && !(usedAt <= k < usedAt + 4 + 8 * num)
      ensures m'[k] == d[k]
    {
      PutByte(d, o, bs, k);
    }
    forall k: nat | k < |m| && !InBuffers(chain, k) && !(usedAt <= k < usedAt + 4 + 8 * num)
      ensures m'[k] == m[k]
    {
      ScatterOutside(m, data, disk, at, k);
    }
    if Le32(hdr, 0) == TYPE_IN && Succeeds(|m|, hdr, data, disk) && at <= |disk| {
      ScatterSucceeds(m, data, disk, at);
      ReadFillsBuffers(m, data, disk, at);
      GatherSame(d, m', data);
    }
  }

  /** A malformed request changes nothing outside the device-writable buffers and the used ring, and reports no byte. */
  lemma Malformed(num: nat, table: nat, usedAt: nat, disk: seq<Byte>, m: Memory, m': Memory, u: Used)
    requires Served(num, table, usedAt, disk, m, m', u)
    requires forall chain, hdr :: !WellFormed(m, num, table, u.head, chain, hdr)
    ensures u.written == 0 && |m'| == |m|
    ensures forall k: nat :: k < |m| && !(usedAt <= k < usedAt + 4 + 8 * num) && m'[k] != m[k] ==>
              match ChainFrom(m, num, table, u.head, MAX_CHAIN)
              case None => false
              case Some(chain) => InBuffers(chain, k)
  {
    hide ChainFrom, Header, LastWritable, Scatter, InBuffers;
    var c := ChainFrom(m, num, table, u.head, MAX_CHAIN);
    if c.Some? && Header(m, c.value, 16).Some? {
      var chain, hdr := c.value, Header(m, c.value, 16).value;
      assert !WellFormed(m, num, table, u.head, chain, hdr);
      var last := LastWritable(chain);
      if last >= 0 && chain[last].len >= 1 {
        forall k: nat | k < |m| && !InBuffers(chain, k)
          ensures Data(m, hdr, chain[..last], disk).1[k] == m[k]
        {
          PrefixBuffers(chain, last, k);
          ScatterOutside(m, chain[..last], disk, SectorStart(Le64(hdr, 8)), k);
        }
      }
    }
  }

  lemma PrefixBuffers(chain: seq<Desc>, last: nat, k: nat)
    requires last <= |chain|
    ensures InBuffers(chain[..last], k) ==> InBuffers(chain, k)
  {
    if InBuffers(chain[..last], k) {
      var i :| 0 <= i < last && Has(chain[..last][i], WRITE) && Covers(chain[..last][i], k);
      assert chain[i] == chain[..last][i];
    }
  }

  /**
   A sector number starts at sector * 512 exactly when that fits 64 bits; past it the device serves another
   sector.
   */
  lemma SectorInRange(sector: nat)
    requires sector < 0x1_0000_0000_0000_0000
    ensures SectorStart(sector) == sector * 512 <==> sector < 0x80_0000_0000_0000
    ensures SectorStart(0x80_0000_0000_0000) == SectorStart(0)
  {
  }
}
