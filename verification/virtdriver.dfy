/** Whole runs of the virtio devices with a conforming driver: every chain it offers is published once, in order. */
module VirtDriver {
  import opened Basics
  import opened PageWalk
  import opened Virtqueue
  import VirtioBlk
  import VirtioNet

  /* ---- the driver's side of a queue ---- */

  /**
   The available ring offers the chains `offered`: its index counts them, and each that the device has not taken is in
   its slot, which there must be a slot for.
   */
  ghost predicate Offers(q: Queue, m: Memory, offered: seq<nat>, taken: nat)
    reads q`num, q`availAddr
  {
    var o := q.availAddr - RAM_BASE;
    && q.num > 0 && 0 <= o && o + 4 + 2 * q.num <= |m|
    && taken <= |offered| <= taken + q.num && Le16(m, o + 2) == |offered| % 0x1_0000
    && forall i :: taken <= i < |offered| ==> HeadAt(m, o, q.num, i % 0x1_0000 % q.num) == offered[i]
  }

  /** A turn of the driver leaves the used ring alone, and the available ring as it should be. */
  ghost predicate Turn(q: Queue, m: Memory, m': Memory, offered: seq<nat>, taken: nat)
    reads q`num, q`availAddr, q`usedAddr
  {
    && |m'| == |m| && Offers(q, m', offered, taken)
    && forall k: nat :: k < |m| && q.usedAddr <= RAM_BASE + k < q.usedAddr + 4 + 8 * q.num ==> m'[k] == m[k]
  }

  /** What the driver can read of the device's progress. */
  ghost predicate Sees(q: Queue, m: Memory, taken: nat)
    requires q.Placed() && |m| == q.ram.Length
    reads q`num, q`descAddr, q`availAddr, q`usedAddr
  {
    Le16(m, q.usedAddr - RAM_BASE + 2) == taken % 0x1_0000
  }

  /** The driver's own way to offer a chain: its head in the next slot, then the index. */
  lemma OfferOne(q: Queue, m: Memory, offered: seq<nat>, taken: nat, head: nat)
    requires Offers(q, m, offered, taken) && |offered| < taken + q.num && 0x1_0000 % q.num == 0 && head < 0x1_0000
    ensures var o, next := q.availAddr - RAM_BASE, (|offered| + 1) % 0x1_0000;
            var at := o + 4 + |offered| % 0x1_0000 % q.num * 2;
            && at + 2 <= |m| && |Bytes16(head)| == |Bytes16(next)| == 2
            && var m' := Put(Put(m, at, Bytes16(head)), o + 2, Bytes16(next));
               Offers(q, m', offered + [head], taken) && SameOutside(m, m', o, 4 + 2 * q.num)
  {
    hide Put, Bytes16, SameOutside, HeadAt;
    var o, next, slot := q.availAddr - RAM_BASE, (|offered| + 1) % 0x1_0000, |offered| % 0x1_0000 % q.num;
    var at, all := o + 4 + slot * 2, offered + [head];
    SlotFits(slot, q.num);
    Bytes16Size(head);
    Bytes16Size(next);
    var m1 := Put(m, at, Bytes16(head));
    var m2 := Put(m1, o + 2, Bytes16(next));
    Read16Put(m, at, head);
    Read16Put(m1, o + 2, next);
    PutOutside(m, at, Bytes16(head), o, 4 + 2 * q.num);
    PutOutside(m1, o + 2, Bytes16(next), o, 4 + 2 * q.num);
    OutsideOn(m, m1, m2, o, 4 + 2 * q.num);
    forall i | taken <= i < |all|
      ensures HeadAt(m2, o, q.num, i % 0x1_0000 % q.num) == all[i]
    {
      var s := i % 0x1_0000 % q.num;
      SlotKept(m1, o, q.num, s, Bytes16(next));
      if i < |offered| {
        SlotsDiffer(i, |offered|, q.num);
        OtherSlotKept(m, o, q.num, slot, s, Bytes16(head));
      } else {
        HeadIs(m1, o, q.num, slot);
      }
    }
  }

  lemma Bytes16Size(v: nat)
    ensures |Bytes16(v)| == 2
  {
  }

  lemma HeadIs(m: Memory, o: nat, num: nat, slot: nat)
    requires slot < num && o + 4 + 2 * num <= |m|
    ensures HeadAt(m, o, num, slot) == Le16(m, o + 4 + slot * 2)
  {
  }

  lemma OutsideOn(m: Memory, m1: Memory, m2: Memory, o: nat, n: nat)
    requires SameOutside(m, m1, o, n) && SameOutside(m1, m2, o, n)
    ensures SameOutside(m, m2, o, n)
  {
  }

  lemma SlotKept(m: Memory, o: nat, num: nat, slot: nat, index: seq<Byte>)
    requires slot < num && o + 4 + 2 * num <= |m| && |index| == 2
    ensures HeadAt(Put(m, o + 2, index), o, num, slot) == HeadAt(m, o, num, slot)
  {
    hide Put;
    PutByte(m, o + 2, index, o + 4 + slot * 2);
    PutByte(m, o + 2, index, o + 4 + slot * 2 + 1);
  }

  lemma OtherSlotKept(m: Memory, o: nat, num: nat, slot: nat, other: nat, bs: seq<Byte>)
    requires slot < num && other < num && slot != other && o + 4 + 2 * num <= |m| && |bs| == 2
    ensures HeadAt(Put(m, o + 4 + slot * 2, bs), o, num, other) == HeadAt(m, o, num, other)
  {
    hide Put;
    PutByte(m, o + 4 + slot * 2, bs, o + 4 + other * 2);
    PutByte(m, o + 4 + slot * 2, bs, o + 4 + other * 2 + 1);
  }

  /* ---- what the device takes of it ---- */

  /** The waiting chains are the offered ones that were not taken. */
  lemma OfferedWait(q: Queue, m: Memory, offered: seq<nat>, taken: nat)
    requires Offers(q, m, offered, taken) && q.num <= 128
    ensures Waiting(m, q.availAddr - RAM_BASE, taken) == |offered| - taken
  {
  }

  lemma {:induction false} OfferedHeads(q: Queue, m: Memory, offered: seq<nat>, taken: nat, n: nat)
    requires Offers(q, m, offered, taken) && taken + n <= |offered|
    ensures Heads(m, q.availAddr - RAM_BASE, q.num, taken, n) == offered[taken..taken + n]
  {
    hide HeadAt, Heads;
    var o := q.availAddr - RAM_BASE;
    NoHeads(m, o, q.num, taken);
    if n > 0 {
      OfferedHeads(q, m, offered, taken, n - 1);
      NextHead(m, o, q.num, taken, n - 1);
      assert offered[taken..taken + n] == offered[taken..taken + n - 1] + [offered[taken + n - 1]];
    }
  }

  /** What the device took goes on in the order offered. */
  lemma TookOffered(q: Queue, m: Memory, m': Memory, offered: seq<nat>, taken: seq<nat>, t: seq<nat>)
    requires Offers(q, m, offered, |taken|) && taken <= offered && 0 < q.num <= 128 && |m| == |m'|
    requires Took(m, q.availAddr - RAM_BASE, q.num, taken, t)
    requires forall k: nat :: k < |m| && q.availAddr <= RAM_BASE + k < q.availAddr + 4 + 2 * q.num ==> m'[k] == m[k]
    ensures t <= offered && Offers(q, m', offered, |t|)
    ensures |t| - |taken| == Waiting(m, q.availAddr - RAM_BASE, |taken|) ==> t == offered
  {
    OfferedWait(q, m, offered, |taken|);
    OfferedHeads(q, m, offered, |taken|, |t| - |taken|);
    SameOffers(q, m, m', offered, |taken|);
  }

  lemma SameOffers(q: Queue, m: Memory, m': Memory, offered: seq<nat>, taken: nat)
    requires Offers(q, m, offered, taken) && |m| == |m'|
    requires forall k: nat :: k < |m| && q.availAddr <= RAM_BASE + k < q.availAddr + 4 + 2 * q.num ==> m'[k] == m[k]
    ensures Offers(q, m', offered, taken)
  {
  }

  /** A driver's turn does not touch what the device published. */
  lemma TurnShows(q: Queue, m: Memory, m': Memory, offered: seq<nat>, taken: nat)
    requires q.Placed() && |m| == q.ram.Length && Turn(q, m, m', offered, taken)
    ensures Shows(m, q.usedAddr - RAM_BASE, q.num, q.used) ==> Shows(m', q.usedAddr - RAM_BASE, q.num, q.used)
  {
    ShowsSame(m, m', q.usedAddr - RAM_BASE, q.num, q.used);
  }

  /** RAM as the driver leaves it. */
  method Leave(q: Queue, m: Memory)
    requires |m| == q.ram.Length
    modifies q.ram
    ensures q.Mem() == m
  {
    forall k | 0 <= k < q.ram.Length {
      q.ram[k] := m[k];
    }
  }

  /** Every chain published was taken, in the order taken. */
  ghost predicate Published(q: Queue, offered: seq<nat>)
    reads q`taken, q`used
  {
    && q.taken <= offered && |q.used| == |q.taken|
    && forall i :: 0 <= i < |q.used| ==> q.used[i].head == offered[i]
  }

  lemma KeptPublished(q: Queue, offered: seq<nat>)
    requires q.Kept(0) && q.taken <= offered
    ensures Published(q, offered)
  {
  }

  /* ---- the block device ---- */

  /** A driver: from the round, RAM and what it has offered so far, RAM as it leaves it and what it offers more. */
  type Driver = (nat, Memory, seq<nat>) -> (Memory, seq<nat>)

  /**
   Whatever state of the queue a conforming driver finds, it gives out no buffer over a ring and takes proper
   turns.
   */
  ghost predicate Conforms(q: Queue, driver: Driver)
    requires q.Placed()
    reads q`num, q`descAddr, q`availAddr, q`usedAddr
  {
    forall round: nat, m: Memory, offered: seq<nat>, taken: nat ::
      |m| == q.ram.Length && q.BuffersApart(m) && Sees(q, m, taken) && Offers(q, m, offered, taken) ==>
        var r := driver(round, m, offered);
        Turn(q, m, r.0, offered + r.1, taken) && q.BuffersApart(r.0)
  }

  /** The queue between rounds: everything offered has been published. */
  ghost predicate Going(b: VirtioBlk.Blk, offered: seq<nat>)
    reads b, b.q, b.q.ram
  {
    b.Sound() && b.q.ready && Published(b.q, offered) && Offers(b.q, b.q.Mem(), offered, |b.q.taken|)
  }

  /** The driver's turn */
  method BlockTurn(b: VirtioBlk.Blk, driver: Driver, round: nat, offered: seq<nat>) returns (more: seq<nat>)
    requires Going(b, offered) && Conforms(b.q, driver)
    modifies b.q.ram
    ensures Going(b, offered + more) && more == driver(round, old(b.q.Mem()), offered).1
    ensures b.q.Mem() == driver(round, old(b.q.Mem()), offered).0
  {
    hide Offers, Turn, Queue.Placed, Queue.BuffersApart, Shows, InOrder;
    var m := b.q.ram[..];
    var r := driver(round, m, offered);
    ghost var taken := |b.q.taken|;
    KeptSees(b.q);
    assert Turn(b.q, m, r.0, offered + r.1, taken) && b.q.BuffersApart(r.0);
    TurnShows(b.q, m, r.0, offered + r.1, taken);
    TurnParts(b.q, m, r.0, offered + r.1, taken);
    Leave(b.q, r.0);
    more := r.1;
  }

  lemma KeptSees(q: Queue)
    requires q.Kept(0)
    ensures Sees(q, q.Mem(), |q.taken|)
  {
  }

  lemma TurnParts(q: Queue, m: Memory, m': Memory, offered: seq<nat>, taken: nat)
    requires Turn(q, m, m', offered, taken)
    ensures |m'| == |m| && Offers(q, m', offered, taken)
  {
  }

  /**
   Any number of rounds in which a conforming driver has its turn and notifies the device: every chain it ever offered
   was published, once and in the order offered, and the used ring it can read says so.
   */
  method RunBlock(b: VirtioBlk.Blk, driver: Driver, rounds: nat) returns (offered: seq<nat>)
    requires Going(b, []) && Conforms(b.q, driver) && |b.disk| < 0x1_0000_0000_0000_0000
    modifies b, b.q, b.q.ram
    ensures Going(b, offered) && b.q.taken == offered
    ensures |b.q.used| == |offered| && forall i :: 0 <= i < |offered| ==> b.q.used[i].head == offered[i]
    ensures Le16(b.q.Mem(), b.q.usedAddr - RAM_BASE + 2) == b.q.lastAvail == |offered| % 0x1_0000
    ensures Shows(b.q.Mem(), b.q.usedAddr - RAM_BASE, b.q.num, b.q.used)
  {
    hide Offers, Conforms, Queue.BuffersApart, Queue.Placed, Shows, InOrder, Published, Le16;
    offered := [];
    AllPublished(b, offered);
    var round := 0;
    while round < rounds
      invariant Going(b, offered) && b.q.taken == offered
      invariant b.q.Placed() && Conforms(b.q, driver)
    {
      var more := BlockTurn(b, driver, round, offered);
      offered := offered + more;
      BlockNotify(b, offered);
      round := round + 1;
    }
    ShownAtEnd(b, offered);
  }

  lemma AllPublished(b: VirtioBlk.Blk, offered: seq<nat>)
    requires Going(b, offered) && offered == []
    ensures b.q.taken == offered && b.q.Placed()
  {
  }

  lemma ShownAtEnd(b: VirtioBlk.Blk, offered: seq<nat>)
    requires Going(b, offered) && b.q.taken == offered
    ensures b.q.Placed() && |b.q.used| == |offered| && forall i :: 0 <= i < |offered| ==> b.q.used[i].head == offered[i]
    ensures Le16(b.q.Mem(), b.q.usedAddr - RAM_BASE + 2) == b.q.lastAvail == |offered| % 0x1_0000
    ensures Shows(b.q.Mem(), b.q.usedAddr - RAM_BASE, b.q.num, b.q.used)
  {
  }

  /** The device's turn */
  method BlockNotify(b: VirtioBlk.Blk, ghost offered: seq<nat>)
    requires Going(b, offered) && |b.disk| < 0x1_0000_0000_0000_0000
    modifies b.q.ram, b.q`used, b.q`taken, b.q`lastAvail, b`intStatus, b`line, b`requests
    ensures Going(b, offered) && b.q.taken == offered
  {
    hide Offers, Queue.BuffersApart, Shows, InOrder, VirtioBlk.ServedAll, Heads, Waiting, Queue.SameInputs;
    ghost var m, taken := b.q.Mem(), b.q.taken;
    ghost var ms := b.Notify();
    TookWaiting(m, b.q.availAddr - RAM_BASE, b.q.num, taken);
    SameAvail(b.q, m, b.q.Mem());
    TookOffered(b.q, m, b.q.Mem(), offered, taken, b.q.taken);
    KeptPublished(b.q, offered);
  }

  lemma TookWaiting(m: Memory, o: nat, num: nat, taken: seq<nat>)
    requires num > 0 && o + 4 + 2 * num <= |m|
    ensures Took(m, o, num, taken, taken + Heads(m, o, num, |taken|, Waiting(m, o, |taken|)))
  {
  }

  lemma SameAvail(q: Queue, m: Memory, m': Memory)
    requires q.SameInputs(m, m')
    ensures |m| == |m'|
    ensures forall k: nat :: k < |m| && q.availAddr <= RAM_BASE + k < q.availAddr + 4 + 2 * q.num ==> m'[k] == m[k]
  {
    forall k: nat | k < |m| && q.availAddr <= RAM_BASE + k < q.availAddr + 4 + 2 * q.num
      ensures m'[k] == m[k]
    {
      assert q.IsInput(k);
    }
  }

  /* ---- the network device ---- */

  /** A driver of both queues: it offers receive chains and transmit chains. */
  type NetDriver = (nat, Memory, seq<nat>, seq<nat>) -> (Memory, seq<nat>, seq<nat>)

  ghost predicate NetConforms(rx: Queue, tx: Queue, driver: NetDriver)
    requires rx.Placed() && tx.Placed() && rx.ram == tx.ram
    reads rx`num, rx`descAddr, rx`availAddr, rx`usedAddr, tx`num, tx`descAddr, tx`availAddr, tx`usedAddr
  {
    forall round: nat, m: Memory, ro: seq<nat>, to: seq<nat>, rt: nat, tt: nat ::
      && |m| == rx.ram.Length && rx.BuffersApart(m) && Sees(rx, m, rt) && Sees(tx, m, tt)
      && Offers(rx, m, ro, rt) && Offers(tx, m, to, tt) ==>
        var r := driver(round, m, ro, to);
        Turn(rx, m, r.0, ro + r.1, rt) && Turn(tx, m, r.0, to + r.2, tt) && rx.BuffersApart(r.0)
  }

  /** Both queues between operations: what was published is what was taken, and that a part of what was offered. */
  ghost predicate NetGoing(n: VirtioNet.Net, ro: seq<nat>, to: seq<nat>)
    reads n, n.rx, n.tx, n.rx.ram, n.tx.ram
  {
    && n.Sound() && n.rx.ready && n.tx.ready && n.tx.ram.Length <= VirtioNet.RAM_MAX
    && Published(n.rx, ro) && Offers(n.rx, n.rx.Mem(), ro, |n.rx.taken|)
    && Published(n.tx, to) && Offers(n.tx, n.tx.Mem(), to, |n.tx.taken|)
  }

  /** The driver's turn */
  method NetTurn(n: VirtioNet.Net, driver: NetDriver, round: nat, ro: seq<nat>, to: seq<nat>)
    returns (rx: seq<nat>, tx: seq<nat>)
    requires NetGoing(n, ro, to) && NetConforms(n.rx, n.tx, driver)
    modifies n.rx.ram
    ensures NetGoing(n, ro + rx, to + tx)
    ensures (n.rx.Mem(), rx, tx) == driver(round, old(n.rx.Mem()), ro, to)
  {
    hide Offers, Turn, Queue.Placed, Queue.BuffersApart, Shows, InOrder, VirtioNet.Net.Fenced;
    var m := n.rx.ram[..];
    var r := driver(round, m, ro, to);
    ghost var rt, tt := |n.rx.taken|, |n.tx.taken|;
    KeptSees(n.rx);
    KeptSees(n.tx);
    assert Turn(n.rx, m, r.0, ro + r.1, rt) && Turn(n.tx, m, r.0, to + r.2, tt) && n.rx.BuffersApart(r.0);
    TurnShows(n.rx, m, r.0, ro + r.1, rt);
    TurnParts(n.rx, m, r.0, ro + r.1, rt);
    TurnShows(n.tx, m, r.0, to + r.2, tt);
    TurnParts(n.tx, m, r.0, to + r.2, tt);
    Leave(n.rx, r.0);
    return r.1, r.2;
  }

  /** One queue goes on by what the device took from it. */
  lemma QueueOn(q: Queue, m: Memory, offered: seq<nat>, taken: seq<nat>)
    requires q.Kept(0) && |m| == q.ram.Length && q.SameInputs(m, q.Mem())
    requires Offers(q, m, offered, |taken|) && taken <= offered && Took(m, q.availAddr - RAM_BASE, q.num, taken, q.taken)
    ensures Published(q, offered) && Offers(q, q.Mem(), offered, |q.taken|)
    ensures |q.taken| - |taken| == Waiting(m, q.availAddr - RAM_BASE, |taken|) ==> q.taken == offered
  {
    hide Offers, Took, Waiting, Shows, InOrder, Queue.SameInputs;
    SameAvail(q, m, q.Mem());
    TookOffered(q, m, q.Mem(), offered, taken, q.taken);
    KeptPublished(q, offered);
  }

  /** The other queue stays as it was. */
  lemma QueueStays(q: Queue, other: Queue, m: Memory, offered: seq<nat>)
    requires q.Placed() && other.Placed() && other.ram == q.ram && |m| == q.ram.Length && q.SameInputs(m, q.Mem())
    requires forall k: nat :: k < other.ram.Length && other.InOwn(k) ==> k in q.guarded
    requires Offers(other, m, offered, |other.taken|)
    ensures Offers(other, other.Mem(), offered, |other.taken|)
  {
    forall k: nat | k < |m| && other.availAddr <= RAM_BASE + k < other.availAddr + 4 + 2 * other.num
      ensures q.Mem()[k] == m[k]
    {
      assert other.InOwn(k);
      assert q.IsInput(k);
    }
    SameOffers(other, m, q.Mem(), offered, |other.taken|);
  }

  /** The device's turn on a transmit notification */
  method NetNotify(n: VirtioNet.Net, ghost ro: seq<nat>, ghost to: seq<nat>)
    requires NetGoing(n, ro, to)
    modifies n.tx.ram, n.tx`used, n.tx`taken, n.tx`lastAvail, n`intStatus, n`line, n`sent, n`txFrames
    ensures NetGoing(n, ro, to) && n.tx.taken == to && n.rx.taken == old(n.rx.taken)
  {
    hide Offers, Queue.BuffersApart, Shows, InOrder, Heads, Waiting, Queue.SameInputs, Took, VirtioNet.Wire,
         VirtioNet.InUsedOnly;
    ghost var m, taken := n.tx.Mem(), n.tx.taken;
    ghost var ms := n.TxNotify();
    TookWaiting(m, n.tx.availAddr - RAM_BASE, n.tx.num, taken);
    QueueOn(n.tx, m, to, taken);
    QueueStays(n.tx, n.rx, m, ro);
  }

  /** The device's turn when frames have arrived */
  method NetPoll(n: VirtioNet.Net, arrivals: seq<seq<Byte>>, ghost ro: seq<nat>, ghost to: seq<nat>)
    requires NetGoing(n, ro, to) && Frames(arrivals)
    modifies n.rx.ram, n.rx`used, n.rx`taken, n.rx`lastAvail, n`intStatus, n`line, n`rxFrames, n`rxDropped
    ensures NetGoing(n, ro, to) && n.tx.taken == old(n.tx.taken) && old(n.rx.taken) <= n.rx.taken
  {
    hide Offers, Queue.BuffersApart, Shows, InOrder, Queue.SameInputs, Took;
    ghost var m, taken := n.rx.Mem(), n.rx.taken;
    var pulled := n.Poll(arrivals);
    QueueOn(n.rx, m, ro, taken);
    TookPrefix(m, n.rx.availAddr - RAM_BASE, n.rx.num, taken, n.rx.taken);
    QueueStays(n.rx, n.tx, m, to);
  }

  lemma TookPrefix(m: Memory, o: nat, num: nat, taken: seq<nat>, t: seq<nat>)
    requires num > 0 && o + 4 + 2 * num <= |m| && Took(m, o, num, taken, t)
    ensures taken <= t
  {
  }

  predicate Frames(arrivals: seq<seq<Byte>>) {
    forall k :: 0 <= k < |arrivals| ==> 0 < |arrivals[k]| <= VirtioNet.FRAME_MAX
  }

  /** What the device is called for in a round: the driver's notification, or a poll with frames on the wire. */
  datatype Call = Notification | Arrival(frames: seq<seq<Byte>>)

  /**
   Any calls of the device, a turn of a conforming driver before each: on either queue what was published is what was
   taken, a beginning of what was offered, each chain once and in order, and a notification takes all of the transmit
   queue. The used rings the driver can read say so.
   */
  method RunNet(n: VirtioNet.Net, driver: NetDriver, calls: seq<Call>) returns (ro: seq<nat>, to: seq<nat>)
    requires NetGoing(n, [], []) && NetConforms(n.rx, n.tx, driver)
    requires forall k :: 0 <= k < |calls| && calls[k].Arrival? ==> Frames(calls[k].frames)
    modifies n, n.rx, n.tx, n.rx.ram
    ensures NetGoing(n, ro, to)
    ensures n.rx.taken <= ro && |n.rx.used| == |n.rx.taken|
    ensures forall i :: 0 <= i < |n.rx.used| ==> n.rx.used[i].head == ro[i]
    ensures n.tx.taken <= to && |n.tx.used| == |n.tx.taken|
    ensures forall i :: 0 <= i < |n.tx.used| ==> n.tx.used[i].head == to[i]
    ensures calls != [] && calls[|calls| - 1].Notification? ==> n.tx.taken == to
    ensures Shows(n.rx.Mem(), n.rx.usedAddr - RAM_BASE, n.rx.num, n.rx.used)
    ensures Shows(n.tx.Mem(), n.tx.usedAddr - RAM_BASE, n.tx.num, n.tx.used)
  {
    hide Offers, NetConforms, Queue.BuffersApart, Shows, InOrder, Frames;
    ro, to := [], [];
    var round := 0;
    while round < |calls|
      invariant 0 <= round <= |calls| && NetGoing(n, ro, to)
      invariant n.rx.Placed() && n.tx.Placed() && NetConforms(n.rx, n.tx, driver)
      invariant round > 0 && calls[round - 1].Notification? ==> n.tx.taken == to
    {
      var rx, tx := NetTurn(n, driver, round, ro, to);
      ro, to := ro + rx, to + tx;
      match calls[round] {
        case Notification =>
          NetNotify(n, ro, to);
        case Arrival(frames) =>
          NetPoll(n, frames, ro, to);
      }
      round := round + 1;
    }
  }
}
