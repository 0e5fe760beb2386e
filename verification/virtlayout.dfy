/**
 What the queues and buffers look like in memory, byte by byte, from the driver's side: sections 2.7, 5.1.6 and 5.2.6
 of virtio 1.2 with their numbers.
 */
module VirtioLayout {
  import opened Basics
  import opened PageWalk
  import opened Virtqueue
  import VirtioBlk
  import VirtioNet

  /** The number little-endian bytes stand for. */
  function Number(bs: seq<Byte>): nat {
    if bs == [] then 0 else bs[0] as int + 256 * Number(bs[1..])
  }

  lemma NumberNext(bs: seq<Byte>)
    requires bs != []
    ensures Number(bs) == bs[0] as int + 256 * Number(bs[1..])
  {
  }

  lemma Number16(m: Memory, o: nat)
    requires o + 2 <= |m|
    ensures Le16(m, o) == Number(m[o..o + 2])
  {
    NumberNext(m[o..o + 2]);
    assert m[o..o + 2][1..] == [m[o + 1]];
    NumberNext([m[o + 1]]);
  }

  lemma {:induction false} NumberJoin(a: seq<Byte>, b: seq<Byte>, n: nat)
    requires n == (if |a| == 2 then 0x1_0000 else 0x1_0000_0000) && (|a| == 2 || |a| == 4)
    ensures Number(a + b) == Number(a) + n * Number(b)
  {
    NumberShift(a, b);
    assert Power256(2) == 0x1_0000 && Power256(4) == 0x1_0000_0000;
  }

  function Power256(n: nat): nat {
    if n == 0 then 1 else 256 * Power256(n - 1)
  }

  lemma {:induction false} NumberShift(a: seq<Byte>, b: seq<Byte>)
    ensures Number(a + b) == Number(a) + Power256(|a|) * Number(b)
  {
    if a == [] {
      assert a + b == b;
    } else {
      assert (a + b)[1..] == a[1..] + b;
      NumberShift(a[1..], b);
      NumberNext(a + b);
      NumberNext(a);
      assert Power256(|a|) * Number(b) == 256 * (Power256(|a| - 1) * Number(b));
    }
  }

  lemma Number32(m: Memory, o: nat)
    requires o + 4 <= |m|
    ensures Le32(m, o) == Number(m[o..o + 4])
  {
    hide Le16, Number;
    Number16(m, o);
    Number16(m, o + 2);
    assert m[o..o + 4] == m[o..o + 2] + m[o + 2..o + 4];
    NumberJoin(m[o..o + 2], m[o + 2..o + 4], 0x1_0000);
  }

  lemma Number64(m: Memory, o: nat)
    requires o + 8 <= |m|
    ensures Le64(m, o) == Number(m[o..o + 8])
  {
    hide Le32, Number;
    Number32(m, o);
    Number32(m, o + 4);
    assert m[o..o + 8] == m[o..o + 4] + m[o + 4..o + 8];
    NumberJoin(m[o..o + 4], m[o + 4..o + 8], 0x1_0000_0000);
  }

  /* ---- descriptors and chains ---- */

  /** d is entry idx of the table: address, length, flags and next, in 16 bytes. */
  predicate IsDescriptor(m: Memory, num: nat, table: nat, idx: nat, d: Desc) {
    var o := table + 16 * idx - 0x8000_0000;
    && idx < num && 0 <= o && o + 16 <= |m|
    && d.addr == Number(m[o..o + 8]) && d.len == Number(m[o + 8..o + 12])
    && d.flags == Number(m[o + 12..o + 14]) && d.next == Number(m[o + 14..o + 16])
  }

  lemma DescriptorIs(m: Memory, num: nat, table: nat, idx: nat, d: Desc)
    ensures DescAt(m, num, table, idx) == Some(d) <==> IsDescriptor(m, num, table, idx, d)
  {
    hide Le16, Le32, Le64, Number;
    var o := table + 16 * idx - 0x8000_0000;
    if idx < num && 0 <= o && o + 16 <= |m| {
      Number64(m, o);
      Number32(m, o + 8);
      Number16(m, o + 12);
      Number16(m, o + 14);
    }
  }

  /** Descriptors linked by `next` while bit 0 of the flags is set, from entry idx to the first where it is not. */
  predicate IsChain(m: Memory, num: nat, table: nat, idx: nat, chain: seq<Desc>) {
    && |chain| > 0 && IsDescriptor(m, num, table, idx, chain[0])
    && (forall i :: 0 < i < |chain| ==> IsDescriptor(m, num, table, chain[i - 1].next, chain[i]))
    && (forall i :: 0 <= i < |chain| ==> chain[i].flags / 4 % 2 == 0 && (chain[i].flags % 2 == 1 <==> i < |chain| - 1))
  }

  lemma ChainTail(m: Memory, num: nat, table: nat, idx: nat, chain: seq<Desc>)
    ensures IsChain(m, num, table, idx, chain) <==>
            && |chain| > 0 && IsDescriptor(m, num, table, idx, chain[0]) && chain[0].flags / 4 % 2 == 0
            && if chain[0].flags % 2 == 1 then IsChain(m, num, table, chain[0].next, chain[1..]) else |chain| == 1
  {
    hide IsDescriptor;
    if |chain| > 1 {
      var rest := chain[1..];
      assert forall i :: 0 <= i < |rest| ==> rest[i] == chain[i + 1];
      assert forall i :: 1 <= i < |chain| ==> chain[i] == rest[i - 1];
    }
  }

  /** The chain the device collects from a head is the one linked there, if it is no longer than it may be. */
  lemma {:induction false} ChainIs(m: Memory, num: nat, table: nat, idx: nat, most: nat, chain: seq<Desc>)
    ensures ChainFrom(m, num, table, idx, most) == Some(chain) <==> IsChain(m, num, table, idx, chain) && |chain| <= most
    decreases most
  {
    hide DescAt, IsDescriptor, IsChain;
    ChainTail(m, num, table, idx, chain);
    if most > 0 && chain != [] {
      DescriptorIs(m, num, table, idx, chain[0]);
      assert |chain| == 1 ==> chain == [chain[0]];
      if chain[0].flags % 2 == 1 {
        var r := ChainFrom(m, num, table, chain[0].next, most - 1);
        ChainIs(m, num, table, chain[0].next, most - 1, chain[1..]);
        assert [chain[0]] + chain[1..] == chain;
        assert r.Some? ==> ([chain[0]] + r.value)[1..] == r.value;
      }
      if DescAt(m, num, table, idx).Some? {
        assert ChainFrom(m, num, table, idx, most).Some? ==>
            ChainFrom(m, num, table, idx, most).value[0] == DescAt(m, num, table, idx).value;
      }
    }
  }

  /* ---- the two rings ---- */

  /** The available ring: flags, an index counting what the driver has offered, and two bytes a head. */
  lemma AvailableIs(m: Memory, o: nat, num: nat, from: nat, n: nat, k: nat)
    requires num > 0 && o + 4 + 2 * num <= |m| && k < n
    ensures Waiting(m, o, from) == (Number(m[o + 2..o + 4]) - from) % 0x1_0000
    ensures var at := o + 4 + 2 * ((from + k) % 0x1_0000 % num);
            at + 2 <= |m| && Heads(m, o, num, from, n)[k] == Number(m[at..at + 2])
    decreases n
  {
    hide Number, Le16;
    Number16(m, o + 2);
    WaitingIs(m, o, from);
    var slot := (from + k) % 0x1_0000 % num;
    SlotFits(slot, num);
    Number16(m, o + 4 + 2 * slot);
    if k < n - 1 {
      AvailableIs(m, o, num, from, n - 1, k);
    }
  }

  lemma WaitingIs(m: Memory, o: nat, from: nat)
    requires o + 4 <= |m|
    ensures Waiting(m, o, from) == (Le16(m, o + 2) - from) % 0x1_0000
  {
    hide Le16;
    var x, q := Le16(m, o + 2), from / 0x1_0000;
    assert from == 0x1_0000 * q + from % 0x1_0000;
    SameModulo(x - from % 0x1_0000, q);
  }

  lemma SameModulo(a: int, q: int)
    ensures (a - 0x1_0000 * q) % 0x1_0000 == a % 0x1_0000
  {
  }

  /** The used ring: flags, an index counting what was published, and eight bytes an element, head and length. */
  lemma UsedIs(m: Memory, o: nat, num: nat, used: seq<Used>, i: nat)
    requires num > 0 && o + 4 + 8 * num <= |m| && Shows(m, o, num, used)
    ensures Number(m[o + 2..o + 4]) == |used| % 0x1_0000
    ensures 0x1_0000 % num == 0 && i < |used| <= i + num ==>
              var at := o + 4 + 8 * (i % num);
              at + 8 <= |m| && used[i] == Used(Number(m[at..at + 4]), Number(m[at + 4..at + 8]))
  {
    hide Number, Le16, Le32;
    Number16(m, o + 2);
    if 0x1_0000 % num == 0 && i < |used| <= i + num {
      SlotIs(i, num);
      var at := o + 4 + 8 * (i % num);
      Number32(m, at);
      Number32(m, at + 4);
      assert UsedAt(m, o, num, i) == used[i];
    }
  }

  /* ---- block requests ---- */

  /** Where byte k of the readable descriptors at the head of a chain is. */
  function PlaceOf(chain: seq<Desc>, k: nat): Option<nat> {
    if chain == [] || chain[0].flags / 2 % 2 == 1 then None
    else if k < chain[0].len then Some(chain[0].addr + k)
    else PlaceOf(chain[1..], k - chain[0].len)
  }

  /** Fewer than `need` bytes were made readable. */
  ghost predicate TooShort(chain: seq<Desc>, need: nat) {
    exists k: nat :: k < need && PlaceOf(chain, k).None?
  }

  /** A readable buffer is not wholly in RAM. */
  ghost predicate LeavesRam(m: Memory, chain: seq<Desc>) {
    exists i :: 0 <= i < |chain| && chain[i].flags / 2 % 2 == 0
                && !(0x8000_0000 <= chain[i].addr && chain[i].addr + chain[i].len <= 0x8000_0000 + |m|)
  }

  /** The header is the first 16 bytes the driver made readable, however it split them. */
  lemma {:induction false} HeaderIs(m: Memory, chain: seq<Desc>, need: nat)
    ensures var h := VirtioBlk.Header(m, chain, need);
            && (h.Some? ==> forall k :: 0 <= k < need ==>
                  && PlaceOf(chain, k).Some? && 0x8000_0000 <= PlaceOf(chain, k).value < 0x8000_0000 + |m|
                  && h.value[k] == m[PlaceOf(chain, k).value - 0x8000_0000])
            && (h.None? ==> TooShort(chain, need) || LeavesRam(m, chain))
    decreases |chain|
  {
    hide PlaceOf, TooShort, LeavesRam;
    if need > 0 {
      NoneReadable(chain, need);
      if chain != [] && chain[0].flags / 2 % 2 == 0 {
        var take := if chain[0].len < need then chain[0].len else need;
        var rest := chain[1..];
        HeaderIs(m, rest, need - take);
        forall k: nat | k < need
          ensures PlaceOf(chain, k) == if k < take then Some(chain[0].addr + k) else PlaceOf(rest, k - take)
        {
          PlaceNext(chain, k);
        }
        TailMissing(m, chain, need, take);
      }
    }
  }

  lemma TailMissing(m: Memory, chain: seq<Desc>, need: nat, take: nat)
    requires chain != [] && chain[0].flags / 2 % 2 == 0 && take == if chain[0].len < need then chain[0].len else need
    ensures TooShort(chain[1..], need - take) ==> TooShort(chain, need)
    ensures LeavesRam(m, chain[1..]) ==> LeavesRam(m, chain)
    ensures PhysPtr(|m|, chain[0].addr, take).None? ==> LeavesRam(m, chain)
  {
    hide PlaceOf;
    var rest := chain[1..];
    if TooShort(rest, need - take) {
      var k: nat :| k < need - take && PlaceOf(rest, k).None?;
      PlaceNext(chain, k + take);
    }
    if LeavesRam(m, rest) {
      var i :| 0 <= i < |rest| && rest[i].flags / 2 % 2 == 0
               && !(0x8000_0000 <= rest[i].addr && rest[i].addr + rest[i].len <= 0x8000_0000 + |m|);
      assert chain[i + 1] == rest[i];
    }
  }

  lemma NoneReadable(chain: seq<Desc>, need: nat)
    ensures need > 0 && (chain == [] || chain[0].flags / 2 % 2 == 1) ==> TooShort(chain, need)
  {
    PlaceNone(chain, 0);
  }

  lemma PlaceNone(chain: seq<Desc>, k: nat)
    ensures chain == [] || chain[0].flags / 2 % 2 == 1 ==> PlaceOf(chain, k).None?
  {
  }

  lemma PlaceNext(chain: seq<Desc>, k: nat)
    requires chain != [] && chain[0].flags / 2 % 2 == 0
    ensures PlaceOf(chain, k) ==
            if k < chain[0].len then Some(chain[0].addr + k) else PlaceOf(chain[1..], k - chain[0].len)
  {
  }

  /**
   A request is well formed if a chain of at most 260 descriptors is linked from its head, 16 bytes of header are to be
   had, and the last device-writable buffer has a byte of RAM for the status.
   */
  lemma WellFormedIs(m: Memory, num: nat, table: nat, head: nat, chain: seq<Desc>, hdr: seq<Byte>, last: nat)
    requires last < |chain| && chain[last].flags / 2 % 2 == 1
    requires forall k :: last < k < |chain| ==> chain[k].flags / 2 % 2 == 0
    ensures VirtioBlk.WellFormed(m, num, table, head, chain, hdr) <==>
            && IsChain(m, num, table, head, chain) && |chain| <= 260 && VirtioBlk.Header(m, chain, 16) == Some(hdr)
            && chain[last].len >= 1 && 0 <= chain[last].addr - 0x8000_0000 < |m|
  {
    hide IsChain, ChainFrom, VirtioBlk.Header, VirtioBlk.LastWritable;
    ChainIs(m, num, table, head, 260, chain);
    LastIs(chain, last);
  }

  lemma LastIs(chain: seq<Desc>, last: nat)
    requires last < |chain| && chain[last].flags / 2 % 2 == 1
    requires forall k :: last < k < |chain| ==> chain[k].flags / 2 % 2 == 0
    ensures VirtioBlk.LastWritable(chain) == last
  {
    hide VirtioBlk.LastWritable;
    var i := VirtioBlk.LastWritable(chain);
    assert Has(chain[last], WRITE);
  }

  /* ---- network frames ---- */

  /** Where the frame is: past 12 bytes of header, and no more than 1514 bytes of it. */
  function FramePlaces(ps: seq<nat>): seq<nat> {
    if |ps| <= 12 then [] else if |ps| <= 1526 then ps[12..] else ps[12..1526]
  }

  /**
   What a transmit chain puts on the wire: the bytes of its readable descriptors past the header, cut at 1514, if they
   are all in RAM, at least an Ethernet header, and no length wraps the device's sum; otherwise nothing.
   */
  lemma SentIs(m: Memory, num: nat, table: nat, head: nat, chain: seq<Desc>)
    requires |m| <= 0x8000_0000 && IsChain(m, num, table, head, chain) && |chain| <= 20
    ensures var sent, fs := VirtioNet.Sends(m, num, table, head), FramePlaces(VirtioNet.Places(chain));
            if && |fs| >= 14 && !VirtioNet.Wraps(chain, 12, 0)
               && forall i :: 0 <= i < |fs| ==> 0 <= fs[i] - 0x8000_0000 < |m|
            then
              |sent| == 1 && |sent[0]| == |fs| && forall i :: 0 <= i < |fs| ==> sent[0][i] == m[fs[i] - 0x8000_0000]
            else sent == []
  {
    hide IsChain, ChainFrom, VirtioNet.Places, VirtioNet.Assemble, VirtioNet.Wraps, VirtioNet.BytesAt;
    ChainIs(m, num, table, head, 20, chain);
    ChainLengths(m, num, table, head, 20);
    VirtioNet.FrameIsPayload(m, chain, 12, []);
    assert VirtioNet.Needed(chain, 12, 0) == FramePlaces(VirtioNet.Places(chain));
  }

  /** A head with no chain of at most 20 descriptors sends nothing. */
  lemma NothingSent(m: Memory, num: nat, table: nat, head: nat)
    requires |m| <= 0x8000_0000 && forall chain :: IsChain(m, num, table, head, chain) ==> |chain| > 20
    ensures VirtioNet.Sends(m, num, table, head) == []
  {
    hide IsChain, ChainFrom;
    var c := ChainFrom(m, num, table, head, 20);
    if c.Some? {
      ChainIs(m, num, table, head, 20, c.value);
    }
  }
}
