/** The virtio network device: frames out of transmit chains, frames into receive chains. */
module VirtioNet {
  import opened Basics
  import opened PageWalk
  import opened Virtqueue

  const MAX_CHAIN := 20
  const HDR_LEN := 12
  const FRAME_MAX := 1514
  const ETH_HDR := 14
  const BUDGET := 8
  /** RAM begins half way up a 32-bit physical address space. */
  const RAM_MAX := 0x8000_0000

  function Min(a: nat, b: nat): nat {
    if a < b then a else b
  }

  predicate Sized(chain: seq<Desc>) {
    forall k :: 0 <= k < |chain| ==> chain[k].len < 0x1_0000_0000
  }

  /* ---- transmit ---- */

  /** How much of len more bytes the frame takes, the sum compared in 32 bits. */
  function Room(have: nat, len: nat): (r: nat)
    requires have <= FRAME_MAX && len < 0x1_0000_0000
    ensures r <= len
  {
    if (have + len) % 0x1_0000_0000 > FRAME_MAX then FRAME_MAX - have else len
  }

  /** The frame so far, and what the rest of the chain adds once `skip` more readable bytes are passed over. */
  function Assemble(m: Memory, chain: seq<Desc>, skip: nat, frame: seq<Byte>): (r: Option<seq<Byte>>)
    requires Sized(chain) && |frame| <= FRAME_MAX && |m| <= RAM_MAX
    decreases |chain|
  {
    if chain == [] then Some(frame)
    else if Has(chain[0], WRITE) then Assemble(m, chain[1..], skip, frame)
    else if skip >= chain[0].len then Assemble(m, chain[1..], skip - chain[0].len, frame)
    else
      var take := Room(|frame|, chain[0].len - skip);
      if take == 0 then Assemble(m, chain[1..], 0, frame)
      else
        match PhysPtr(|m|, chain[0].addr + skip, take)
        case None => None
        case Some(o) => Assemble(m, chain[1..], 0, frame + m[o..o + take])
  }

  /** The addresses of n bytes from a on. */
  function Span(a: nat, n: nat): (s: seq<nat>)
    ensures |s| == n && forall i :: 0 <= i < n ==> s[i] == a + i
  {
    seq(n, (i: nat) => a + i)
  }

  /** Where the bytes of the device-readable descriptors are, one after the other. */
  function Places(chain: seq<Desc>): seq<nat> {
    if chain == [] then []
    else if Has(chain[0], WRITE) then Places(chain[1..])
    else Span(chain[0].addr, chain[0].len) + Places(chain[1..])
  }

  function Drop(s: seq<nat>, n: nat): seq<nat> {
    if n <= |s| then s[n..] else []
  }

  function Cut(s: seq<nat>, room: nat): (r: seq<nat>)
    ensures |r| <= room
  {
    s[..Min(|s|, room)]
  }

  /** Where the bytes are that a frame of `have` bytes still takes from the chain, cut at 1514. */
  function Needed(chain: seq<Desc>, skip: nat, have: nat): seq<nat>
    requires have <= FRAME_MAX
  {
    Cut(Drop(Places(chain), skip), FRAME_MAX - have)
  }

  predicate AllIn(size: nat, ps: seq<nat>) {
    forall i :: 0 <= i < |ps| ==> RAM_BASE <= ps[i] < RAM_BASE + size
  }

  function BytesAt(m: Memory, ps: seq<nat>): (bs: seq<Byte>)
    requires AllIn(|m|, ps)
    ensures |bs| == |ps| && forall i :: 0 <= i < |ps| ==> bs[i] == m[ps[i] - RAM_BASE]
  {
    if ps == [] then [] else [m[ps[0] - RAM_BASE]] + BytesAt(m, ps[1..])
  }

  /** The 32-bit sum of the frame so far and what a readable descriptor still has wraps at some descriptor. */
  predicate Wraps(chain: seq<Desc>, skip: nat, have: nat)
    requires have <= FRAME_MAX
  {
    if chain == [] then false
    else
      var d, rest := chain[0], chain[1..];
      if Has(d, WRITE) then Wraps(rest, skip, have)
      else if skip >= d.len then Wraps(rest, skip - d.len, have)
      else have + (d.len - skip) >= 0x1_0000_0000 || Wraps(rest, 0, have + Min(d.len - skip, FRAME_MAX - have))
  }

  lemma BytesJoin(m: Memory, a: seq<nat>, b: seq<nat>)
    ensures AllIn(|m|, a + b) <==> AllIn(|m|, a) && AllIn(|m|, b)
    ensures AllIn(|m|, a + b) ==> BytesAt(m, a + b) == BytesAt(m, a) + BytesAt(m, b)
  {
    hide AllIn, BytesAt;
    AllInJoin(|m|, a, b);
    if AllIn(|m|, a + b) {
      var bs := BytesAt(m, a) + BytesAt(m, b);
      assert |BytesAt(m, a + b)| == |bs|;
      assert BytesAt(m, a + b) == bs;
    }
  }

  lemma AllInJoin(size: nat, a: seq<nat>, b: seq<nat>)
    ensures AllIn(size, a + b) <==> AllIn(size, a) && AllIn(size, b)
  {
    if AllIn(size, a + b) {
      assert forall i :: 0 <= i < |a| ==> a[i] == (a + b)[i];
      assert forall i :: 0 <= i < |b| ==> b[i] == (a + b)[|a| + i];
    }
  }

  lemma SpanBytes(m: Memory, a: nat, n: nat)
    requires n > 0
    ensures AllIn(|m|, Span(a, n)) <==> PhysPtr(|m|, a, n).Some?
    ensures AllIn(|m|, Span(a, n)) ==> BytesAt(m, Span(a, n)) == m[a - RAM_BASE..a - RAM_BASE + n]
  {
    var s := Span(a, n);
    if AllIn(|m|, s) {
      assert s[0] == a && s[n - 1] == a + n - 1;
    }
  }

  /** What is needed of the first readable descriptor, and then of the rest. */
  lemma NeededStep(chain: seq<Desc>, skip: nat, have: nat)
    requires chain != [] && have <= FRAME_MAX
    ensures var d, rest := chain[0], chain[1..];
            Needed(chain, skip, have) ==
            if Has(d, WRITE) then Needed(rest, skip, have)
            else if skip >= d.len then Needed(rest, skip - d.len, have)
            else
              var take := Min(d.len - skip, FRAME_MAX - have);
              Span(d.addr + skip, take) + Needed(rest, 0, have + take)
  {
    if !Has(chain[0], WRITE) && skip < chain[0].len {
      var d, rest := chain[0], Places(chain[1..]);
      var take := Min(d.len - skip, FRAME_MAX - have);
      DropSpan(d.addr, d.len, rest, skip);
      assert Drop(rest, 0) == rest;
      CutSpan(d.addr + skip, d.len - skip, rest, FRAME_MAX - have);
    } else if !Has(chain[0], WRITE) {
      var d, rest := chain[0], Places(chain[1..]);
      assert Drop(Span(d.addr, d.len) + rest, skip) == Drop(rest, skip - d.len);
    }
  }

  lemma DropSpan(a: nat, n: nat, rest: seq<nat>, skip: nat)
    requires skip < n
    ensures Drop(Span(a, n) + rest, skip) == Span(a + skip, n - skip) + rest
  {
  }

  lemma CutSpan(a: nat, n: nat, rest: seq<nat>, room: nat)
    ensures var take := Min(n, room);
            Cut(Span(a, n) + rest, room) == Span(a, take) + Cut(rest, room - take)
  {
  }

  /**
   However the driver splits it, the frame sent is what the readable descriptors hold after the 12-byte header, cut at
   1514 bytes. There is one exactly when all those bytes are in RAM and no descriptor's length wraps the sum.
   */
  lemma {:induction false} FrameIsPayload(m: Memory, chain: seq<Desc>, skip: nat, frame: seq<Byte>)
    requires Sized(chain) && |frame| <= FRAME_MAX && |m| <= RAM_MAX
    ensures var r, ps := Assemble(m, chain, skip, frame), Needed(chain, skip, |frame|);
            && (r.Some? <==> AllIn(|m|, ps) && !Wraps(chain, skip, |frame|))
            && (r.Some? ==> r.value == frame + BytesAt(m, ps))
    decreases |chain|
  {
    hide Room, Needed, BytesAt, AllIn, Span, PhysPtr, Assemble, Wraps;
    if chain == [] {
      NothingNeeded(m, skip, frame);
      AssembleEnd(m, frame, skip);
      WrapsEnd(skip, |frame|);
    } else {
      var d, rest := chain[0], chain[1..];
      NeededStep(chain, skip, |frame|);
      WrapsStep(chain, skip, |frame|);
      assert chain[0..] == chain;
      AssembleStep(m, chain, 0, skip, frame);
      if Has(d, WRITE) {
        FrameIsPayload(m, rest, skip, frame);
      } else if skip >= d.len {
        FrameIsPayload(m, rest, skip - d.len, frame);
      } else {
        RoomIs(|frame|, d.len - skip);
        var take := Min(d.len - skip, FRAME_MAX - |frame|);
        if |frame| + (d.len - skip) >= 0x1_0000_0000 {
          TooLong(|m|, d.addr + skip, d.len - skip);
        } else if take == 0 {
          assert Span(d.addr + skip, 0) == [];
          assert [] + Needed(rest, 0, |frame|) == Needed(rest, 0, |frame|);
          FrameIsPayload(m, rest, 0, frame);
        } else {
          if PhysPtr(|m|, d.addr + skip, take).Some? {
            FrameIsPayload(m, rest, 0, frame + m[d.addr + skip - RAM_BASE..d.addr + skip - RAM_BASE + take]);
          }
          PayloadOn(m, d.addr + skip, take, Needed(rest, 0, |frame| + take), frame);
        }
      }
    }
  }

  lemma WrapsEnd(skip: nat, have: nat)
    requires have <= FRAME_MAX
    ensures !Wraps([], skip, have)
  {
  }

  lemma WrapsStep(chain: seq<Desc>, skip: nat, have: nat)
    requires chain != [] && have <= FRAME_MAX
    ensures var d, rest := chain[0], chain[1..];
            Wraps(chain, skip, have) <==>
            if Has(d, WRITE) then Wraps(rest, skip, have)
            else if skip >= d.len then Wraps(rest, skip - d.len, have)
            else have + (d.len - skip) >= 0x1_0000_0000 || Wraps(rest, 0, have + Min(d.len - skip, FRAME_MAX - have))
  {
  }

  /** The bytes taken from one descriptor, before those of the rest. */
  lemma PayloadOn(m: Memory, a: nat, take: nat, rest: seq<nat>, frame: seq<Byte>)
    requires take > 0
    ensures AllIn(|m|, Span(a, take) + rest) <==> PhysPtr(|m|, a, take).Some? && AllIn(|m|, rest)
    ensures AllIn(|m|, Span(a, take) + rest) ==>
              frame + BytesAt(m, Span(a, take) + rest) == frame + m[a - RAM_BASE..a - RAM_BASE + take] + BytesAt(m, rest)
  {
    hide AllIn, Span, BytesAt, PhysPtr;
    SpanBytes(m, a, take);
    BytesJoin(m, Span(a, take), rest);
  }

  lemma NothingNeeded(m: Memory, skip: nat, frame: seq<Byte>)
    requires |frame| <= FRAME_MAX
    ensures AllIn(|m|, Needed([], skip, |frame|)) && frame + BytesAt(m, Needed([], skip, |frame|)) == frame
  {
  }

  /** The 32-bit sum cuts at 1514 unless it wraps, and then asks for more than there is RAM. */
  lemma RoomIs(have: nat, len: nat)
    requires have <= FRAME_MAX && len < 0x1_0000_0000
    ensures Room(have, len) == if have + len < 0x1_0000_0000 then Min(len, FRAME_MAX - have) else len
    ensures have + len >= 0x1_0000_0000 ==> len > RAM_MAX
  {
  }

  lemma TooLong(size: nat, a: nat, len: nat)
    requires size < len
    ensures PhysPtr(size, a, len).None?
  {
  }

  /** A chain that sends nothing, although its first byte past the header and the 1513 needed after it are all in RAM. */
  const WRAPPING := [Desc(RAM_BASE, HDR_LEN + 1, 0, 0), Desc(RAM_BASE, 0xFFFF_FFFF, 0, 0)]

  lemma WrappingSendsNothing(m: Memory)
    requires FRAME_MAX <= |m| <= RAM_MAX
    ensures Sized(WRAPPING) && AllIn(|m|, Needed(WRAPPING, HDR_LEN, 0)) && |Needed(WRAPPING, HDR_LEN, 0)| == FRAME_MAX
    ensures Assemble(m, WRAPPING, HDR_LEN, []) == None
  {
    hide Assemble, Span, AllIn, Needed, Wraps;
    FrameIsPayload(m, WRAPPING, HDR_LEN, []);
    WrappingNeeds();
    WrappingWraps();
    SpanBytes(m, RAM_BASE + HDR_LEN, 1);
    SpanBytes(m, RAM_BASE, FRAME_MAX - 1);
    AllInJoin(|m|, Span(RAM_BASE + HDR_LEN, 1), Span(RAM_BASE, FRAME_MAX - 1));
  }

  lemma WrappingNeeds()
    ensures Needed(WRAPPING, HDR_LEN, 0) == Span(RAM_BASE + HDR_LEN, 1) + Span(RAM_BASE, FRAME_MAX - 1)
  {
    hide Span, Needed;
    var first, second := WRAPPING[0], WRAPPING[1];
    assert WRAPPING[1..] == [second] && [second][1..] == [];
    NeededStep(WRAPPING, HDR_LEN, 0);
    NeededStep([second], 0, 1);
    NothingMore();
    var b := Span(RAM_BASE, FRAME_MAX - 1);
    assert b + [] == b;
  }

  lemma WrappingWraps()
    ensures Wraps(WRAPPING, HDR_LEN, 0)
  {
    hide Wraps;
    var second := WRAPPING[1];
    assert WRAPPING[1..] == [second] && [second][1..] == [];
    WrapsStep(WRAPPING, HDR_LEN, 0);
    WrapsStep([second], 0, 1);
  }

  lemma NothingMore()
    ensures Needed([], 0, FRAME_MAX) == []
  {
  }

  /** What one transmit chain puts on the wire: a frame, or nothing. */
  function Sends(m: Memory, num: nat, table: nat, head: nat): (r: seq<seq<Byte>>)
    requires |m| <= RAM_MAX
    ensures |r| <= 1
  {
    match ChainFrom(m, num, table, head, MAX_CHAIN)
    case None => []
    case Some(chain) =>
      if !Sized(chain) then []
      else
        match Assemble(m, chain, HDR_LEN, [])
        case None => []
        case Some(frame) => if |frame| >= ETH_HDR then [frame] else []
  }

  predicate Small(ms: seq<Memory>) {
    forall k :: 0 <= k < |ms| ==> |ms[k]| <= RAM_MAX
  }

  /** The wire after the chains `heads`, the i-th read from memory ms[i]. */
  ghost function Wire(ms: seq<Memory>, num: nat, table: nat, heads: seq<nat>): seq<seq<Byte>>
    requires |heads| <= |ms| && Small(ms)
  {
    if heads == [] then []
    else
      var n := |heads| - 1;
      Wire(ms, num, table, heads[..n]) + Sends(ms[n], num, table, heads[n])
  }

  lemma {:induction false} WireMore(ms: seq<Memory>, m: Memory, num: nat, table: nat, heads: seq<nat>)
    requires |heads| <= |ms| && Small(ms) && |m| <= RAM_MAX
    ensures Wire(ms + [m], num, table, heads) == Wire(ms, num, table, heads)
    decreases |heads|
  {
    if heads != [] {
      WireMore(ms, m, num, table, heads[..|heads| - 1]);
    }
  }

  lemma WireNext(ms: seq<Memory>, m: Memory, num: nat, table: nat, heads: seq<nat>, head: nat)
    requires |ms| == |heads| + 1 && Small(ms) && |m| <= RAM_MAX
    ensures Wire(ms + [m], num, table, heads + [head]) ==
            Wire(ms, num, table, heads) + Sends(ms[|heads|], num, table, head)
  {
    hide Sends;
    assert (heads + [head])[..|heads|] == heads;
    WireMore(ms, m, num, table, heads);
  }

  /* ---- receive ---- */

  /** virtio_net_hdr: all zero but num_buffers = 1. */
  const RX_HDR: seq<Byte> := [0, 0, 0, 0, 0, 0, 0, 0, 0, 0, 1, 0]

  /** What a buffer that ends outside RAM is left with: its part of the header, if that much lies inside. */
  function Torn(m: Memory, d: Desc, p: seq<Byte>, pos: nat): Memory
    requires HDR_LEN <= |p|
  {
    var n := if pos < HDR_LEN then Min(HDR_LEN - pos, d.len) else 0;
    if n > 0 && PhysPtr(|m|, d.addr, n).Some? then Put(m, d.addr - RAM_BASE, p[pos..pos + n]) else m
  }

  /** The packet p from pos on into the writable descriptors, as far as they reach: success, memory, and the new pos. */
  function Fill(m: Memory, chain: seq<Desc>, p: seq<Byte>, pos: nat): (r: (bool, Memory, nat))
    requires HDR_LEN <= |p|
    ensures |r.1| == |m|
    decreases |chain|
  {
    if chain == [] || pos >= |p| then (true, m, pos)
    else if !Has(chain[0], WRITE) then Fill(m, chain[1..], p, pos)
    else
      var n := Min(chain[0].len, |p| - pos);
      if n == 0 && pos >= HDR_LEN then Fill(m, chain[1..], p, pos)
      else
        match PhysPtr(|m|, chain[0].addr, n)
        case None => (false, Torn(m, chain[0], p, pos), pos)
        case Some(o) => Fill(Put(m, o, p[pos..pos + n]), chain[1..], p, pos + n)
  }

  /** The chain's writable buffers, one after the other, begin with bs. */
  predicate Holds(m: Memory, chain: seq<Desc>, bs: seq<Byte>) {
    || bs == []
    || (&& chain != []
        && if !Has(chain[0], WRITE) then Holds(m, chain[1..], bs)
           else
             var n := Min(chain[0].len, |bs|);
             (n == 0 || At(m, chain[0].addr, bs[..n])) && Holds(m, chain[1..], bs[n..]))
  }

  predicate At(m: Memory, addr: nat, bs: seq<Byte>) {
    var o := PhysPtr(|m|, addr, |bs|);
    o.Some? && m[o.value..o.value + |bs|] == bs
  }

  /** A delivery touches nothing but the buffers it was given. */
  lemma {:induction false} FillOutside(m: Memory, chain: seq<Desc>, p: seq<Byte>, pos: nat, k: nat)
    requires HDR_LEN <= |p| && k < |m| && !InBuffers(chain, k)
    ensures Fill(m, chain, p, pos).1[k] == m[k]
    decreases |chain|
  {
    if chain != [] && pos < |p| {
      BuffersTail(chain, k);
      var d := chain[0];
      if !Has(d, WRITE) {
        FillOutside(m, chain[1..], p, pos, k);
      } else {
        assert !Covers(d, k);
        var n := Min(d.len, |p| - pos);
        if n == 0 && pos >= HDR_LEN {
          FillOutside(m, chain[1..], p, pos, k);
        } else if PhysPtr(|m|, d.addr, n).Some? {
          PutByte(m, d.addr - RAM_BASE, p[pos..pos + n], k);
          FillOutside(Put(m, d.addr - RAM_BASE, p[pos..pos + n]), chain[1..], p, pos + n, k);
        }
      }
    }
  }

  /** The first buffer keeps what was put in it. */
  lemma FirstKept(m: Memory, chain: seq<Desc>, p: seq<Byte>, pos: nat, n: nat)
    requires HDR_LEN <= |p| && chain != [] && Has(chain[0], WRITE) && Disjoint(chain)
    requires n <= chain[0].len && pos + n <= |p| && PhysPtr(|m|, chain[0].addr, n).Some?
    ensures var m1 := Put(m, chain[0].addr - RAM_BASE, p[pos..pos + n]);
            At(Fill(m1, chain[1..], p, pos + n).1, chain[0].addr, p[pos..pos + n])
  {
    hide Put, Fill, InBuffers, Disjoint;
    var o := chain[0].addr - RAM_BASE;
    var m1 := Put(m, o, p[pos..pos + n]);
    var got, bs := Fill(m1, chain[1..], p, pos + n).1[o..o + n], p[pos..pos + n];
    forall j: nat | j < n
      ensures got[j] == bs[j]
    {
      FirstByteKept(m, chain, p, pos, n, j);
    }
    assert got == bs;
  }

  lemma FirstByteKept(m: Memory, chain: seq<Desc>, p: seq<Byte>, pos: nat, n: nat, j: nat)
    requires HDR_LEN <= |p| && chain != [] && Has(chain[0], WRITE) && Disjoint(chain)
    requires j < n <= chain[0].len && pos + n <= |p| && PhysPtr(|m|, chain[0].addr, n).Some?
    ensures var o := chain[0].addr - RAM_BASE;
            Fill(Put(m, o, p[pos..pos + n]), chain[1..], p, pos + n).1[o + j] == p[pos + j]
  {
    hide Put, Fill, InBuffers, Disjoint;
    var o := chain[0].addr - RAM_BASE;
    PutByte(m, o, p[pos..pos + n], o + j);
    FirstApart(chain, o + j);
    FillOutside(Put(m, o, p[pos..pos + n]), chain[1..], p, pos + n, o + j);
  }

  /**
   However the driver splits its buffer, a delivery that does not fail leaves in it, in order, the packet as far
   as it fits, and counts exactly what fits.
   */
  lemma {:induction false} DeliveryFillsBuffers(m: Memory, chain: seq<Desc>, p: seq<Byte>, pos: nat)
    requires HDR_LEN <= |p| && Disjoint(chain) && Fill(m, chain, p, pos).0 && pos <= |p|
    ensures var r := Fill(m, chain, p, pos);
            r.2 == Min(|p|, pos + Capacity(chain)) && Holds(r.1, chain, p[pos..r.2])
    decreases |chain|, 1
  {
    hide Put, At, PhysPtr;
    if chain != [] && pos < |p| {
      var d := chain[0];
      DisjointTail(chain);
      var n := Min(d.len, |p| - pos);
      if !Has(d, WRITE) {
        DeliveryFillsBuffers(m, chain[1..], p, pos);
      } else if n == 0 && pos >= HDR_LEN {
        DeliveryFillsBuffers(m, chain[1..], p, pos);
        var r := Fill(m, chain, p, pos);
        assert p[pos..r.2][0..] == p[pos..r.2];
      } else {
        FirstFilled(m, chain, p, pos, n);
      }
    }
  }

  /** The step that fills a buffer; the rest of the chain is the induction hypothesis. */
  lemma {:induction false} FirstFilled(m: Memory, chain: seq<Desc>, p: seq<Byte>, pos: nat, n: nat)
    requires HDR_LEN <= |p| && Disjoint(chain) && Fill(m, chain, p, pos).0 && pos < |p|
    requires chain != [] && Has(chain[0], WRITE) && n == Min(chain[0].len, |p| - pos) && !(n == 0 && pos >= HDR_LEN)
    ensures var r := Fill(m, chain, p, pos);
            r.2 == Min(|p|, pos + Capacity(chain)) && Holds(r.1, chain, p[pos..r.2])
    decreases |chain|, 0
  {
    hide Put, At, Holds;
    DisjointTail(chain);
    var m1 := Put(m, chain[0].addr - RAM_BASE, p[pos..pos + n]);
    DeliveryFillsBuffers(m1, chain[1..], p, pos + n);
    FirstKept(m, chain, p, pos, n);
    var rest := Fill(m1, chain[1..], p, pos + n);
    HoldsMore(rest.1, chain, p, pos, n, rest.2);
  }

  lemma DisjointTail(chain: seq<Desc>)
    requires chain != [] && Disjoint(chain)
    ensures Disjoint(chain[1..])
  {
  }

  lemma HoldsMore(m: Memory, chain: seq<Desc>, p: seq<Byte>, pos: nat, n: nat, end: nat)
    requires chain != [] && Has(chain[0], WRITE) && pos + n <= end <= |p| && n == Min(chain[0].len, |p| - pos)
    requires At(m, chain[0].addr, p[pos..pos + n]) && Holds(m, chain[1..], p[pos + n..end])
    ensures Holds(m, chain, p[pos..end])
  {
    var bs := p[pos..end];
    assert bs[..n] == p[pos..pos + n] && bs[n..] == p[pos + n..end];
  }

  /** What the buffers hold depends on nothing else. */
  lemma {:induction false} HoldsSame(m: Memory, m': Memory, chain: seq<Desc>, bs: seq<Byte>)
    requires |m| == |m'| && Holds(m, chain, bs) && forall k: nat :: k < |m| && InBuffers(chain, k) ==> m'[k] == m[k]
    ensures Holds(m', chain, bs)
    decreases |chain|
  {
    if bs != [] {
      TailSame(m, m', chain);
      if !Has(chain[0], WRITE) {
        HoldsSame(m, m', chain[1..], bs);
      } else {
        var n := Min(chain[0].len, |bs|);
        HoldsSame(m, m', chain[1..], bs[n..]);
        FirstSame(m, m', chain, n);
      }
    }
  }

  /** What rx_deliver's chain does to memory, and the length reported, when it reaches the used ring. */
  function Delivered(m: Memory, num: nat, table: nat, head: nat, frame: seq<Byte>): (r: Option<(bool, Memory, nat)>)
    ensures r.Some? ==> |r.value.1| == |m|
  {
    match ChainFrom(m, num, table, head, MAX_CHAIN)
    case None => None
    case Some(chain) => Some(Fill(m, chain, RX_HDR + frame, 0))
  }

  /** The receive queue before and after a delivery that came to r. */
  datatype Ends = Ends(m: Memory, m': Memory, taken: seq<nat>, taken': seq<nat>, used: seq<Used>, used': seq<Used>)

  /**
   A bad chain is given back empty and the frame lost; a buffer outside RAM loses the frame and leaves the chain
   to be tried again; otherwise the chain is published with the length of what was put in it.
   */
  ghost predicate EndsAs(r: Option<(bool, Memory, nat)>, ok: bool, head: nat, usedAt: nat, num: nat, e: Ends) {
    && ok == (r.Some? && r.value.0)
    && (r.Some? && !r.value.0 ==> e.taken' == e.taken && e.used' == e.used && e.m' == r.value.1)
    && (r.None? || r.value.0 ==>
          && e.taken' == e.taken + [head] && e.used' == e.used + [Used(head, if ok then r.value.2 else 0)]
          && SameOutside(if ok then r.value.1 else e.m, e.m', usedAt, 4 + 8 * num))
  }

  lemma EndsTaken(r: Option<(bool, Memory, nat)>, ok: bool, head: nat, usedAt: nat, num: nat, e: Ends)
    requires EndsAs(r, ok, head, usedAt, num, e)
    ensures e.taken' == e.taken || e.taken' == e.taken + [head]
  {
  }

  /**
   A delivery as the driver sees it once the chain is published: its buffers, apart from each other and off the used
   ring, hold the header and the frame as far as they fit, and the length reported is what fits.
   */
  lemma DeliveredToDriver(num: nat, table: nat, usedAt: nat, frame: seq<Byte>, head: nat, chain: seq<Desc>, e: Ends)
    requires ChainFrom(e.m, num, table, head, MAX_CHAIN) == Some(chain) && Disjoint(chain) && OffUsed(chain, usedAt, num)
    requires EndsAs(Delivered(e.m, num, table, head, frame), true, head, usedAt, num, e)
    ensures var p := [0, 0, 0, 0, 0, 0, 0, 0, 0, 0, 1, 0] + frame;
            var n := if |p| <= Capacity(chain) then |p| else Capacity(chain);
            e.used' == e.used + [Used(head, n)] && Holds(e.m', chain, p[..n])
    ensures forall k: nat :: k < |e.m| && !InBuffers(chain, k) && !(usedAt <= k < usedAt + 4 + 8 * num) ==>
              e.m'[k] == e.m[k]
  {
    hide ChainFrom, Fill, Holds, InBuffers, Disjoint, Capacity;
    var p := RX_HDR + frame;
    var r := Fill(e.m, chain, p, 0);
    DeliveryFillsBuffers(e.m, chain, p, 0);
    HoldsSame(r.1, e.m', chain, p[..r.2]);
    forall k: nat | k < |e.m| && !InBuffers(chain, k) && !(usedAt <= k < usedAt + 4 + 8 * num)
      ensures e.m'[k] == e.m[k]
    {
      FillOutside(e.m, chain, p, 0, k);
    }
  }

  lemma NoneWaiting(m: Memory, o: nat, taken: nat)
    requires o + 4 <= |m|
    ensures Waiting(m, o, taken) == 0 <==> Le16(m, o + 2) == taken % 0x1_0000
  {
  }

  class Net {
    const rx: Queue
    const tx: Queue
    var intStatus: bv32
    var line: bool
    var driverOk: bool
    var txFrames: nat
    var rxFrames: nat
    var rxDropped: nat
    /** Everything handed to the wire. */
    var sent: seq<seq<Byte>>

    constructor (rxQueue: Queue, txQueue: Queue)
      ensures rx == rxQueue && tx == txQueue && intStatus == 0 && !line && !driverOk && sent == []
      ensures txFrames == 0 && rxFrames == 0 && rxDropped == 0
    {
      rx, tx, intStatus, line, driverOk := rxQueue, txQueue, 0, false, false;
      txFrames, rxFrames, rxDropped, sent := 0, 0, 0, [];
    }

    predicate LineHolds()
      reads `intStatus, `line
    {
      line <==> intStatus != 0
    }

    /** Each queue's writes are kept away from the other queue. */
    ghost predicate Fenced()
      reads rx`num, rx`descAddr, rx`availAddr, rx`usedAddr, tx`num, tx`descAddr, tx`availAddr, tx`usedAddr
    {
      && (forall k: nat :: k < rx.ram.Length && tx.InOwn(k) ==> k in rx.guarded)
      && (forall k: nat :: k < rx.ram.Length && rx.InOwn(k) ==> k in tx.guarded)
    }

    /** What holds between any two operations. */
    ghost predicate Sound()
      reads `intStatus, `line, rx, tx, rx.ram, tx.ram
    {
      && rx != tx && rx.ram == tx.ram && LineHolds() && (rx.ready && tx.ready ==> Fenced())
      && (tx.ready ==> tx.Kept(0)) && (rx.ready ==> rx.Kept(0) && rx.BuffersApart(rx.Mem()))
    }

    /** The chain published, and the interrupt raised unless the driver asked not to. */
    method Publish(q: Queue, head: nat, written: nat)
      requires q.Kept(1) && q.taken[|q.taken| - 1] == head < 0x1_0000 && written < 0x1_0000_0000 && LineHolds()
      modifies q.ram, q`used, `intStatus, `line
      ensures q.Kept(0) && q.used == old(q.used) + [Used(head, written)] && LineHolds()
      ensures SameOutside(old(q.Mem()), q.Mem(), q.usedAddr - RAM_BASE, 4 + 8 * q.num)
      ensures q.SameInputs(old(q.Mem()), q.Mem()) && (old(q.BuffersApart(q.Mem())) ==> q.BuffersApart(q.Mem()))
    {
      hide InOrder, Shows, Le16, Queue.InRings, Queue.IsInput, Queue.BuffersApart, Queue.SameInputs, SameOutside;
      ghost var m := q.Mem();
      var notify := q.Complete(head, written);
      q.UsedRingOnly(m, q.Mem());
      if notify {
        intStatus := intStatus | 1;
        line := true;
      }
    }

    /** The loop of tx_chain */
    method Frame(chain: seq<Desc>) returns (frame: Option<seq<Byte>>)
      requires Sized(chain) && tx.ram.Length <= RAM_MAX
      ensures frame == Assemble(tx.Mem(), chain, HDR_LEN, [])
    {
      hide Assemble, PhysPtr, Sized;
      var got: seq<Byte>, skip: nat, i: nat := [], HDR_LEN, 0;
      ghost var m := tx.Mem();
      assert chain[0..] == chain;
      while i < |chain|
        invariant 0 <= i <= |chain| && |got| <= FRAME_MAX && tx.Mem() == m
        invariant Sized(chain[i..]) && Assemble(m, chain[i..], skip, got) == Assemble(m, chain, HDR_LEN, [])
      {
        AssembleStep(m, chain, i, skip, got);
        var d := chain[i];
        i := i + 1;
        if Has(d, WRITE) {
          continue;
        }
        if skip >= d.len {
          skip := skip - d.len;
          continue;
        }
        var addr, len := d.addr + skip, d.len - skip;
        skip := 0;
        var take := if (|got| + len) % 0x1_0000_0000 > FRAME_MAX then FRAME_MAX - |got| else len;
        if take > 0 {
          var o := PhysPtr(tx.ram.Length, addr, take);
          if o.None? {
            return None;
          }
          got := got + tx.ram[o.value..o.value + take];
        }
      }
      assert chain[i..] == [];
      AssembleEnd(m, got, skip);
      return Some(got);
    }

    /** tx_chain */
    method TxChain(head: nat)
      requires tx.Kept(1) && tx.taken[|tx.taken| - 1] == head < 0x1_0000 && LineHolds() && tx.ram.Length <= RAM_MAX
      modifies tx.ram, tx`used, `intStatus, `line, `sent, `txFrames
      ensures tx.Kept(0) && LineHolds() && tx.used == old(tx.used) + [Used(head, 0)]
      ensures var s := Sends(old(tx.Mem()), tx.num, tx.descAddr, head);
              sent == old(sent) + s && txFrames == old(txFrames) + |s|
      ensures SameOutside(old(tx.Mem()), tx.Mem(), tx.usedAddr - RAM_BASE, 4 + 8 * tx.num)
      ensures tx.SameInputs(old(tx.Mem()), tx.Mem())
    {
      hide Queue.Kept, Queue.BuffersApart, Queue.SameInputs, SameOutside, ChainFrom, Assemble;
      var chain := tx.ChainCollect(head, MAX_CHAIN);
      if chain.None? {
        Publish(tx, head, 0);
        return;
      }
      ChainLengths(tx.Mem(), tx.num, tx.descAddr, head, MAX_CHAIN);
      var frame := Frame(chain.value);
      if frame.None? {
        Publish(tx, head, 0);
        return;
      }
      if |frame.value| >= ETH_HDR {
        sent := sent + [frame.value];
        txFrames := txFrames + 1;
      }
      Publish(tx, head, 0);
    }

    /** One turn of tx_notify's loop */
    method SendNext(ghost m: Memory) returns (ghost head: nat)
      requires tx.Kept(0) && LineHolds() && tx.ram.Length <= RAM_MAX
      requires |m| == tx.ram.Length && tx.SameInputs(m, tx.Mem())
      modifies tx.ram, tx`used, tx`taken, tx`lastAvail, `intStatus, `line, `sent, `txFrames
      ensures tx.Kept(0) && LineHolds() && tx.SameInputs(m, tx.Mem())
      ensures head == HeadAt(m, tx.availAddr - RAM_BASE, tx.num, old(|tx.taken|) % 0x1_0000 % tx.num)
      ensures tx.taken == old(tx.taken) + [head] && tx.used == old(tx.used) + [Used(head, 0)]
      ensures var s := Sends(old(tx.Mem()), tx.num, tx.descAddr, head);
              sent == old(sent) + s && txFrames == old(txFrames) + |s|
      ensures SameOutside(old(tx.Mem()), tx.Mem(), tx.usedAddr - RAM_BASE, 4 + 8 * tx.num)
    {
      hide InOrder, Shows, Queue.InRings, Queue.IsInput, Queue.SameInputs, SameOutside, Sends;
      var slot := tx.availAddr + 4 + tx.lastAvail % tx.num * 2;
      SlotFits(tx.lastAvail % tx.num, tx.num);
      var h := tx.Read16(slot);
      if h.None? {
        return;
      }
      head := h.value;
      tx.SameHead(m, tx.Mem(), tx.lastAvail % tx.num);
      tx.Take(h.value);
      ghost var before := tx.Mem();
      TxChain(h.value);
      tx.InputsOn(m, before, tx.Mem());
    }

    /** The loop of tx_notify; ms are the memories between its chains. */
    method SendAll() returns (ghost ms: seq<Memory>)
      requires tx.Kept(0) && LineHolds() && tx.ram.Length <= RAM_MAX
      modifies tx.ram, tx`used, tx`taken, tx`lastAvail, `intStatus, `line, `sent, `txFrames
      ensures tx.Kept(0) && LineHolds() && tx.SameInputs(old(tx.Mem()), tx.Mem())
      ensures var hs := Heads(old(tx.Mem()), tx.availAddr - RAM_BASE, tx.num, old(|tx.taken|),
                              Waiting(old(tx.Mem()), tx.availAddr - RAM_BASE, old(|tx.taken|)));
              && tx.taken == old(tx.taken) + hs && |ms| == |hs| + 1 && Small(ms)
              && sent == old(sent) + Wire(ms, tx.num, tx.descAddr, hs)
      ensures txFrames - old(txFrames) == |sent| - |old(sent)|
      ensures InUsedOnly(ms, tx.usedAddr - RAM_BASE, tx.num) && ms[0] == old(tx.Mem()) && ms[|ms| - 1] == tx.Mem()
    {
      hide InOrder, Shows, Le16, Queue.InRings, Queue.IsInput, Queue.SameInputs, Heads, HeadAt, Waiting, Sends, Wire,
           SameOutside;
      ghost var m, o, n0 := tx.Mem(), tx.availAddr - RAM_BASE, |tx.taken|;
      tx.SameInputsSelf(m);
      ms := [m];
      NoHeads(m, o, tx.num, n0);
      NoWire(ms, tx.num, tx.descAddr);
      var availIdx := tx.Read16(tx.availAddr + 2);
      if availIdx.None? {
        return;
      }
      ghost var done, hs := 0, [];
      while tx.lastAvail != availIdx.value
        invariant tx.Kept(0) && LineHolds() && tx.SameInputs(m, tx.Mem())
        invariant done <= Waiting(m, o, n0) && hs == Heads(m, o, tx.num, n0, done) && tx.taken == old(tx.taken) + hs
        invariant |ms| == done + 1 && Small(ms) && InUsedOnly(ms, tx.usedAddr - RAM_BASE, tx.num)
        invariant ms[0] == m && ms[done] == tx.Mem()
        invariant sent == old(sent) + Wire(ms, tx.num, tx.descAddr, hs) && txFrames - old(txFrames) == |sent| - |old(sent)|
        decreases Waiting(m, o, n0) - done
      {
        StillWaiting(m, o, n0, done);
        NextHead(m, o, tx.num, n0, done);
        ghost var head := SendNext(m);
        WireNext(ms, tx.Mem(), tx.num, tx.descAddr, hs, head);
        ms, hs, done := ms + [tx.Mem()], hs + [head], done + 1;
      }
      AllTaken(m, o, n0, done);
    }

    /** tx_notify */
    method TxNotify() returns (ghost ms: seq<Memory>)
      requires Sound() && tx.ram.Length <= RAM_MAX
      modifies tx.ram, tx`used, tx`taken, tx`lastAvail, `intStatus, `line, `sent, `txFrames
      ensures Sound()
      ensures !tx.ready ==> tx.Mem() == old(tx.Mem()) && tx.taken == old(tx.taken) && sent == old(sent)
      ensures tx.ready ==>
                var hs := Heads(old(tx.Mem()), tx.availAddr - RAM_BASE, tx.num, old(|tx.taken|),
                                Waiting(old(tx.Mem()), tx.availAddr - RAM_BASE, old(|tx.taken|)));
                && tx.taken == old(tx.taken) + hs && |ms| == |hs| + 1 && Small(ms)
                && sent == old(sent) + Wire(ms, tx.num, tx.descAddr, hs)
                && InUsedOnly(ms, tx.usedAddr - RAM_BASE, tx.num) && ms[0] == old(tx.Mem()) && ms[|ms| - 1] == tx.Mem()
      ensures tx.ready ==> tx.SameInputs(old(tx.Mem()), tx.Mem())
      ensures txFrames - old(txFrames) == |sent| - |old(sent)|
    {
      hide InOrder, Shows, Le16, Queue.BuffersApart, Queue.SameInputs, Wire, Heads, Waiting, InUsedOnly;
      ms := [];
      if !tx.ready {
        return;
      }
      ghost var m := tx.Mem();
      ms := SendAll();
      if rx.ready {
        OtherKept(rx, tx, m, tx.Mem());
      }
    }

    /** Writes that keep off the guarded places leave the other queue's rings alone. */
    ghost method OtherKept(other: Queue, q: Queue, m: Memory, m': Memory)
      requires other != q && other.ram == q.ram && other.Placed() && |m| == q.ram.Length && q.SameInputs(m, m')
      requires forall k: nat :: k < other.ram.Length && other.InOwn(k) ==> k in q.guarded
      ensures var o := other.usedAddr - RAM_BASE; Shows(m, o, other.num, other.used) ==>
                Shows(m', o, other.num, other.used)
      ensures other.BuffersApart(m) ==> other.BuffersApart(m')
    {
      forall k: nat | k < |m| && other.InOwn(k)
        ensures m'[k] == m[k]
      {
        assert q.IsInput(k);
      }
      other.OwnKeepDescs(m, m');
    }

    /** One buffer of rx_deliver: its part of the header, then its part of the frame */
    method FillOne(d: Desc, hdr: seq<Byte>, frame: seq<Byte>, pos: nat, src: nat) returns (ok: bool, end: nat, used: nat)
      requires rx.Placed() && rx.OffRings(d) && Has(d, WRITE) && |hdr| == HDR_LEN && pos < |hdr + frame|
      requires src == (if pos < HDR_LEN then 0 else pos - HDR_LEN)
      modifies rx.ram
      ensures rx.SameRings(old(rx.Mem()), rx.Mem())
      ensures var n := Min(d.len, |hdr + frame| - pos);
              var p := (hdr + frame)[pos..pos + n];
              && (ok <==> (n == 0 && pos >= HDR_LEN) || PhysPtr(rx.ram.Length, d.addr, n).Some?)
              && (ok ==> && end == pos + n && used == (if end < HDR_LEN then 0 else end - HDR_LEN)
                         && rx.Mem() == if n == 0 then old(rx.Mem()) else Put(old(rx.Mem()), d.addr - RAM_BASE, p))
              && (!ok ==> rx.Mem() == Torn(old(rx.Mem()), d, hdr + frame, pos))
    {
      hide Queue.InRings, Queue.Placed, Queue.OffRings, Queue.SameRings, Put;
      ghost var m, p := rx.Mem(), hdr + frame;
      rx.RingsSelf(m);
      var cap, off := d.len, 0;
      end, used := pos, src;
      if end < HDR_LEN {
        var take := if HDR_LEN - end > cap then cap else HDR_LEN - end;
        HeaderPart(hdr, frame, end, take);
        ok := rx.WriteBuffer(d.addr, hdr[end..end + take], d);
        if !ok {
          return;
        }
        end, off, cap := end + take, take, cap - take;
        PutNothing(m, d.addr - RAM_BASE, p[pos..pos]);
      }
      if cap > 0 && used < |frame| {
        var take := if |frame| - used > cap then cap else |frame| - used;
        FramePart(hdr, frame, used, take);
        ghost var before := rx.Mem();
        ok := rx.WriteBuffer(d.addr + off, frame[used..used + take], d);
        rx.RingsOn(m, before, rx.Mem());
        if !ok {
          return;
        }
        PutTwice(m, d.addr - RAM_BASE, p, pos, end, end + take);
        used, end := used + take, end + take;
      }
      ok := true;
    }

    /** The scatter loop of rx_deliver */
    method Scatter(chain: seq<Desc>, frame: seq<Byte>) returns (ok: bool, written: nat, src: nat)
      requires rx.Placed() && forall k :: 0 <= k < |chain| ==> rx.OffRings(chain[k])
      modifies rx.ram
      ensures var r := Fill(old(rx.Mem()), chain, RX_HDR + frame, 0);
              && ok == r.0 && rx.Mem() == r.1
              && (ok ==> written == r.2 && src == if written < HDR_LEN then 0 else written - HDR_LEN)
      ensures rx.SameRings(old(rx.Mem()), rx.Mem())
    {
      hide Queue.InRings, Queue.Placed, Queue.OffRings, Queue.SameRings, Put, Fill, Torn;
      ghost var m, p := rx.Mem(), RX_HDR + frame;
      rx.RingsSelf(m);
      var i := 0;
      written, src := 0, 0;
      assert chain[0..] == chain;
      while i < |chain| && written < |frame| + HDR_LEN
        invariant 0 <= i <= |chain| && src == (if written < HDR_LEN then 0 else written - HDR_LEN)
        invariant rx.SameRings(m, rx.Mem()) && Fill(rx.Mem(), chain[i..], p, written) == Fill(m, chain, p, 0)
      {
        FillStep(rx.Mem(), chain, i, p, written);
        if Has(chain[i], WRITE) {
          ghost var before, pos := rx.Mem(), written;
          ok, written, src := FillOne(chain[i], RX_HDR, frame, written, src);
          rx.RingsOn(m, before, rx.Mem());
          if !ok {
            return;
          }
          PutNothing(before, chain[i].addr - RAM_BASE, p[pos..pos]);
        }
        i := i + 1;
      }
      FillEnd(rx.Mem(), chain, i, p, written);
      ok := true;
    }

    /** rx_deliver from chain_collect on, for the chain at head */
    method Deliver(frame: seq<Byte>, head: nat) returns (ok: bool)
      requires rx.Kept(0) && rx.BuffersApart(rx.Mem()) && LineHolds() && head < 0x1_0000 && 0 < |frame| <= FRAME_MAX
      modifies rx.ram, rx`used, rx`taken, rx`lastAvail, `intStatus, `line, `rxFrames, `rxDropped
      ensures rx.Kept(0) && rx.BuffersApart(rx.Mem()) && LineHolds() && rx.SameInputs(old(rx.Mem()), rx.Mem())
      ensures var r := Delivered(old(rx.Mem()), rx.num, rx.descAddr, head, frame);
              && EndsAs(r, ok, head, rx.usedAddr - RAM_BASE, rx.num,
                        Ends(old(rx.Mem()), rx.Mem(), old(rx.taken), rx.taken, old(rx.used), rx.used))
              && |rx.taken| <= |old(rx.taken)| + 1 && ok == (r.Some? && r.value.0)
              && (ok ==> r.value.2 <= HDR_LEN + |frame|)
              && rxFrames == old(rxFrames) + (if ok && r.value.2 == HDR_LEN + |frame| then 1 else 0)
              && rxDropped == old(rxDropped) + (if ok && r.value.2 < HDR_LEN + |frame| then 1 else 0)
    {
      hide InOrder, Shows, Le16, Queue.InRings, Queue.IsInput, Queue.BuffersApart, Queue.SameInputs, Queue.SameRings,
           SameOutside,
           ChainFrom, Fill, Queue.OffRings;
      ghost var m := rx.Mem();
      var chain := rx.ChainCollect(head, MAX_CHAIN);
      if chain.None? {
        rx.SameInputsSelf(m);
        TakeAndPublish(head, 0, m);
        return false;
      }
      rx.ChainOffRings(m, head, MAX_CHAIN);
      var written: nat, src: nat;
      ok, written, src := Scatter(chain.value, frame);
      rx.RingsKeepDescs(m, rx.Mem());
      rx.InputsAreRings(m, rx.Mem());
      if !ok {
        return;
      }
      FillReach(m, chain.value, RX_HDR + frame, 0);
      if src < |frame| {
        rxDropped := rxDropped + 1;
      } else {
        rxFrames := rxFrames + 1;
      }
      TakeAndPublish(head, written, m);
    }

    /** The end of rx_deliver: the chain taken and published */
    method TakeAndPublish(head: nat, written: nat, ghost m: Memory)
      requires rx.Kept(0) && rx.BuffersApart(rx.Mem()) && LineHolds() && head < 0x1_0000 && written < 0x1_0000_0000
      requires rx.SameInputs(m, rx.Mem())
      modifies rx.ram, rx`used, rx`taken, rx`lastAvail, `intStatus, `line
      ensures rx.Kept(0) && rx.BuffersApart(rx.Mem()) && LineHolds() && rx.SameInputs(m, rx.Mem())
      ensures rx.taken == old(rx.taken) + [head] && rx.used == old(rx.used) + [Used(head, written)]
      ensures SameOutside(old(rx.Mem()), rx.Mem(), rx.usedAddr - RAM_BASE, 4 + 8 * rx.num)
    {
      hide InOrder, Shows, Le16, Queue.InRings, Queue.IsInput, Queue.BuffersApart, Queue.SameInputs, SameOutside;
      rx.Take(head);
      ghost var before := rx.Mem();
      Publish(rx, head, written);
      rx.InputsOn(m, before, rx.Mem());
    }

    /** rx_deliver */
    method RxDeliver(frame: seq<Byte>) returns (ok: bool)
      requires Sound() && 0 < |frame| <= FRAME_MAX
      modifies rx.ram, rx`used, rx`taken, rx`lastAvail, `intStatus, `line, `rxFrames, `rxDropped
      ensures Sound()
      ensures rxFrames + rxDropped == old(rxFrames) + old(rxDropped) + (if ok then 1 else 0)
      ensures rxDropped >= old(rxDropped) && |rx.taken| <= |old(rx.taken)| + 1
      ensures rx.ready ==> rx.SameInputs(old(rx.Mem()), rx.Mem())
      ensures if rx.ready then TookOne(old(rx.Mem()), rx.availAddr - RAM_BASE, rx.num, old(rx.taken), rx.taken)
              else rx.taken == old(rx.taken)
      ensures var n, o := old(|rx.taken|), rx.availAddr - RAM_BASE;
              if !rx.ready || Waiting(old(rx.Mem()), o, n) == 0 then
                !ok && rx.Mem() == old(rx.Mem()) && rx.taken == old(rx.taken) && rx.used == old(rx.used)
              else
                var head := HeadAt(old(rx.Mem()), o, rx.num, n % 0x1_0000 % rx.num);
                var r := Delivered(old(rx.Mem()), rx.num, rx.descAddr, head, frame);
                && EndsAs(r, ok, head, rx.usedAddr - RAM_BASE, rx.num,
                          Ends(old(rx.Mem()), rx.Mem(), old(rx.taken), rx.taken, old(rx.used), rx.used))
                && (ok ==> r.Some? && (rxFrames > old(rxFrames) <==> r.value.2 == HDR_LEN + |frame|))
    {
      hide InOrder, Shows, Queue.InRings, Queue.IsInput, Queue.BuffersApart, Queue.SameInputs, EndsAs, Delivered,
           Le16, Waiting,
           Fenced;
      if !rx.ready {
        return false;
      }
      NoneWaiting(rx.Mem(), rx.availAddr - RAM_BASE, |rx.taken|);
      rx.SameInputsSelf(rx.Mem());
      var availIdx := rx.Read16(rx.availAddr + 2);
      if availIdx.None? || rx.lastAvail == availIdx.value {
        return false;
      }
      SlotFits(rx.lastAvail % rx.num, rx.num);
      var head := rx.Read16(rx.availAddr + 4 + rx.lastAvail % rx.num * 2);
      if head.None? {
        return false;
      }
      ghost var e := Ends(rx.Mem(), [], rx.taken, [], rx.used, []);
      ok := DeliverKept(frame, head.value);
      e := e.(m' := rx.Mem(), taken' := rx.taken, used' := rx.used);
      EndsTaken(Delivered(e.m, rx.num, rx.descAddr, head.value, frame), ok, head.value, rx.usedAddr - RAM_BASE, rx.num, e);
    }

    /** A delivery leaves the transmit queue as it should be. */
    method DeliverKept(frame: seq<Byte>, head: nat) returns (ok: bool)
      requires Sound() && rx.ready && head < 0x1_0000 && 0 < |frame| <= FRAME_MAX
      modifies rx.ram, rx`used, rx`taken, rx`lastAvail, `intStatus, `line, `rxFrames, `rxDropped
      ensures Sound() && rx.SameInputs(old(rx.Mem()), rx.Mem())
      ensures var r := Delivered(old(rx.Mem()), rx.num, rx.descAddr, head, frame);
              && EndsAs(r, ok, head, rx.usedAddr - RAM_BASE, rx.num,
                        Ends(old(rx.Mem()), rx.Mem(), old(rx.taken), rx.taken, old(rx.used), rx.used))
              && |rx.taken| <= |old(rx.taken)| + 1 && ok == (r.Some? && r.value.0)
              && rxFrames == old(rxFrames) + (if ok && r.value.2 == HDR_LEN + |frame| then 1 else 0)
              && rxDropped == old(rxDropped) + (if ok && r.value.2 < HDR_LEN + |frame| then 1 else 0)
              && (ok ==> r.value.2 <= HDR_LEN + |frame|)
    {
      hide InOrder, Shows, Queue.InRings, Queue.IsInput, Queue.BuffersApart, Queue.SameInputs, EndsAs, Delivered,
           Le16, Queue.InOwn;
      ghost var m := rx.Mem();
      ok := Deliver(frame, head);
      if tx.ready {
        OtherKept(tx, rx, m, rx.Mem());
      }
    }

    /**
     The receive queue has gone on from memory m0 and the chains t0 by taking the chains that waited then, in
     ring order.
     */
    ghost predicate TakenFrom(m0: Memory, t0: seq<nat>)
      reads rx, rx.ram
    {
      if !rx.ready then rx.taken == t0 && rx.Mem() == m0
      else
        && rx.Placed() && |m0| == rx.ram.Length && rx.SameInputs(m0, rx.Mem())
        && Took(m0, rx.availAddr - RAM_BASE, rx.num, t0, rx.taken)
    }

    lemma TakenSoFar(m: Memory, t0: seq<nat>)
      requires Sound() && m == rx.Mem() && t0 == rx.taken
      ensures TakenFrom(m, t0)
    {
      if rx.ready {
        rx.SameInputsSelf(m);
        TookNone(m, rx.availAddr - RAM_BASE, rx.num, t0);
      }
    }

    lemma SameLength(m: Memory, m': Memory)
      requires rx.SameInputs(m, m')
      ensures |m| == |m'|
    {
    }

    lemma TakenMore(m0: Memory, t0: seq<nat>, m: Memory, t: seq<nat>)
      requires rx.ready && rx.Placed() && |m0| == rx.ram.Length && rx.SameInputs(m0, m) && rx.SameInputs(m, rx.Mem())
      requires Took(m0, rx.availAddr - RAM_BASE, rx.num, t0, t) && TookOne(m, rx.availAddr - RAM_BASE, rx.num, t, rx.taken)
      ensures TakenFrom(m0, t0)
    {
      hide Queue.IsInput, Queue.SameInputs, Queue.Placed, Took, TookOne, HeadAt, Le16;
      rx.AvailInRam();
      SameLength(m0, m);
      rx.InputsOn(m0, m, rx.Mem());
      rx.SameIndex(m0, m);
      rx.SameHeadAt(m0, m, |t| % 0x1_0000 % rx.num);
      OneTaken(m0, m, rx.availAddr - RAM_BASE, rx.num, t0, t, rx.taken);
    }

    /** One turn of the poll loop */
    method PollOne(frame: seq<Byte>, ghost m0: Memory, ghost t0: seq<nat>) returns (ok: bool)
      requires Sound() && 0 < |frame| <= FRAME_MAX && TakenFrom(m0, t0)
      modifies rx.ram, rx`used, rx`taken, rx`lastAvail, `intStatus, `line, `rxFrames, `rxDropped
      ensures Sound() && TakenFrom(m0, t0)
      ensures rxFrames + rxDropped == old(rxFrames) + old(rxDropped) + (if ok then 1 else 0)
      ensures rxDropped >= old(rxDropped) && |rx.taken| <= |old(rx.taken)| + 1
    {
      hide Queue.Placed, Queue.SameInputs, Sound, Took, TookOne, EndsAs, Delivered;
      ghost var m, t := rx.Mem(), rx.taken;
      ok := RxDeliver(frame);
      if rx.ready {
        TakenMore(m0, t0, m, t);
      }
    }

    /** rv_virtio_net_poll over the frames waiting on the wire; every frame pulled is counted once */
    method Poll(arrivals: seq<seq<Byte>>) returns (pulled: nat)
      requires Sound() && forall k :: 0 <= k < |arrivals| ==> 0 < |arrivals[k]| <= FRAME_MAX
      modifies rx.ram, rx`used, rx`taken, rx`lastAvail, `intStatus, `line, `rxFrames, `rxDropped
      ensures Sound()
      ensures pulled <= 8 && pulled <= |arrivals| && (pulled == 0 <==> !driverOk || arrivals == [])
      ensures rxFrames + rxDropped == old(rxFrames) + old(rxDropped) + pulled
      ensures rx.ready ==>
                && Took(old(rx.Mem()), rx.availAddr - RAM_BASE, rx.num, old(rx.taken), rx.taken)
                && rx.SameInputs(old(rx.Mem()), rx.Mem())
      ensures !rx.ready ==> rx.taken == old(rx.taken) && rx.Mem() == old(rx.Mem())
      ensures driverOk && pulled < 8 && pulled < |arrivals| ==> rxDropped > old(rxDropped)
    {
      hide EndsAs, Delivered, Waiting, Took, Sound;
      pulled := 0;
      ghost var m, t0 := rx.Mem(), rx.taken;
      TakenSoFar(m, t0);
      if !driverOk {
        return;
      }
      var budget := BUDGET;
      while budget > 0
        invariant Sound() && 0 <= budget <= BUDGET && pulled == BUDGET - budget <= |arrivals|
        invariant rxFrames + rxDropped == old(rxFrames) + old(rxDropped) + pulled && rxDropped >= old(rxDropped)
        invariant |rx.taken| <= |old(rx.taken)| + pulled
        invariant TakenFrom(m, t0)
      {
        budget := budget - 1;
        if pulled == |arrivals| {
          return;
        }
        var ok := PollOne(arrivals[pulled], m, t0);
        pulled := pulled + 1;
        if !ok {
          rxDropped := rxDropped + 1;
          return;
        }
      }
    }
  }

  /** One descriptor of a frame. */
  lemma AssembleStep(m: Memory, chain: seq<Desc>, i: nat, skip: nat, frame: seq<Byte>)
    requires i < |chain| && Sized(chain) && |frame| <= FRAME_MAX && |m| <= RAM_MAX
    ensures Sized(chain[i..]) && Sized(chain[i + 1..]) && chain[i].len < 0x1_0000_0000
    ensures var d := chain[i];
            Assemble(m, chain[i..], skip, frame) ==
            if Has(d, WRITE) then Assemble(m, chain[i + 1..], skip, frame)
            else if skip >= d.len then Assemble(m, chain[i + 1..], skip - d.len, frame)
            else
              var take := Room(|frame|, d.len - skip);
              var o := PhysPtr(|m|, d.addr + skip, take);
              if take == 0 then Assemble(m, chain[i + 1..], 0, frame)
              else if o.None? then None
              else if |frame| + take <= FRAME_MAX then Assemble(m, chain[i + 1..], 0, frame + m[o.value..o.value + take])
              else None
    ensures var d := chain[i];
            !Has(d, WRITE) && skip < d.len && PhysPtr(|m|, d.addr + skip, Room(|frame|, d.len - skip)).Some? ==>
              |frame| + Room(|frame|, d.len - skip) <= FRAME_MAX
  {
    assert chain[i..][0] == chain[i] && chain[i..][1..] == chain[i + 1..];
  }

  lemma AssembleEnd(m: Memory, frame: seq<Byte>, skip: nat)
    requires |frame| <= FRAME_MAX && |m| <= RAM_MAX
    ensures Sized([]) && Assemble(m, [], skip, frame) == Some(frame)
  {
  }

  lemma FillStep(m: Memory, chain: seq<Desc>, i: nat, p: seq<Byte>, pos: nat)
    requires i < |chain| && HDR_LEN <= |p| && pos < |p|
    ensures var d := chain[i];
            var n := Min(d.len, |p| - pos);
            Fill(m, chain[i..], p, pos) ==
            if !Has(d, WRITE) || (n == 0 && pos >= HDR_LEN) then Fill(m, chain[i + 1..], p, pos)
            else if PhysPtr(|m|, d.addr, n).None? then (false, Torn(m, d, p, pos), pos)
            else Fill(Put(m, d.addr - RAM_BASE, p[pos..pos + n]), chain[i + 1..], p, pos + n)
  {
    assert chain[i..][1..] == chain[i + 1..];
  }

  lemma FillEnd(m: Memory, chain: seq<Desc>, i: nat, p: seq<Byte>, pos: nat)
    requires i <= |chain| && HDR_LEN <= |p| && (i == |chain| || pos >= |p|)
    ensures Fill(m, chain[i..], p, pos) == (true, m, pos)
  {
  }

  lemma FillReach(m: Memory, chain: seq<Desc>, p: seq<Byte>, pos: nat)
    requires HDR_LEN <= |p| && pos <= |p|
    ensures Fill(m, chain, p, pos).2 <= |p|
    decreases |chain|
  {
    if chain != [] && pos < |p| && Has(chain[0], WRITE) {
      var n := Min(chain[0].len, |p| - pos);
      if PhysPtr(|m|, chain[0].addr, n).Some? {
        FillReach(Put(m, chain[0].addr - RAM_BASE, p[pos..pos + n]), chain[1..], p, pos + n);
      }
    }
  }

  /** Every step between the memories is a write to the used ring at o. */
  ghost predicate InUsedOnly(ms: seq<Memory>, o: nat, num: nat) {
    forall i, j :: 0 <= i && j == i + 1 < |ms| ==> SameOutside(ms[i], ms[j], o, 4 + 8 * num)
  }

  lemma NoWire(ms: seq<Memory>, num: nat, table: nat)
    requires Small(ms)
    ensures Wire(ms, num, table, []) == []
  {
  }

  lemma PutNothing(m: Memory, o: int, bs: seq<Byte>)
    requires bs == []
    ensures 0 <= o <= |m| ==> Put(m, o, bs) == m
  {
  }

  lemma HeaderPart(hdr: seq<Byte>, frame: seq<Byte>, a: nat, n: nat)
    requires a + n <= |hdr|
    ensures hdr[a..a + n] == (hdr + frame)[a..a + n]
  {
  }

  lemma FramePart(hdr: seq<Byte>, frame: seq<Byte>, a: nat, n: nat)
    requires a + n <= |frame|
    ensures frame[a..a + n] == (hdr + frame)[|hdr| + a..|hdr| + a + n]
  {
  }

  /** Two writes one after the other are one. */
  lemma PutTwice(m: Memory, o: int, p: seq<Byte>, a: nat, b: nat, c: nat)
    requires a <= b <= c <= |p| && 0 <= o && o + (c - a) <= |m|
    ensures a == b || Put(Put(m, o, p[a..b]), o + (b - a), p[b..c]) == Put(m, o, p[a..c])
  {
    var m1 := Put(m, o, p[a..b]);
    var m2 := Put(m1, o + (b - a), p[b..c]);
    forall k: nat | k < |m|
      ensures m2[k] == Put(m, o, p[a..c])[k]
    {
      PutByte(m1, o + (b - a), p[b..c], k);
      PutByte(m, o, p[a..b], k);
      PutByte(m, o, p[a..c], k);
    }
  }
}
