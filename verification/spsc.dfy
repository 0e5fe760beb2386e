/** The byte ring between two threads: one puts, one gets, neither waits. */
module Spsc {
  import opened Basics

  /** (i + 1) & mask, the size being a power of two. */
  function Next(i: nat, size: nat): (n: nat)
    requires i < size
    ensures n < size
  {
    if i + 1 == size then 0 else i + 1
  }

  /** The bytes in the ring, oldest first. */
  function Window(buf: seq<Byte>, head: nat, tail: nat): seq<Byte>
    requires head < |buf| && tail < |buf|
  {
    if head <= tail then buf[head..tail] else buf[head..] + buf[..tail]
  }

  /** A ring counted full holds one byte less than its size. */
  lemma FullIs(buf: seq<Byte>, head: nat, tail: nat)
    requires head < |buf| && tail < |buf|
    ensures |Window(buf, head, tail)| < |buf|
    ensures Next(tail, |buf|) == head <==> |Window(buf, head, tail)| == |buf| - 1
    ensures head == tail <==> Window(buf, head, tail) == []
  {
    assert head < tail ==> |buf[head..tail]| > 0;
  }

  /** A write to the slot at tail is seen by nobody until tail moves past it. */
  lemma StoreUnseen(buf: seq<Byte>, head: nat, tail: nat, b: Byte)
    requires head < |buf| && tail < |buf|
    ensures Window(buf[tail := b], head, tail) == Window(buf, head, tail)
  {
  }

  lemma Published(buf: seq<Byte>, head: nat, tail: nat)
    requires head < |buf| && tail < |buf| && Next(tail, |buf|) != head
    ensures Window(buf, head, Next(tail, |buf|)) == Window(buf, head, tail) + [buf[tail]]
  {
    if head > tail {
      assert buf[..tail + 1] == buf[..tail] + [buf[tail]];
    } else if tail + 1 == |buf| {
      assert buf[head..] == buf[head..tail] + [buf[tail]];
    }
  }

  lemma Freed(buf: seq<Byte>, head: nat, tail: nat)
    requires head < |buf| && tail < |buf| && head != tail
    ensures Window(buf, head, tail) == [buf[head]] + Window(buf, Next(head, |buf|), tail)
  {
    if head > tail && head + 1 < |buf| {
      assert buf[head..] == [buf[head]] + buf[head + 1..];
    }
  }

  class Ring {
    const buf: array<Byte>
    var head: nat
    var tail: nat

    constructor (size: nat)
      requires size > 0
      ensures Valid() && fresh(buf) && buf.Length == size && Contents() == []
    {
      buf := new Byte[size](_ => 0);
      head, tail := 0, 0;
    }

    ghost predicate Valid()
      reads this
    {
      head < buf.Length && tail < buf.Length
    }

    ghost function Contents(): seq<Byte>
      requires Valid()
      reads this, buf
    {
      Window(buf[..], head, tail)
    }

    /** spsc_put */
    method Put(b: Byte) returns (ok: bool)
      requires Valid()
      modifies buf, `tail
      ensures Valid() && (ok <==> |old(Contents())| < buf.Length - 1)
      ensures Contents() == if ok then old(Contents()) + [b] else old(Contents())
    {
      FullIs(buf[..], head, tail);
      var n := Next(tail, buf.Length);
      if n == head {
        return false;
      }
      StoreUnseen(buf[..], head, tail, b);
      ghost var was := buf[..];
      buf[tail] := b;
      assert buf[..] == was[tail := b];
      Published(buf[..], head, tail);
      tail := n;
      return true;
    }

    /** spsc_get */
    method Get() returns (b: Option<Byte>)
      requires Valid()
      modifies `head
      ensures Valid() && (b.None? <==> old(Contents()) == [])
      ensures b.Some? ==> old(Contents()) == [b.value] + Contents()
      ensures b.None? ==> Contents() == []
    {
      FullIs(buf[..], head, tail);
      if head == tail {
        return None;
      }
      Freed(buf[..], head, tail);
      b := Some(buf[head]);
      head := Next(head, buf.Length);
    }

    /** spsc_reset */
    method Reset()
      requires Valid()
      modifies `head, `tail
      ensures Valid() && Contents() == []
    {
      head, tail := 0, 0;
    }
  }
}

/** The ring under every interleaving of its two threads, one memory access a step. */
module SpscThreads {
  import opened Basics
  import opened Spsc

  /** Where the producer is in spsc_put. */
  datatype Producer = Outside | Admitted(b: Byte) | Stored(b: Byte)

  /** Where the consumer is in spsc_get. */
  datatype Consumer = Away | SawByte | Loaded(b: Byte)

  /** A byte offered to spsc_put and what it answered. */
  datatype Offer = Offer(b: Byte, accepted: bool)

  datatype State = State(buf: seq<Byte>, head: nat, tail: nat, producer: Producer, consumer: Consumer,
                         offers: seq<Offer>, got: seq<Byte>)

  datatype Event =
    | PutTestsFull(b: Byte) | PutStores | PutPublishes
    | GetTestsEmpty | GetLoads | GetFrees

  function Init(size: nat): State
    requires size > 0
  {
    State(seq(size, _ => 0), 0, 0, Outside, Away, [], [])
  }

  predicate Sized(s: State) {
    s.head < |s.buf| && s.tail < |s.buf|
  }

  /** The event is the next access its thread makes. */
  predicate Enabled(s: State, e: Event) {
    match e
    case PutTestsFull(_) => s.producer == Outside
    case PutStores => s.producer.Admitted?
    case PutPublishes => s.producer.Stored?
    case GetTestsEmpty => s.consumer == Away
    case GetLoads => s.consumer == SawByte
    case GetFrees => s.consumer.Loaded?
  }

  function Step(s: State, e: Event): State
    requires Sized(s) && Enabled(s, e)
  {
    match e
    case PutTestsFull(b) =>
      if Next(s.tail, |s.buf|) == s.head then s.(offers := s.offers + [Offer(b, false)]) else s.(producer := Admitted(b))
    case PutStores => s.(buf := s.buf[s.tail := s.producer.b], producer := Stored(s.producer.b))
    case PutPublishes =>
      s.(tail := Next(s.tail, |s.buf|), offers := s.offers + [Offer(s.producer.b, true)], producer := Outside)
    case GetTestsEmpty => if s.head == s.tail then s else s.(consumer := SawByte)
    case GetLoads => s.(consumer := Loaded(s.buf[s.head]))
    case GetFrees => s.(head := Next(s.head, |s.buf|), got := s.got + [s.consumer.b], consumer := Away)
  }

  /** The bytes spsc_put accepted, in order. */
  function Accepted(offers: seq<Offer>): seq<Byte> {
    if offers == [] then []
    else
      var o := offers[|offers| - 1];
      Accepted(offers[..|offers| - 1]) + if o.accepted then [o.b] else []
  }

  /** What each thread has seen still holds while the other runs. */
  predicate Inv(s: State) {
    && Sized(s)
    && Accepted(s.offers) == s.got + Window(s.buf, s.head, s.tail)
    && (s.producer != Outside ==> Next(s.tail, |s.buf|) != s.head)
    && (s.producer.Stored? ==> s.buf[s.tail] == s.producer.b)
    && (s.consumer != Away ==> s.head != s.tail)
    && (s.consumer.Loaded? ==> s.buf[s.head] == s.consumer.b)
  }

  lemma AcceptedOneMore(offers: seq<Offer>, o: Offer)
    ensures Accepted(offers + [o]) == Accepted(offers) + if o.accepted then [o.b] else []
  {
    assert (offers + [o])[..|offers|] == offers;
  }

  lemma PutKeeps(s: State, e: Event)
    requires Inv(s) && Enabled(s, e) && (e.PutTestsFull? || e.PutStores? || e.PutPublishes?)
    ensures Inv(Step(s, e))
  {
    match e
    case PutTestsFull(b) =>
      AcceptedOneMore(s.offers, Offer(b, false));
      assert Accepted(s.offers) + [] == Accepted(s.offers);
    case PutStores => StoreUnseen(s.buf, s.head, s.tail, s.producer.b);
    case PutPublishes =>
      AcceptedOneMore(s.offers, Offer(s.producer.b, true));
      Published(s.buf, s.head, s.tail);
      assert s.got + (Window(s.buf, s.head, s.tail) + [s.producer.b]) ==
             s.got + Window(s.buf, s.head, s.tail) + [s.producer.b];
    case _ =>
  }

  lemma GetKeeps(s: State, e: Event)
    requires Inv(s) && Enabled(s, e) && (e.GetTestsEmpty? || e.GetLoads? || e.GetFrees?)
    ensures Inv(Step(s, e))
  {
    if e.GetFrees? {
      Freed(s.buf, s.head, s.tail);
      assert s.got + ([s.consumer.b] + Window(s.buf, Next(s.head, |s.buf|), s.tail)) ==
             s.got + [s.consumer.b] + Window(s.buf, Next(s.head, |s.buf|), s.tail);
    }
  }

  predicate IsRun(size: nat, events: seq<Event>, states: seq<State>)
    requires size > 0
  {
    && |states| == |events| + 1 && states[0] == Init(size)
    && forall i :: 0 <= i < |events| ==>
         Sized(states[i]) && Enabled(states[i], events[i]) && states[i + 1] == Step(states[i], events[i])
  }

  lemma {:induction false} RunKeeps(size: nat, events: seq<Event>, states: seq<State>, i: nat)
    requires size > 0 && IsRun(size, events, states) && i <= |events|
    ensures Inv(states[i]) && |states[i].buf| == size
  {
    if i > 0 {
      RunKeeps(size, events, states, i - 1);
      var s, e := states[i - 1], events[i - 1];
      assert states[i - 1 + 1] == Step(s, e);
      if e.PutTestsFull? || e.PutStores? || e.PutPublishes? {
        PutKeeps(s, e);
      } else {
        GetKeeps(s, e);
      }
    }
  }

  /**
   However the two threads interleave, the consumer has got exactly the accepted bytes, in order, but those
   still in the ring, of which there are fewer than its size.
   */
  lemma RunIsFifo(size: nat, events: seq<Event>, states: seq<State>, i: nat)
    requires size > 0 && IsRun(size, events, states) && i <= |events|
    ensures var s := states[i];
            && Sized(s) && Accepted(s.offers) == s.got + Window(s.buf, s.head, s.tail)
            && |Window(s.buf, s.head, s.tail)| < size
  {
    RunKeeps(size, events, states, i);
    FullIs(states[i].buf, states[i].head, states[i].tail);
  }

  /** A byte is refused only while the ring holds all it can, and a get comes back empty only while it holds nothing. */
  lemma RefusedOnlyWhenFull(size: nat, events: seq<Event>, states: seq<State>, i: nat)
    requires size > 0 && IsRun(size, events, states) && i < |events|
    ensures var s, s' := states[i], states[i + 1];
            && Sized(s)
            && (events[i].PutTestsFull? ==>
                  (s'.producer == Outside <==> |Window(s.buf, s.head, s.tail)| == size - 1))
            && (events[i].GetTestsEmpty? ==> (s'.consumer == Away <==> Window(s.buf, s.head, s.tail) == []))
  {
    RunKeeps(size, events, states, i);
    FullIs(states[i].buf, states[i].head, states[i].tail);
  }

  /** The producer never writes the slot the consumer is about to read, nor any byte still to be read. */
  lemma NeverSameSlot(size: nat, events: seq<Event>, states: seq<State>, i: nat)
    requires size > 0 && IsRun(size, events, states) && i < |events| && events[i] == PutStores
    ensures states[i].consumer != Away ==> states[i].tail != states[i].head
    ensures Sized(states[i]) && Sized(states[i + 1])
    ensures Window(states[i + 1].buf, states[i + 1].head, states[i + 1].tail) ==
            Window(states[i].buf, states[i].head, states[i].tail)
  {
    RunKeeps(size, events, states, i);
    StoreUnseen(states[i].buf, states[i].head, states[i].tail, states[i].producer.b);
  }
}
