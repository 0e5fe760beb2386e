/** The interrupt controller: lines, claim and complete, and the hart's external interrupt. */
module Plic {
  const SOURCES := 32

  datatype Op = SetIrq(irq: int, level: bool) | Claim | Complete(id: nat)

  /** What a Claim returned; 0 for no source, and for the other operations. */
  datatype Event = Event(op: Op, answer: nat)

  /** The lowest source from i on, or 0. */
  function Lowest(ready: set<nat>, i: nat): (r: nat)
    ensures r == 0 <==> forall k :: i <= k <= SOURCES && k > 0 ==> k !in ready
    ensures r > 0 ==> i <= r <= SOURCES && r in ready && forall k :: i <= k < r && k > 0 ==> k !in ready
    decreases SOURCES + 1 - i
  {
    if i > SOURCES then 0 else if i > 0 && i in ready then i else Lowest(ready, i + 1)
  }

  class Controller {
    /** Sources whose line is up, and sources claimed and not yet completed. */
    var pending: set<nat>
    var served: set<nat>
    /** SEIP in the hart's mip. */
    var seip: bool
    ghost var history: seq<Event>

    /** SEIP is up exactly while a source waits, and the sources served are the ones the history left open. */
    ghost predicate Valid()
      reads this
    {
      && (forall i :: i in pending ==> 1 <= i <= SOURCES) && (forall i :: i in served ==> 1 <= i <= SOURCES)
      && (seip <==> pending - served != {})
      && served == Open(history) && Exclusive(history)
    }

    constructor ()
      ensures Valid() && pending == served == {} && history == []
    {
      pending, served, seip, history := {}, {}, false, [];
    }

    /** plic_update */
    method Update()
      modifies `seip
      ensures seip <==> pending - served != {}
    {
      seip := pending - served != {};
    }

    /** rv_plic_set_irq; the level of a line is what the last call for it said. */
    method Set(irq: int, level: bool)
      requires Valid()
      modifies this
      ensures Valid() && served == old(served) && history == old(history) + [Event(SetIrq(irq, level), 0)]
      ensures forall i: nat :: i in pending <==> if i == irq && 1 <= irq <= 32 then level else i in old(pending)
    {
      OneMore(history, Event(SetIrq(irq, level), 0));
      history := history + [Event(SetIrq(irq, level), 0)];
      if 1 <= irq <= SOURCES {
        var i: nat := irq;
        pending := if level then pending + {i} else pending - {i};
        Update();
      }
    }

    /** A read of the claim register */
    method ReadClaim() returns (id: nat)
      requires Valid()
      modifies this
      ensures Valid() && pending == old(pending) && history == old(history) + [Event(Claim, id)]
      ensures id == 0 <==> !old(seip)
      ensures id == 0 ==> served == old(served)
      ensures id > 0 ==> && id in old(pending) && id !in old(served) && served == old(served) + {id}
                         && forall k: nat :: k in old(pending) && k !in old(served) ==> id <= k
    {
      var ready := pending - served;
      id := Lowest(ready, 0);
      OneMore(history, Event(Claim, id));
      assert forall k :: k in pending && k !in served ==> k in ready;
      if id == 0 {
        assert forall i :: i in ready ==> i in pending;
        history := history + [Event(Claim, 0)];
        return;
      }
      served := served + {id};
      history := history + [Event(Claim, id)];
      Update();
    }

    /** A write to the claim register */
    method WriteComplete(val: nat)
      requires Valid()
      modifies this
      ensures Valid() && pending == old(pending) && history == old(history) + [Event(Complete(val), 0)]
      ensures served == old(served) - (if 1 <= val <= 32 then {val} else {})
    {
      OneMore(history, Event(Complete(val), 0));
      history := history + [Event(Complete(val), 0)];
      if 1 <= val <= SOURCES {
        served := served - {val};
        Update();
      }
    }
  }

  /** Sources claimed in a history and not completed since. */
  ghost function Open(h: seq<Event>): set<nat> {
    if h == [] then {}
    else
      var before, e := Open(h[..|h| - 1]), h[|h| - 1];
      match e.op
      case Claim => if e.answer > 0 then before + {e.answer} else before
      case Complete(id) => if 1 <= id <= SOURCES then before - {id} else before
      case SetIrq(_, _) => before
  }

  lemma OneMore(h: seq<Event>, e: Event)
    ensures (h + [e])[..|h|] == h
  {
  }

  /** No source was handed out while it was already being served. */
  ghost predicate Exclusive(h: seq<Event>) {
    h != [] ==>
      && Exclusive(h[..|h| - 1])
      && (h[|h| - 1].op.Claim? && h[|h| - 1].answer > 0 ==> h[|h| - 1].answer !in Open(h[..|h| - 1]))
  }

  /** A source claimed stays open until it is completed. */
  lemma {:induction false} StaysOpen(h: seq<Event>, i: nat, id: nat)
    requires i < |h| && h[i].op.Claim? && h[i].answer == id > 0
    requires forall k :: i < k < |h| ==> h[k].op != Complete(id)
    ensures id in Open(h)
  {
    if i < |h| - 1 {
      StaysOpen(h[..|h| - 1], i, id);
    }
  }

  /** In every run, two claims that return the same source have its completion between them. */
  lemma {:induction false} ClaimedOncePerCompletion(h: seq<Event>, i: nat, j: nat)
    requires Exclusive(h) && i < j < |h| && h[i].op.Claim? && h[j].op.Claim? && h[i].answer == h[j].answer > 0
    ensures exists k :: i < k < j && h[k].op == Complete(h[i].answer)
  {
    if j < |h| - 1 {
      ClaimedOncePerCompletion(h[..|h| - 1], i, j);
      var k :| i < k < j && h[..|h| - 1][k].op == Complete(h[..|h| - 1][i].answer);
      assert h[k].op == Complete(h[i].answer);
    } else {
      var before := h[..j];
      if forall k :: i < k < j ==> before[k].op != Complete(h[i].answer) {
        StaysOpen(before, i, h[i].answer);
        assert false;
      }
    }
  }
}
