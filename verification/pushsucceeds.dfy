/** A push that is accepted can always be finished: from any reachable state there is a run in which it is. */
module PushSucceeds {
  import opened Pusher

  ghost function Last(run: seq<State>): State
    requires |run| > 0
  {
    run[|run| - 1]
  }

  /** A run, not empty. */
  ghost predicate Run(slots: seq<Slot>, run: seq<State>) {
    |run| > 0 && Ongoing(slots, run)
  }

  ghost predicate Ongoing(slots: seq<Slot>, run: seq<State>) {
    IsRun(slots, run)
  }

  lemma RunIs(slots: seq<Slot>, run: seq<State>)
    ensures Run(slots, run) <==> IsRun(slots, run)
  {
  }

  lemma Extended(slots: seq<Slot>, run: seq<State>, t: State)
    requires Run(slots, run) && Step(slots, Last(run), t)
    ensures Run(slots, run + [t]) && run <= run + [t] && Last(run + [t]) == t
  {
    hide Step, Start;
    var r := run + [t];
    forall n | 0 <= n < |r| - 1
      ensures Step(slots, r[n], r[n + 1])
    {
      assert r[n] == run[n];
    }
  }

  /** The push at hand: the slot, its header fields and the image. */
  ghost predicate Pushing(slots: seq<Slot>, s: State, slot: nat, fields: seq<Byte>, data: seq<Byte>) {
    && s.slot == slot < |slots| == |s.records| && |slots[slot].magic| == MAGIC_LEN
    && |fields| == 8 && s.fields == fields && s.len == |data| > 0
  }

  lemma {:induction false} EraseAll(slots: seq<Slot>, run: seq<State>, slot: nat, fields: seq<Byte>, data: seq<Byte>)
    returns (r: seq<State>)
    requires Run(slots, run) && Pushing(slots, Last(run), slot, fields, data)
    requires Last(run).producer.Erasing? && Last(run).producer.block <= Blocks(|data|)
    ensures Run(slots, r) && run <= r && Pushing(slots, Last(r), slot, fields, data)
    ensures Last(r).producer == Erasing(Blocks(|data|)) && Last(r).received == Last(run).received
    decreases Blocks(|data|) - Last(run).producer.block
  {
    hide Erase, Unmarked, Blocks, IsRun;
    var s := Last(run);
    if s.producer.block == Blocks(s.len) {
      return run;
    }
    var a := slots[s.slot].off + s.producer.block * ERASE_SZ;
    var t := s.(flash := Erase(s.flash, a),
                programmed := Unmarked(s.programmed, a),
                records := if s.producer.block == 0 then s.records[s.slot := Since(s.len, [])] else s.records,
                producer := Erasing(s.producer.block + 1));
    assert EraseBlock(slots, s, t);
    Extended(slots, run, t);
    r := EraseAll(slots, run + [t], slot, fields, data);
  }

  /** Between two buffers: the first c have been received and programmed, both are free. */
  ghost predicate Between(slots: seq<Slot>, s: State, slot: nat, fields: seq<Byte>, data: seq<Byte>, c: nat) {
    && Pushing(slots, s, slot, fields, data) && s.producer.Taking? && s.writer.Waiting? && s.free == 2 && s.filled == 0
    && s.handed == c && !s.sentinel && !s.writeFailed && |s.bufs| == |s.boffs| == 2
    && s.fill < 2 && s.next == s.fill && s.received == data[..Off(s)]
  }

  lemma TakeFree(slots: seq<Slot>, run: seq<State>) returns (r: seq<State>)
    requires Run(slots, run) && Last(run).slot < |slots| && Last(run).producer.Taking? && Last(run).free == 2
    requires Last(run).fill < |Last(run).bufs| && !Last(run).writeFailed && Off(Last(run)) < Last(run).len
    ensures Run(slots, r) && run <= r
    ensures var s := Last(run); Last(r) == s.(free := 1, producer := Filling, bufs := s.bufs[s.fill := []])
  {
    hide Ongoing;
    var s := Last(run);
    var t := s.(free := 1, producer := Filling, bufs := s.bufs[s.fill := []]);
    assert TakeBuffer(s, t);
    Extended(slots, run, t);
    r := run + [t];
  }

  /** All that is wanted arrives at once. */
  lemma ReceiveAll(slots: seq<Slot>, run: seq<State>, bytes: seq<Byte>) returns (r: seq<State>)
    requires Run(slots, run) && Last(run).slot < |slots| && Last(run).slot < |Last(run).records|
    requires Last(run).producer.Filling? && Last(run).fill < |Last(run).bufs| && Last(run).bufs[Last(run).fill] == []
    requires 0 < |bytes| == Want(Last(run))
    ensures Run(slots, r) && run <= r
    ensures var s := Last(run);
            Last(r) == s.(bufs := s.bufs[s.fill := bytes], received := s.received + bytes,
                          records := s.records[s.slot := Since(s.len, s.received + bytes)])
  {
    hide Ongoing;
    var s := Last(run);
    var t := s.(bufs := s.bufs[s.fill := bytes], received := s.received + bytes,
                records := s.records[s.slot := Since(s.len, s.received + bytes)]);
    assert [] + bytes == bytes;
    assert Receive(s, t, bytes);
    Extended(slots, run, t);
    r := run + [t];
  }

  /** A buffer is taken and filled. */
  lemma FillBuffer(slots: seq<Slot>, run: seq<State>, slot: nat, fields: seq<Byte>, data: seq<Byte>, c: nat)
    returns (r: seq<State>)
    requires Run(slots, run) && Between(slots, Last(run), slot, fields, data, c) && c * BUF < |data|
    ensures Run(slots, r) && run <= r
    ensures var s := Last(run);
            var n, w := Off(s), Want(s);
            && n == c * BUF && 0 < w && n + w <= |data|
            && Last(r) == s.(free := 1, producer := Filling, bufs := s.bufs[s.fill := data[n..n + w]],
                             received := data[..n + w], records := s.records[s.slot := Since(s.len, data[..n + w])])
  {
    hide Ongoing;
    var s := Last(run);
    var n, w := Off(s), Want(s);
    r := TakeFree(slots, run);
    r := ReceiveAll(slots, r, data[n..n + w]);
    assert data[..n] + data[n..n + w] == data[..n + w];
    assert s.bufs[s.fill := []][s.fill := data[n..n + w]] == s.bufs[s.fill := data[n..n + w]];
  }

  /** It is handed over, and the writer begins with it. */
  lemma PassBuffer(slots: seq<Slot>, run: seq<State>, bytes: seq<Byte>) returns (r: seq<State>)
    requires Run(slots, run) && Last(run).slot < |slots| && Last(run).producer.Filling? && Last(run).writer.Waiting?
    requires var s := Last(run); |s.bufs| == |s.boffs| == 2 && s.fill < 2 && s.next == s.fill && s.filled == 0
    requires !Last(run).writeFailed && Last(run).bufs[Last(run).fill] == bytes && |bytes| == Want(Last(run)) > 0
    ensures Run(slots, r) && run <= r
    ensures var s := Last(run);
            Last(r) == s.(bufs := s.bufs[s.fill := Padded(bytes)],
                          boffs := s.boffs[s.fill := slots[s.slot].off + PAYLOAD_OFF + Off(s)],
                          handed := s.handed + 1, fill := Other(s.fill), producer := Taking, writer := Writing(0))
  {
    hide Ongoing, RoundUp;
    var s := Last(run);
    RoundUpAtMost(|bytes|);
    var s1 := s.(bufs := s.bufs[s.fill := Padded(bytes)],
                 boffs := s.boffs[s.fill := slots[s.slot].off + PAYLOAD_OFF + Off(s)],
                 filled := 1, handed := s.handed + 1, fill := Other(s.fill), producer := Taking);
    assert HandOver(slots, s, s1);
    Extended(slots, run, s1);
    var s2 := s1.(filled := 0, writer := Writing(0));
    assert WriterTakes(s1, s2);
    Extended(slots, run + [s1], s2);
    r := run + [s1] + [s2];
  }

  lemma {:induction false} WriteAll(slots: seq<Slot>, run: seq<State>, n: nat) returns (r: seq<State>)
    requires Run(slots, run)
    requires var s := Last(run); s.slot < |slots| && s.writer.Writing? && s.next < |s.bufs| == |s.boffs|
    requires var s := Last(run); |s.bufs[s.next]| == n * UNIT && s.writer.units <= n
    ensures Run(slots, r) && run <= r
    ensures var s, t := Last(run), Last(r); t == s.(flash := t.flash, programmed := t.programmed, writer := Writing(n))
    decreases n - Last(run).writer.units
  {
    hide Ongoing, Program;
    var s := Last(run);
    if s.writer.units == n {
      return run;
    }
    var o := s.writer.units * UNIT;
    var a := s.boffs[s.next] + o;
    var t := s.(flash := Program(s.flash, a, s.bufs[s.next][o..o + UNIT]), programmed := s.programmed + {a},
                writer := Writing(s.writer.units + 1));
    assert WriteUnit(s, t);
    Extended(slots, run, t);
    r := WriteAll(slots, run + [t], n);
  }

  lemma OneBuffer(slots: seq<Slot>, run: seq<State>, slot: nat, fields: seq<Byte>, data: seq<Byte>, c: nat)
    returns (r: seq<State>)
    requires Run(slots, run) && Between(slots, Last(run), slot, fields, data, c) && c * BUF < |data|
    ensures Run(slots, r) && run <= r && Between(slots, Last(r), slot, fields, data, c + 1)
  {
    hide Ongoing;
    var w := Want(Last(run));
    var units := (w + UNIT - 1) / UNIT;
    var filled := FillBuffer(slots, run, slot, fields, data, c);
    var passed := PassBuffer(slots, filled, data[c * BUF..c * BUF + w]);
    var written := WriteAll(slots, passed, units);
    var t := Last(written);
    var u := t.(writer := Waiting, free := 2, next := Other(t.next), completed := t.completed + 1);
    assert WriteReturns(t, u);
    Extended(slots, written, u);
    r := written + [u];
  }

  lemma {:induction false} AllBuffers(slots: seq<Slot>, run: seq<State>, slot: nat, fields: seq<Byte>, data: seq<Byte>,
                                      c: nat)
    returns (r: seq<State>, last: nat)
    requires Run(slots, run) && Between(slots, Last(run), slot, fields, data, c)
    ensures Run(slots, r) && run <= r && Between(slots, Last(r), slot, fields, data, last) && last * BUF >= |data|
    decreases |data| - c * BUF
  {
    hide Ongoing, Between;
    if c * BUF >= |data| {
      return run, c;
    }
    r := OneBuffer(slots, run, slot, fields, data, c);
    r, last := AllBuffers(slots, r, slot, fields, data, c + 1);
  }

  /** The end of the payload: the empty buffer, the writer gone, and the commit begins. */
  lemma Finish(slots: seq<Slot>, run: seq<State>, slot: nat, fields: seq<Byte>, data: seq<Byte>, c: nat)
    returns (r: seq<State>)
    requires Run(slots, run) && Between(slots, Last(run), slot, fields, data, c) && c * BUF >= |data|
    ensures Run(slots, r) && run <= r && Pushing(slots, Last(r), slot, fields, data)
    ensures Last(r).producer == Committing(0) && Last(r).received == data
  {
    hide Ongoing;
    var s := Last(run);
    var s1 := s.(free := 1, producer := Ending);
    assert TakeBuffer(s, s1);
    Extended(slots, run, s1);
    var s2 := s1.(bufs := s.bufs[s.fill := []], filled := 1, sentinel := true, producer := Joining);
    assert PutSentinel(s1, s2);
    Extended(slots, run + [s1], s2);
    var s3 := s2.(filled := 0, writer := Exited);
    assert WriterTakes(s2, s3);
    Extended(slots, run + [s1] + [s2], s3);
    var s4 := s3.(producer := Committing(0));
    assert Join(s3, s4);
    Extended(slots, run + [s1] + [s2] + [s3], s4);
    r := run + [s1] + [s2] + [s3] + [s4];
    assert data[..|data|] == data;
  }

  lemma {:induction false} CommitAll(slots: seq<Slot>, run: seq<State>, slot: nat, fields: seq<Byte>, data: seq<Byte>)
    returns (r: seq<State>)
    requires Run(slots, run) && Pushing(slots, Last(run), slot, fields, data)
    requires Last(run).producer.Committing? && Last(run).producer.unit <= PAYLOAD_OFF / UNIT
    ensures Run(slots, r) && run <= r && Pushing(slots, Last(r), slot, fields, data)
    ensures Last(r).producer == Committing(PAYLOAD_OFF / UNIT) && Last(r).received == Last(run).received
    decreases PAYLOAD_OFF / UNIT - Last(run).producer.unit
  {
    hide Ongoing, Program, HeaderBlock;
    var s := Last(run);
    if s.producer.unit == PAYLOAD_OFF / UNIT {
      return run;
    }
    var o := s.producer.unit * UNIT;
    var a := slots[s.slot].off + o;
    var t := s.(flash := Program(s.flash, a, HeaderBlock(slots[s.slot].magic, s.fields)[o..o + UNIT]),
                programmed := s.programmed + {a}, producer := Committing(s.producer.unit + 1));
    assert CommitUnit(slots, s, t);
    Extended(slots, run, t);
    r := CommitAll(slots, run + [t], slot, fields, data);
  }

  /** The push begins, up to the creation of the writer. */
  lemma Begin(slots: seq<Slot>, run: seq<State>, slot: nat, fields: seq<Byte>, data: seq<Byte>) returns (r: seq<State>)
    requires Run(slots, run) && Last(run).producer.Idle? && Last(run).guestStopped && !Last(run).writerLost
    requires slot < |slots| && |fields| == 8 && |data| == LengthIn(fields) && 0 < |data| <= MaxLen(slots[slot])
    ensures Run(slots, r) && run <= r && Between(slots, Last(r), slot, fields, data, 0)
  {
    hide Ongoing, LengthIn, Blocks;
    var s := Last(run);
    SlotsKnown(slots, run);
    var s1 := s.(producer := Erasing(0), slot := slot, len := |data|, fields := fields, received := []);
    assert StartPush(slots, s, s1);
    Extended(slots, run, s1);
    var erased := EraseAll(slots, run + [s1], slot, fields, data);
    var t := Last(erased);
    var u := t.(producer := Taking, writer := Waiting, free := 2, filled := 0, writeFailed := false,
                handed := 0, completed := 0, sentinel := false, fill := 0, next := 0,
                bufs := [[], []], boffs := [0, 0]);
    assert StartWriter(t, u);
    Extended(slots, erased, u);
    r := erased + [u];
    assert data[..0] == [];
  }

  lemma Done(slots: seq<Slot>, run: seq<State>) returns (r: seq<State>)
    requires Run(slots, run) && Last(run).slot < |slots| && Last(run).producer == Committing(PAYLOAD_OFF / UNIT)
    ensures Run(slots, r) && run <= r && Last(r) == Last(run).(producer := Idle)
  {
    hide Ongoing;
    assert CommitDone(Last(run), Last(run).(producer := Idle));
    Extended(slots, run, Last(run).(producer := Idle));
    r := run + [Last(run).(producer := Idle)];
  }

  lemma SlotsKnown(slots: seq<Slot>, run: seq<State>)
    requires Run(slots, run)
    ensures |Last(run).records| == |slots| && forall k :: 0 <= k < |slots| ==> |slots[k].magic| == MAGIC_LEN
  {
    hide Ongoing, RecordHolds, IsRun;
    RunIs(slots, run);
    RunHolds(slots, run, |run| - 1);
  }

  /**
   Whatever happened before, failed pushes and power losses included: with the guest stopped and no writer lost, any
   image that fits behind the header can be pushed into any slot, and then the slot is that image.
   */
  lemma PushCanSucceed(slots: seq<Slot>, run: seq<State>, slot: nat, fields: seq<Byte>, data: seq<Byte>)
    returns (r: seq<State>)
    requires IsRun(slots, run) && Last(run).producer.Idle? && Last(run).guestStopped && !Last(run).writerLost
    requires slot < |slots| && |fields| == 8 && |data| == LengthIn(fields) > 0 && 4096 + |data| <= slots[slot].writable
    ensures IsRun(slots, r) && run <= r && Last(r).producer.Idle?
    ensures var flash, a := Last(r).flash, slots[slot].off;
            && a + 4096 + |data| <= |flash|
            && flash[a..a + 8] == slots[slot].magic && flash[a + 8..a + 16] == fields
            && (forall x :: a + 16 <= x < a + 4096 ==> flash[x] == 0xFF)
            && flash[a + 4096..a + 4096 + |data|] == data
  {
    hide Ongoing, Between, LengthIn, Step, Start;
    RunIs(slots, run);
    r := Begin(slots, run, slot, fields, data);
    var c;
    r, c := AllBuffers(slots, r, slot, fields, data, 0);
    r := Finish(slots, r, slot, fields, data, c);
    r := CommitAll(slots, r, slot, fields, data);
    RunIs(slots, r);
    var t := Last(r).(producer := Idle);
    CommittedImage(slots, r, |r| - 1, t);
    r := Done(slots, r);
    RunIs(slots, r);
  }
}
