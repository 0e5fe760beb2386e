/**
 The image pusher as interleaved steps: the receive loop, the flash writer, and NOR flash that only an
 erase can set bits in. Any step may be followed by any other; power may be lost between any two.
 */
module Pusher {

  type Byte = bv8
  const BLANK: Byte := 0xFF

  /** FLASH_ECC_UNIT, IMG_PAYLOAD_OFF, CONFIG_RVT_PUSHER_BUF, OSPI_ERASE_SZ */
  const UNIT := 16
  const PAYLOAD_OFF := 4096
  const BUF := 8192
  const ERASE_SZ := 0x4_0000
  const MAGIC_LEN := 8

  /** A slot of the flash: where it starts, how much of it may be written, and its magic. */
  datatype Slot = Slot(off: nat, writable: nat, magic: seq<Byte>)

  predicate SlotsFit(slots: seq<Slot>, size: nat) {
    && (forall k :: 0 <= k < |slots| ==>
          && slots[k].off % ERASE_SZ == 0 && slots[k].writable % ERASE_SZ == 0
          && slots[k].off + slots[k].writable <= size
          && |slots[k].magic| == MAGIC_LEN && slots[k].magic[0] != BLANK)
    && (forall j, k :: 0 <= j < k < |slots| ==> Apart(slots[j], slots[k]))
  }

  predicate Apart(a: Slot, b: Slot) {
    a.off + a.writable <= b.off || b.off + b.writable <= a.off
  }

  /** img_max_len, without the kernel slot's RAM ceiling, which can only lower it */
  function MaxLen(slot: Slot): nat {
    if slot.writable <= PAYLOAD_OFF then 0 else slot.writable - PAYLOAD_OFF
  }

  /** ROUND_UP(len + IMG_PAYLOAD_OFF, erase size), counted in blocks */
  function Blocks(len: nat): nat {
    (len + PAYLOAD_OFF + ERASE_SZ - 1) / ERASE_SZ
  }

  /* ---- flash ---- */

  function Erase(flash: seq<Byte>, a: nat): (r: seq<Byte>)
    ensures |r| == |flash|
  {
    seq(|flash|, k requires 0 <= k < |flash| => if a <= k < a + ERASE_SZ then BLANK else flash[k])
  }

  function Unmarked(units: set<nat>, a: nat): set<nat> {
    set u | u in units && !(a <= u < a + ERASE_SZ)
  }

  /** Programming a unit can only clear bits. */
  function Program(flash: seq<Byte>, a: nat, data: seq<Byte>): (r: seq<Byte>)
    requires |data| == UNIT
    ensures |r| == |flash|
  {
    seq(|flash|, k requires 0 <= k < |flash| => if a <= k < a + UNIT then flash[k] & data[k - a] else flash[k])
  }

  /** After a failed or interrupted operation on [a, a + n) nothing is known about those bytes. */
  predicate SameOutside(f: seq<Byte>, g: seq<Byte>, a: nat, n: nat) {
    |f| == |g| && forall k :: 0 <= k < |f| && !(a <= k < a + n) ==> g[k] == f[k]
  }

  predicate IsBlank(flash: seq<Byte>, a: nat, n: nat) {
    a + n <= |flash| && forall k :: a <= k < a + n ==> flash[k] == BLANK
  }

  predicate HasMagic(flash: seq<Byte>, slot: Slot) {
    slot.off + MAGIC_LEN <= |flash| && flash[slot.off..slot.off + MAGIC_LEN] == slot.magic
  }

  predicate HasPayload(flash: seq<Byte>, slot: Slot, data: seq<Byte>) {
    var a := slot.off + PAYLOAD_OFF;
    a + |data| <= |flash| && forall k :: 0 <= k < |data| ==> flash[a + k] == data[k]
  }

  /* ---- state ---- */

  datatype Producer =
    | Idle
    | Erasing(block: nat)
    | Taking
    | Filling
    | Ending
    | Joining
    | Committing(unit: nat)
    | Dead

  datatype Writer = Absent | Waiting | Writing(units: nat) | Exited

  /** What the slot holds since its first block was last erased: the announced length and the bytes received. */
  datatype Record = Unknown | Since(len: nat, received: seq<Byte>)

  datatype State = State(
    flash: seq<Byte>,
    programmed: set<nat>,      // units programmed since their block was last erased
    records: seq<Record>,
    guestStopped: bool,
    writerLost: bool,
    producer: Producer,
    writer: Writer,
    slot: nat,
    len: nat,
    fields: seq<Byte>,         // the length and CRC of the header, as they came off the wire
    received: seq<Byte>,
    handed: nat,               // buffers handed over, and buffers the writer is done with
    completed: nat,
    sentinel: bool,
    bufs: seq<seq<Byte>>,      // nl_buf up to nl_blen
    boffs: seq<nat>,
    free: nat,
    filled: nat,
    fill: nat,                 // i in nl_push
    next: nat,                 // w in nl_writer
    writeFailed: bool)

  /** i ^= 1 */
  function Other(i: nat): nat {
    if i == 0 then 1 else 0
  }

  /** off: payload bytes handed over */
  function Off(s: State): nat {
    if s.handed * BUF <= s.len then s.handed * BUF else s.len
  }

  function Want(s: State): nat {
    if s.len - Off(s) < BUF then s.len - Off(s) else BUF
  }

  function RoundUp(n: nat): nat {
    (n + UNIT - 1) / UNIT * UNIT
  }

  /** A buffer padded with 0xFF to a whole number of units. */
  function Padded(b: seq<Byte>): (r: seq<Byte>)
    ensures |r| == RoundUp(|b|) && b <= r
  {
    b + seq(RoundUp(|b|) - |b|, _ => BLANK)
  }

  /** hdrblk of img_commit: magic, length and CRC, then blanks up to the payload. */
  function HeaderBlock(magic: seq<Byte>, fields: seq<Byte>): (r: seq<Byte>)
    requires |magic| == MAGIC_LEN && |fields| == 8
    ensures |r| == PAYLOAD_OFF
  {
    magic + fields + seq(PAYLOAD_OFF - 16, _ => BLANK)
  }

  /** The little-endian number in the first four bytes. */
  function LengthIn(fields: seq<Byte>): nat
    requires |fields| == 8
  {
    fields[0] as int + 0x100 * fields[1] as int + 0x1_0000 * fields[2] as int + 0x100_0000 * fields[3] as int
  }

  lemma LengthIs(fields: seq<Byte>, len: nat)
    requires |fields| == 8 && len < 0x1_0000_0000
    requires fields[0] as int == len % 0x100 && fields[1] as int == len / 0x100 % 0x100
    requires fields[2] as int == len / 0x1_0000 % 0x100 && fields[3] as int == len / 0x100_0000
    ensures LengthIn(fields) == len
  {
    LittleEndian(len, fields[0] as int, fields[1] as int, fields[2] as int, fields[3] as int);
  }

  lemma LittleEndian(n: nat, b0: nat, b1: nat, b2: nat, b3: nat)
    requires b0 == n % 0x100 && b1 == n / 0x100 % 0x100 && b2 == n / 0x1_0000 % 0x100 && b3 == n / 0x100_0000
    ensures n == b0 + 0x100 * b1 + 0x1_0000 * b2 + 0x100_0000 * b3
  {
    var q := n / 0x100;
    assert n / 0x1_0000 == q / 0x100 && n / 0x100_0000 == q / 0x1_0000;
    assert q / 0x1_0000 == q / 0x100 / 0x100;
  }

  /* ---- steps ---- */

  /** main() reports that the run loop has returned. */
  predicate GuestHalts(s: State, t: State) {
    t == s.(guestStopped := true)
  }

  /** nl_push up to the erase: the header is accepted and the guest is known to have stopped. */
  predicate StartPush(slots: seq<Slot>, s: State, t: State) {
    && s.producer.Idle? && !s.writerLost && s.guestStopped
    && t.slot < |slots| && |t.fields| == 8 && t.len == LengthIn(t.fields) && 0 < t.len <= MaxLen(slots[t.slot])
    && t == s.(producer := Erasing(0), slot := t.slot, len := t.len, fields := t.fields, received := [])
  }

  /** One block erased and found blank. */
  predicate EraseBlock(slots: seq<Slot>, s: State, t: State)
    requires s.slot < |slots|
  {
    && s.producer.Erasing? && s.producer.block < Blocks(s.len) && s.slot < |s.records|
    && var a := slots[s.slot].off + s.producer.block * ERASE_SZ;
       t == s.(flash := Erase(s.flash, a),
               programmed := Unmarked(s.programmed, a),
               records := if s.producer.block == 0 then s.records[s.slot := Since(s.len, [])] else s.records,
               producer := Erasing(s.producer.block + 1))
  }

  /** An erase that fails, or whose block is not blank afterwards. */
  predicate EraseFails(slots: seq<Slot>, s: State, t: State)
    requires s.slot < |slots|
  {
    && s.producer.Erasing? && s.producer.block < Blocks(s.len) && s.slot < |s.records|
    && SameOutside(s.flash, t.flash, slots[s.slot].off + s.producer.block * ERASE_SZ, ERASE_SZ)
    && t == s.(flash := t.flash, producer := Idle,
               records := if s.producer.block == 0 then s.records[s.slot := Unknown] else s.records)
  }

  /** Semaphores set up, the writer thread created. */
  predicate StartWriter(s: State, t: State) {
    && s.producer.Erasing? && s.producer.block >= Blocks(s.len)
    && t == s.(producer := Taking, writer := Waiting, free := 2, filled := 0, writeFailed := false,
               handed := 0, completed := 0, sentinel := false, fill := 0, next := 0,
               bufs := [[], []], boffs := [0, 0])
  }

  /** The host goes away before the payload starts. */
  predicate GiveUp(s: State, t: State) {
    s.producer.Erasing? && t == s.(producer := Idle)
  }

  /** k_sem_take(&nl_free): to fill a buffer, or to end when all is handed over or a write has failed. */
  predicate TakeBuffer(s: State, t: State) {
    && s.producer.Taking? && s.free > 0 && s.fill < |s.bufs|
    && t == if Off(s) >= s.len || s.writeFailed then s.(free := s.free - 1, producer := Ending)
            else s.(free := s.free - 1, producer := Filling, bufs := s.bufs[s.fill := []])
  }

  /** CONFIG_RVT_PUSHER_STALL_MS without a buffer back. */
  predicate Stalls(s: State, t: State) {
    (s.producer.Taking? || s.producer.Joining?) && t == s.(producer := Dead, writerLost := true)
  }

  predicate Receive(s: State, t: State, bytes: seq<Byte>) {
    && s.producer.Filling? && s.fill < |s.bufs| && s.slot < |s.records|
    && 0 < |bytes| && |s.bufs[s.fill]| + |bytes| <= Want(s)
    && t == s.(bufs := s.bufs[s.fill := s.bufs[s.fill] + bytes], received := s.received + bytes,
               records := s.records[s.slot := Since(s.len, s.received + bytes)])
  }

  /** Receive timeout or error, or a buffer that took too long to fill. */
  predicate ReceiveFails(s: State, t: State) {
    s.producer.Filling? && t == s.(producer := Ending)
  }

  predicate HandOver(slots: seq<Slot>, s: State, t: State)
    requires s.slot < |slots|
  {
    && s.producer.Filling? && s.fill < |s.bufs| == |s.boffs| && |s.bufs[s.fill]| == Want(s)
    && t == s.(bufs := s.bufs[s.fill := Padded(s.bufs[s.fill])],
               boffs := s.boffs[s.fill := slots[s.slot].off + PAYLOAD_OFF + Off(s)],
               filled := s.filled + 1, handed := s.handed + 1, fill := Other(s.fill), producer := Taking)
  }

  /** The zero-length buffer that ends the writer. */
  predicate PutSentinel(s: State, t: State) {
    && s.producer.Ending? && s.fill < |s.bufs|
    && t == s.(bufs := s.bufs[s.fill := []], filled := s.filled + 1, sentinel := true, producer := Joining)
  }

  /** k_thread_join, then the header only if every byte arrived and every write succeeded. */
  predicate Join(s: State, t: State) {
    && s.producer.Joining? && s.writer.Exited?
    && t == s.(producer := if s.writeFailed || Off(s) != s.len then Idle else Committing(0))
  }

  /** One unit of the header block. */
  predicate CommitUnit(slots: seq<Slot>, s: State, t: State)
    requires s.slot < |slots|
  {
    && s.producer.Committing? && s.producer.unit < PAYLOAD_OFF / UNIT
    && |slots[s.slot].magic| == MAGIC_LEN && |s.fields| == 8
    && var o := s.producer.unit * UNIT;
       var a := slots[s.slot].off + o;
       t == s.(flash := Program(s.flash, a, HeaderBlock(slots[s.slot].magic, s.fields)[o..o + UNIT]),
               programmed := s.programmed + {a}, producer := Committing(s.producer.unit + 1))
  }

  /** The header write fails or is cut short inside a unit. */
  predicate CommitFails(slots: seq<Slot>, s: State, t: State)
    requires s.slot < |slots|
  {
    && s.producer.Committing? && s.producer.unit < PAYLOAD_OFF / UNIT
    && var a := slots[s.slot].off + s.producer.unit * UNIT;
       SameOutside(s.flash, t.flash, a, UNIT)
       && t == s.(flash := t.flash, programmed := s.programmed + {a}, producer := Idle)
  }

  /** Verification only reads; whatever it finds, the push is over. */
  predicate CommitDone(s: State, t: State) {
    s.producer.Committing? && s.producer.unit == PAYLOAD_OFF / UNIT && t == s.(producer := Idle)
  }

  predicate WriterTakes(s: State, t: State) {
    && s.writer.Waiting? && s.filled > 0 && s.next < |s.bufs|
    && t == if s.bufs[s.next] == [] then s.(filled := s.filled - 1, writer := Exited)
            else if s.writeFailed then
              s.(filled := s.filled - 1, free := s.free + 1, next := Other(s.next), completed := s.completed + 1)
            else s.(filled := s.filled - 1, writer := Writing(0))
  }

  predicate WriteUnit(s: State, t: State) {
    && s.writer.Writing? && s.next < |s.bufs| == |s.boffs| && (s.writer.units + 1) * UNIT <= |s.bufs[s.next]|
    && var o := s.writer.units * UNIT;
       var a := s.boffs[s.next] + o;
       t == s.(flash := Program(s.flash, a, s.bufs[s.next][o..o + UNIT]), programmed := s.programmed + {a},
               writer := Writing(s.writer.units + 1))
  }

  /** flash_write fails or is cut short inside a unit: the error sticks, and the buffer goes back. */
  predicate WriteFails(s: State, t: State) {
    && s.writer.Writing? && s.next < |s.bufs| == |s.boffs| && (s.writer.units + 1) * UNIT <= |s.bufs[s.next]|
    && var a := s.boffs[s.next] + s.writer.units * UNIT;
       SameOutside(s.flash, t.flash, a, UNIT)
       && t == s.(flash := t.flash, programmed := s.programmed + {a}, writer := Waiting, free := s.free + 1,
                  next := Other(s.next), completed := s.completed + 1, writeFailed := true)
  }

  predicate WriteReturns(s: State, t: State) {
    && s.writer.Writing? && s.next < |s.bufs| && s.writer.units * UNIT == |s.bufs[s.next]|
    && t == s.(writer := Waiting, free := s.free + 1, next := Other(s.next), completed := s.completed + 1)
  }

  /** Everything but the flash is lost. */
  predicate PowerLoss(s: State, t: State) {
    t == s.(producer := Idle, writer := Absent, guestStopped := false, writerLost := false)
  }

  ghost predicate Step(slots: seq<Slot>, s: State, t: State) {
    || GuestHalts(s, t) || StartPush(slots, s, t) || PowerLoss(s, t)
    || (s.slot < |slots| &&
        (|| EraseBlock(slots, s, t) || EraseFails(slots, s, t) || StartWriter(s, t) || GiveUp(s, t)
         || TakeBuffer(s, t) || Stalls(s, t) || (exists bytes :: Receive(s, t, bytes)) || ReceiveFails(s, t)
         || HandOver(slots, s, t) || PutSentinel(s, t) || Join(s, t)
         || CommitUnit(slots, s, t) || CommitFails(slots, s, t) || CommitDone(s, t)
         || WriterTakes(s, t) || WriteUnit(s, t) || WriteFails(s, t) || WriteReturns(s, t)))
  }

  /** Power-up with whatever the flash holds. */
  predicate Start(slots: seq<Slot>, s: State) {
    && SlotsFit(slots, |s.flash|)
    && s.producer.Idle? && s.writer.Absent? && !s.guestStopped && !s.writerLost
    && |s.records| == |slots| && forall k :: 0 <= k < |slots| ==> s.records[k].Unknown?
  }

  ghost predicate IsRun(slots: seq<Slot>, run: seq<State>) {
    |run| > 0 && Start(slots, run[0]) && forall n :: 0 <= n < |run| - 1 ==> Step(slots, run[n], run[n + 1])
  }

  /* ---- what holds in every state ---- */

  /** The magic is there only with the whole payload behind it. */
  predicate RecordHolds(flash: seq<Byte>, slot: Slot, r: Record) {
    r.Since? ==>
      && PAYLOAD_OFF + r.len <= slot.writable && |r.received| <= r.len
      && (HasMagic(flash, slot) ==> |r.received| == r.len && HasPayload(flash, slot, r.received))
  }

  predicate RecordsHold(slots: seq<Slot>, s: State) {
    |s.records| == |slots| && forall k :: 0 <= k < |slots| ==> RecordHolds(s.flash, slots[k], s.records[k])
  }

  /** Payload bytes in buffer c. */
  function ChunkLen(len: nat, c: nat): nat
    requires c * BUF < len
  {
    if len - c * BUF < BUF then len - c * BUF else BUF
  }

  /** b is buffer c of the payload, padded with blanks to whole units. */
  predicate IsChunk(b: seq<Byte>, received: seq<Byte>, len: nat, c: nat) {
    && c * BUF < len && c * BUF + ChunkLen(len, c) <= |received|
    && |b| == RoundUp(ChunkLen(len, c)) > 0
    && forall k :: 0 <= k < |b| ==> b[k] == if k < ChunkLen(len, c) then received[c * BUF + k] else BLANK
  }

  /** Buffer c is waiting to be programmed, or being programmed, at its place in the slot. */
  predicate InFlight(slots: seq<Slot>, s: State, c: nat)
    requires s.slot < |slots| && |s.bufs| == 2 && |s.boffs| == 2
  {
    IsChunk(s.bufs[c % 2], s.received, s.len, c) && s.boffs[c % 2] == slots[s.slot].off + PAYLOAD_OFF + c * BUF
  }

  function Busy(w: Writer): nat {
    if w.Writing? || w.Exited? then 1 else 0
  }

  function Held(p: Producer): nat {
    if p.Filling? || p.Ending? then 1 else 0
  }

  /** Semaphore tokens and buffer indices: who may touch which buffer. */
  predicate Tokens(s: State) {
    && |s.bufs| == 2 && |s.boffs| == 2
    && s.free + s.filled + Held(s.producer) + Busy(s.writer) == 2
    && s.completed <= s.handed
    && s.filled + Busy(s.writer) == s.handed - s.completed + (if s.sentinel then 1 else 0)
    && s.fill == s.handed % 2 && s.next == s.completed % 2
    && (s.sentinel ==> s.producer.Joining? || s.producer.Dead? || s.producer.Committing?)
    && (s.writer.Exited? ==> s.sentinel && s.completed == s.handed)
    && (s.writer.Writing? ==> s.completed < s.handed)
    && (s.producer.Filling? || s.producer.Ending? || s.producer.Taking? ==> !s.sentinel)
  }

  /** The buffers between the two threads hold the payload in order, the oldest first. */
  predicate Queue(slots: seq<Slot>, s: State)
    requires s.slot < |slots| && |s.bufs| == 2 && |s.boffs| == 2
  {
    && (forall c: nat :: s.completed <= c < s.handed ==> InFlight(slots, s, c))
    && (s.sentinel ==> s.bufs[s.handed % 2] == [])
    && Off(s) <= |s.received| <= s.len && (s.handed > 0 ==> (s.handed - 1) * BUF < s.len)
    && (s.producer.Filling? ==> s.fill < 2 && Off(s) < s.len && |s.bufs[s.fill]| <= Want(s)
                                && s.bufs[s.fill] == s.received[Off(s)..])
    && (s.producer.Taking? ==> |s.received| == Off(s))
  }

  /** Payload bytes programmed so far. */
  function Written(s: State): nat {
    s.completed * BUF + if s.writer.Writing? then s.writer.units * UNIT else 0
  }

  /** What flash shows at payload offset k after `written` bytes have been programmed. */
  function PayloadByte(received: seq<Byte>, written: nat, k: nat): Byte {
    if k < written && k < |received| then received[k] else BLANK
  }

  /** The slot from its start to the end of its erased blocks: blank but for the payload programmed so far. */
  predicate PayloadInFlash(slots: seq<Slot>, s: State)
    requires s.slot < |slots|
  {
    var a := slots[s.slot].off;
    && a + Blocks(s.len) * ERASE_SZ <= |s.flash|
    && IsBlank(s.flash, a, PAYLOAD_OFF)
    && (!s.writeFailed ==>
          && (forall k :: 0 <= k < Blocks(s.len) * ERASE_SZ - PAYLOAD_OFF ==>
                s.flash[a + PAYLOAD_OFF + k] == PayloadByte(s.received, Written(s), k))
          && (forall u :: u in s.programmed && a <= u < a + Blocks(s.len) * ERASE_SZ ==>
                a + PAYLOAD_OFF <= u < a + PAYLOAD_OFF + Written(s)))
  }

  /** A push has been accepted for this slot and the guest is down. */
  predicate Accepted(slots: seq<Slot>, s: State) {
    && s.slot < |slots| && s.slot < |s.records| && 0 < s.len <= MaxLen(slots[s.slot]) && s.guestStopped
    && |s.fields| == 8 && s.len == LengthIn(s.fields)
  }

  predicate ErasingHolds(slots: seq<Slot>, s: State)
    requires s.producer.Erasing? && s.slot < |slots|
  {
    var a, n := slots[s.slot].off, s.producer.block * ERASE_SZ;
    && (s.writer.Absent? || s.writer.Exited?) && s.producer.block <= Blocks(s.len) && s.received == []
    && (s.producer.block > 0 ==> s.slot < |s.records| && s.records[s.slot] == Since(s.len, []))
    && IsBlank(s.flash, a, n)
    && forall u :: u in s.programmed ==> !(a <= u < a + n)
  }

  predicate PayloadHolds(slots: seq<Slot>, s: State)
    requires s.slot < |slots|
  {
    && !s.writer.Absent? && s.slot < |s.records| && s.records[s.slot] == Since(s.len, s.received)
    && Tokens(s) && Queue(slots, s) && PayloadInFlash(slots, s)
    && (s.writer.Writing? ==> !s.writeFailed && s.writer.units * UNIT <= |s.bufs[s.next]|)
  }

  /** The first n bytes of the slot are those of its header: eight of magic, eight of length and CRC, then blanks. */
  predicate HeaderInFlash(flash: seq<Byte>, slot: Slot, fields: seq<Byte>, n: nat) {
    && |slot.magic| == 8 && |fields| == 8 && slot.off + n <= |flash|
    && (forall x :: slot.off <= x < slot.off + n ==>
          var k := x - slot.off;
          flash[x] == if k < 8 then slot.magic[k] else if k < 16 then fields[k - 8] else 0xFF)
  }

  predicate CommitHolds(slots: seq<Slot>, s: State)
    requires s.producer.Committing? && s.slot < |slots|
  {
    var a, n := slots[s.slot].off, s.producer.unit * UNIT;
    && s.writer.Exited? && s.slot < |s.records| && s.records[s.slot] == Since(s.len, s.received)
    && n <= PAYLOAD_OFF && |s.received| == s.len && HasPayload(s.flash, slots[s.slot], s.received)
    && HeaderInFlash(s.flash, slots[s.slot], s.fields, n) && IsBlank(s.flash, a + n, PAYLOAD_OFF - n)
    && forall u :: u in s.programmed && a <= u < a + PAYLOAD_OFF ==> u < a + n
  }

  predicate Inv(slots: seq<Slot>, s: State) {
    && SlotsFit(slots, |s.flash|) && RecordsHold(slots, s)
    && (s.writerLost ==> s.producer.Dead?)
    && match s.producer
       case Idle => s.writer.Absent? || s.writer.Exited?
       case Erasing(_) => Accepted(slots, s) && ErasingHolds(slots, s)
       case Committing(_) => Accepted(slots, s) && CommitHolds(slots, s)
       case _ => Accepted(slots, s) && PayloadHolds(slots, s)
  }

  lemma BlocksFit(slot: Slot, len: nat)
    requires slot.writable % ERASE_SZ == 0 && 0 < len <= MaxLen(slot)
    ensures PAYLOAD_OFF + len <= Blocks(len) * ERASE_SZ <= slot.writable
    ensures PAYLOAD_OFF + len + ERASE_SZ > Blocks(len) * ERASE_SZ
  {
    var w := slot.writable / ERASE_SZ;
    assert slot.writable == w * ERASE_SZ;
  }

  /** A change confined to one slot's writable part leaves every other slot's record alone. */
  lemma OtherRecords(slots: seq<Slot>, s: State, t: State, a: nat, n: nat)
    requires SlotsFit(slots, |s.flash|) && RecordsHold(slots, s) && s.slot < |slots|
    requires SameOutside(s.flash, t.flash, a, n)
    requires slots[s.slot].off <= a && a + n <= slots[s.slot].off + slots[s.slot].writable
    requires |t.records| == |slots| && forall k :: 0 <= k < |slots| && k != s.slot ==> t.records[k] == s.records[k]
    requires RecordHolds(t.flash, slots[s.slot], t.records[s.slot])
    ensures RecordsHold(slots, t) && SlotsFit(slots, |t.flash|)
  {
    forall k | 0 <= k < |slots|
      ensures RecordHolds(t.flash, slots[k], t.records[k])
    {
      if k != s.slot {
        assert RecordHolds(s.flash, slots[k], s.records[k]);
        assert if k < s.slot then Apart(slots[k], slots[s.slot]) else Apart(slots[s.slot], slots[k]);
        SlotUntouched(slots[k], s.flash, t.flash, t.records[k], a, n);
      }
    }
  }

  lemma SlotUntouched(slot: Slot, f: seq<Byte>, g: seq<Byte>, r: Record, a: nat, n: nat)
    requires SameOutside(f, g, a, n) && (a + n <= slot.off || slot.off + slot.writable <= a)
    requires |slot.magic| == MAGIC_LEN && RecordHolds(f, slot, r)
    ensures RecordHolds(g, slot, r)
  {
    if r.Since? {
      if HasMagic(g, slot) {
        assert g[slot.off..slot.off + MAGIC_LEN] == f[slot.off..slot.off + MAGIC_LEN];
      }
    }
  }

  /** A blank header is not a magic. */
  lemma BlankHasNoMagic(flash: seq<Byte>, slot: Slot)
    requires |slot.magic| == MAGIC_LEN && slot.magic[0] != BLANK && IsBlank(flash, slot.off, 1)
    ensures !HasMagic(flash, slot)
  {
    assert slot.off + MAGIC_LEN <= |flash| ==> flash[slot.off..slot.off + MAGIC_LEN][0] == flash[slot.off];
  }

  lemma EraseKeeps(slots: seq<Slot>, s: State, t: State)
    requires Inv(slots, s) && s.slot < |slots| && (EraseBlock(slots, s, t) || EraseFails(slots, s, t))
    ensures Inv(slots, t)
  {
    var slot := slots[s.slot];
    var a := slot.off + s.producer.block * ERASE_SZ;
    BlocksFit(slot, s.len);
    assert SameOutside(s.flash, t.flash, a, ERASE_SZ);
    if s.producer.block > 0 || EraseBlock(slots, s, t) {
      BlankHasNoMagic(t.flash, slot);
    }
    OtherRecords(slots, s, t, a, ERASE_SZ);
  }

  /* ---- the payload phase ---- */

  /** Steps of the two threads that only move buffers and tokens. */
  lemma StartKeeps(slots: seq<Slot>, s: State, t: State)
    requires Inv(slots, s) && (StartWriter(s, t) || GiveUp(s, t))
    ensures Inv(slots, t)
  {
    if StartWriter(s, t) {
      BlocksFit(slots[s.slot], s.len);
    }
  }

  /** A thread that holds a buffer leaves at most one in flight, and it is the other one. */
  lemma OtherInFlight(s: State, c: nat)
    requires Tokens(s) && !s.sentinel && s.completed <= c < s.handed
    requires Held(s.producer) == 1 || s.free > 0
    ensures c == s.handed - 1 && c % 2 != s.fill
  {
  }

  lemma TakeKeeps(slots: seq<Slot>, s: State, t: State)
    requires Inv(slots, s) && TakeBuffer(s, t)
    ensures Inv(slots, t)
  {
    hide HasMagic, HasPayload, RecordHolds, IsChunk, LengthIn, HeaderInFlash, PayloadInFlash;
    forall c: nat | t.completed <= c < t.handed
      ensures InFlight(slots, t, c)
    {
      assert InFlight(slots, s, c);
      OtherInFlight(s, c);
    }
    assert PayloadInFlash(slots, t) by {
      SamePayload(slots, s, t);
    }
  }

  /** Nothing about the flash depends on where the producer is. */
  lemma SamePayload(slots: seq<Slot>, s: State, t: State)
    requires s.slot < |slots| && PayloadInFlash(slots, s)
    requires t.flash == s.flash && t.slot == s.slot && t.len == s.len && t.received == s.received
    requires t.programmed == s.programmed && t.writeFailed == s.writeFailed && Written(t) == Written(s)
    ensures PayloadInFlash(slots, t)
  {
  }

  lemma EndKeeps(slots: seq<Slot>, s: State, t: State)
    requires Inv(slots, s) && (ReceiveFails(s, t) || Stalls(s, t))
    ensures Inv(slots, t)
  {
    hide HasMagic, HasPayload, RecordHolds, IsChunk, LengthIn, HeaderInFlash, PayloadInFlash;
    forall c: nat | t.completed <= c < t.handed
      ensures InFlight(slots, t, c)
    {
      assert InFlight(slots, s, c);
    }
    SamePayload(slots, s, t);
  }

  lemma SentinelKeeps(slots: seq<Slot>, s: State, t: State)
    requires Inv(slots, s) && PutSentinel(s, t)
    ensures Inv(slots, t)
  {
    hide SlotsFit, MaxLen, HasMagic, HasPayload, RecordHolds, IsChunk, LengthIn, HeaderInFlash, PayloadInFlash;
    forall c: nat | t.completed <= c < t.handed
      ensures InFlight(slots, t, c)
    {
      assert InFlight(slots, s, c);
      OtherInFlight(s, c);
    }
    SamePayload(slots, s, t);
  }

  /** What has been programmed is no more than what has been handed over. */
  lemma WrittenWithinOff(slots: seq<Slot>, s: State, k: nat)
    requires s.slot < |slots| && Tokens(s) && Queue(slots, s) && k < Written(s) && k < s.len
    requires s.writer.Writing? ==> s.writer.units * UNIT <= |s.bufs[s.next]|
    ensures k < Off(s) <= |s.received|
  {
    if s.writer.Writing? {
      assert InFlight(slots, s, s.completed);
      RoundUpAtMost(ChunkLen(s.len, s.completed));
    }
  }

  lemma RoundUpAtMost(n: nat)
    ensures n <= RoundUp(n) < n + UNIT
    ensures n <= BUF ==> RoundUp(n) <= BUF
  {
    var q, r := (n + UNIT - 1) / UNIT, (n + UNIT - 1) % UNIT;
    assert n + UNIT - 1 == q * UNIT + r;
  }

  lemma ReceiveKeeps(slots: seq<Slot>, s: State, t: State, bytes: seq<Byte>)
    requires Inv(slots, s) && Receive(s, t, bytes)
    ensures Inv(slots, t)
  {
    hide HasMagic, HasPayload, RecordHolds, RoundUp, LengthIn, HeaderInFlash;
    forall c: nat | t.completed <= c < t.handed
      ensures InFlight(slots, t, c)
    {
      assert InFlight(slots, s, c);
      OtherInFlight(s, c);
    }
    ReceivedPayload(slots, s, t, bytes);
    BlankHasNoMagic(t.flash, slots[s.slot]);
    ActiveRecord(slots, s, t);
  }

  lemma ReceivedPayload(slots: seq<Slot>, s: State, t: State, bytes: seq<Byte>)
    requires s.slot < |slots| && PayloadHolds(slots, s) && Receive(s, t, bytes)
    ensures PayloadInFlash(slots, t)
  {
    hide IsChunk, RoundUp;
    assert |t.received| <= s.len;
    if !s.writeFailed {
      var a := slots[s.slot].off;
      forall k | 0 <= k < Blocks(s.len) * ERASE_SZ - PAYLOAD_OFF
        ensures t.flash[a + PAYLOAD_OFF + k] == PayloadByte(t.received, Written(t), k)
      {
        assert s.flash[a + PAYLOAD_OFF + k] == PayloadByte(s.received, Written(s), k);
        if k < Written(s) && k < s.len {
          WrittenWithinOff(slots, s, k);
        }
      }
    }
  }

  /** Only the active slot's record changes, and its header shows no magic. */
  lemma ActiveRecord(slots: seq<Slot>, s: State, t: State)
    requires RecordsHold(slots, s) && s.slot < |slots| && t.flash == s.flash && !HasMagic(t.flash, slots[s.slot])
    requires |t.records| == |slots| && forall k :: 0 <= k < |slots| && k != s.slot ==> t.records[k] == s.records[k]
    requires t.records[s.slot].Since? && t.records[s.slot].len == s.len && |t.records[s.slot].received| <= s.len
    requires PAYLOAD_OFF + s.len <= slots[s.slot].writable
    ensures RecordsHold(slots, t)
  {
  }

  lemma WriterTokens(slots: seq<Slot>, s: State, t: State)
    requires s.slot < |slots| && Tokens(s) && Queue(slots, s) && (WriterTakes(s, t) || WriteReturns(s, t))
    ensures Tokens(t)
  {
    hide IsChunk;
    if WriterTakes(s, t) {
      EmptyIsSentinel(slots, s);
    }
  }

  lemma HandOverTokens(slots: seq<Slot>, s: State, t: State)
    requires s.slot < |slots| && Tokens(s) && HandOver(slots, s, t)
    ensures Tokens(t) && (s.writer.Writing? ==> t.bufs[t.next] == s.bufs[s.next])
  {
    hide Padded;
  }

  lemma HandOverKeeps(slots: seq<Slot>, s: State, t: State)
    requires Inv(slots, s) && s.slot < |slots| && HandOver(slots, s, t)
    ensures Inv(slots, t)
  {
    hide HasMagic, HasPayload, RecordHolds, LengthIn, HeaderInFlash, PayloadInFlash, Tokens;
    HandOverTokens(slots, s, t);
    HandOverQueue(slots, s, t);
    SamePayload(slots, s, t);
  }

  lemma HandOverQueue(slots: seq<Slot>, s: State, t: State)
    requires s.slot < |slots| && Tokens(s) && Queue(slots, s) && HandOver(slots, s, t)
    ensures Queue(slots, t)
  {
    hide RoundUp;
    RoundUpAtMost(Want(s));
    forall c: nat | t.completed <= c < t.handed
      ensures InFlight(slots, t, c)
    {
      if c < s.handed {
        assert InFlight(slots, s, c);
        OtherInFlight(s, c);
      } else {
        assert ChunkLen(s.len, c) == Want(s);
      }
    }
  }

  lemma JoinKeeps(slots: seq<Slot>, s: State, t: State)
    requires Inv(slots, s) && Join(s, t)
    ensures Inv(slots, t)
  {
    hide HasMagic, RecordHolds, IsChunk, Queue;
    if t.producer.Committing? {
      assert |s.received| == s.len by {
        QueueBounds(slots, s);
      }
      var a := slots[s.slot].off + PAYLOAD_OFF;
      BlocksFit(slots[s.slot], s.len);
      forall k | 0 <= k < |s.received|
        ensures s.flash[a + k] == s.received[k]
      {
        assert s.flash[a + k] == PayloadByte(s.received, Written(s), k);
      }
    }
  }

  lemma QueueBounds(slots: seq<Slot>, s: State)
    requires s.slot < |slots| && |s.bufs| == 2 && |s.boffs| == 2 && Queue(slots, s)
    ensures Off(s) <= |s.received| <= s.len
  {
  }

  /** An empty buffer is the sentinel, reached after everything handed over. */
  lemma EmptyIsSentinel(slots: seq<Slot>, s: State)
    requires s.slot < |slots| && Tokens(s) && Queue(slots, s) && s.writer.Waiting? && s.filled > 0
    ensures s.bufs[s.next] == [] <==> s.completed == s.handed
    ensures s.completed == s.handed ==> s.sentinel
  {
    if s.completed < s.handed {
      assert InFlight(slots, s, s.completed);
    }
  }

  lemma WriterTakesKeeps(slots: seq<Slot>, s: State, t: State)
    requires Inv(slots, s) && s.slot < |slots| && WriterTakes(s, t)
    ensures Inv(slots, t)
  {
    hide HasMagic, HasPayload, RecordHolds, IsChunk, LengthIn, HeaderInFlash, PayloadInFlash, Tokens, InFlight;
    WriterNeedsPush(slots, s);
    WriterTokens(slots, s, t);
    TwoBuffers(s);
    WriterTakesFlight(slots, s, t);
    if s.writeFailed {
      FailedPayload(slots, s, t);
    } else {
      SamePayload(slots, s, t);
    }
  }

  /** The buffers handed over are as they were. */
  lemma WriterTakesFlight(slots: seq<Slot>, s: State, t: State)
    requires Inv(slots, s) && s.slot < |slots| && WriterTakes(s, t)
    ensures |t.bufs| == 2 && |t.boffs| == 2
    ensures forall c: nat :: t.completed <= c < t.handed ==> InFlight(slots, t, c)
  {
    hide HasMagic, HasPayload, RecordHolds, IsChunk, LengthIn, HeaderInFlash, PayloadInFlash, Tokens;
    TwoBuffers(s);
    forall c: nat | t.completed <= c < t.handed
      ensures InFlight(slots, t, c)
    {
      assert InFlight(slots, s, c);
    }
  }

  lemma TwoBuffers(s: State)
    requires Tokens(s)
    ensures |s.bufs| == 2 && |s.boffs| == 2
  {
  }

  /** A live writer means a push is in its payload phase. */
  lemma WriterNeedsPush(slots: seq<Slot>, s: State)
    requires Inv(slots, s) && (s.writer.Waiting? || s.writer.Writing?)
    ensures Accepted(slots, s) && PayloadHolds(slots, s)
    ensures !s.producer.Idle? && !s.producer.Erasing? && !s.producer.Committing?
  {
  }

  lemma FailedPayload(slots: seq<Slot>, s: State, t: State)
    requires s.slot < |slots| && PayloadInFlash(slots, s) && t.writeFailed
    requires t.flash == s.flash && t.slot == s.slot && t.len == s.len
    ensures PayloadInFlash(slots, t)
  {
  }

  lemma WriteReturnsKeeps(slots: seq<Slot>, s: State, t: State)
    requires Inv(slots, s) && s.slot < |slots| && WriteReturns(s, t)
    ensures Inv(slots, t)
  {
    hide HasMagic, HasPayload, RecordHolds, IsChunk, LengthIn, HeaderInFlash, PayloadInFlash, Tokens;
    WriterNeedsPush(slots, s);
    WriterTokens(slots, s, t);
    TwoBuffers(s);
    forall c: nat | t.completed <= c < t.handed
      ensures InFlight(slots, t, c)
    {
      assert InFlight(slots, s, c);
    }
    ReturnedPayload(slots, s, t);
  }

  /** A buffer wholly programmed counts in full: what the padding adds is blank either way. */
  lemma ReturnedPayload(slots: seq<Slot>, s: State, t: State)
    requires s.slot < |slots| && PayloadHolds(slots, s) && WriteReturns(s, t)
    ensures PayloadInFlash(slots, t)
  {
    assert InFlight(slots, s, s.completed);
    RoundUpAtMost(ChunkLen(s.len, s.completed));
    var a := slots[s.slot].off;
    forall k | 0 <= k < Blocks(s.len) * ERASE_SZ - PAYLOAD_OFF
      ensures t.flash[a + PAYLOAD_OFF + k] == PayloadByte(t.received, Written(t), k)
    {
      assert s.flash[a + PAYLOAD_OFF + k] == PayloadByte(s.received, Written(s), k);
    }
  }

  /* ---- programming ---- */

  lemma UnitBelow(n: nat, units: nat)
    requires (units + 1) * UNIT <= RoundUp(n)
    ensures units * UNIT < n
  {
    RoundUpAtMost(n);
  }

  lemma UnitsFit(len: nat, k: nat)
    requires k % UNIT == 0 && k < len
    ensures k + UNIT <= Blocks(len) * ERASE_SZ - PAYLOAD_OFF
  {
    var b, q := Blocks(len), k / UNIT;
    assert k == q * UNIT && b * ERASE_SZ - PAYLOAD_OFF == (b * 0x4000 - 256) * UNIT;
    assert b * ERASE_SZ >= len + PAYLOAD_OFF;
  }

  predicate WriterReady(s: State) {
    s.writer.Writing? && s.next < |s.bufs| == |s.boffs| && (s.writer.units + 1) * UNIT <= |s.bufs[s.next]|
  }

  lemma SlotIsWhole(slots: seq<Slot>, size: nat, k: nat)
    requires SlotsFit(slots, size) && k < |slots|
    ensures slots[k].writable % ERASE_SZ == 0 && slots[k].off + slots[k].writable <= size
  {
  }

  /** Where the next unit goes. */
  lemma WriterPlace(slots: seq<Slot>, s: State)
    requires SlotsFit(slots, |s.flash|) && Accepted(slots, s) && PayloadHolds(slots, s) && WriterReady(s)
    ensures var slot, a := slots[s.slot], s.boffs[s.next] + s.writer.units * UNIT;
            && a == slot.off + PAYLOAD_OFF + Written(s) && Written(s) < s.len
            && a + UNIT <= slot.off + Blocks(s.len) * ERASE_SZ <= slot.off + slot.writable
            && (s.producer.Filling? ==> s.fill != s.next)
  {
    hide RoundUp, PayloadInFlash, SlotsFit, LengthIn, MaxLen, HasMagic;
    SlotIsWhole(slots, |s.flash|, s.slot);
    assert InFlight(slots, s, s.completed);
    UnitBelow(ChunkLen(s.len, s.completed), s.writer.units);
    BlocksFit(slots[s.slot], s.len);
    UnitsFit(s.len, s.completed * BUF + s.writer.units * UNIT);
    if s.producer.Filling? {
      OtherInFlight(s, s.completed);
    }
  }

  lemma BlankAhead(slots: seq<Slot>, s: State)
    requires s.slot < |slots| && PayloadInFlash(slots, s) && !s.writeFailed
    requires Written(s) + UNIT <= Blocks(s.len) * ERASE_SZ - PAYLOAD_OFF
    ensures IsBlank(s.flash, slots[s.slot].off + PAYLOAD_OFF + Written(s), UNIT)
    ensures slots[s.slot].off + PAYLOAD_OFF + Written(s) !in s.programmed
  {
    var a := slots[s.slot].off + PAYLOAD_OFF;
    forall x | a + Written(s) <= x < a + Written(s) + UNIT
      ensures s.flash[x] == BLANK
    {
      var k := x - a;
      assert s.flash[a + k] == PayloadByte(s.received, Written(s), k);
    }
  }

  /**
   What the writer is about to program is inside the slot, blank, not programmed since its block was
   erased, and not in the buffer being filled; and the guest has stopped.
   */
  lemma WriterUnit(slots: seq<Slot>, s: State)
    requires Inv(slots, s) && WriterReady(s)
    ensures s.slot < |slots| && s.guestStopped
    ensures var slot, a := slots[s.slot], s.boffs[s.next] + s.writer.units * UNIT;
            && slot.off + PAYLOAD_OFF <= a && a + UNIT <= slot.off + slot.writable
            && IsBlank(s.flash, a, UNIT) && a !in s.programmed
            && (s.producer.Filling? ==> s.fill != s.next)
  {
    hide HasMagic, HasPayload, RecordHolds, LengthIn, HeaderInFlash, Tokens, Queue, PayloadInFlash;
    WriterNeedsPush(slots, s);
    WriterPlace(slots, s);
    BlankAhead(slots, s);
  }

  lemma BlankAnd(b: Byte)
    ensures BLANK & b == b
  {
  }

  /** A byte of a buffer in flight, by its place in the payload. */
  lemma ChunkByte(b: seq<Byte>, received: seq<Byte>, len: nat, c: nat, k: nat)
    requires IsChunk(b, received, len, c) && |received| <= len && c * BUF <= k < c * BUF + |b|
    ensures b[k - c * BUF] == if k < |received| then received[k] else BLANK
  {
    RoundUpAtMost(ChunkLen(len, c));
    assert ChunkLen(len, c) == BUF ==> |b| == BUF;
  }

  lemma ProgramByte(flash: seq<Byte>, a: nat, data: seq<Byte>, x: nat)
    requires |data| == UNIT && a + UNIT <= |flash| && x < |flash| && IsBlank(flash, a, UNIT)
    ensures Program(flash, a, data)[x] == if a <= x < a + UNIT then data[x - a] else flash[x]
  {
    if a <= x < a + UNIT {
      BlankAnd(data[x - a]);
    }
  }

  /** A byte of flash after one more unit of the payload. */
  lemma ProgrammedByte(slots: seq<Slot>, s: State, t: State, k: nat)
    requires SlotsFit(slots, |s.flash|) && Accepted(slots, s) && PayloadHolds(slots, s) && WriteUnit(s, t)
    requires k < Blocks(s.len) * ERASE_SZ - PAYLOAD_OFF
    ensures var a := slots[s.slot].off + PAYLOAD_OFF;
            a + k < |t.flash| == |s.flash| && t.flash[a + k] == PayloadByte(s.received, Written(s) + UNIT, k)
  {
    hide RoundUp, Queue, Program, IsChunk, SlotsFit, Apart, LengthIn, HasMagic, HasPayload, RecordHolds;
    WriterPlace(slots, s);
    NextInFlight(slots, s);
    BlankAhead(slots, s);
    var a, w, c := slots[s.slot].off + PAYLOAD_OFF, Written(s), s.completed;
    var buf := s.bufs[s.next];
    var data := buf[s.writer.units * UNIT..s.writer.units * UNIT + UNIT];
    assert s.flash[a + k] == PayloadByte(s.received, w, k);
    ProgramByte(s.flash, a + w, data, a + k);
    if w <= k < w + UNIT {
      ChunkByte(buf, s.received, s.len, c, k);
      assert data[k - w] == buf[k - c * BUF];
    }
  }

  /** Flash after one more unit of the payload. */
  lemma ProgrammedPayload(slots: seq<Slot>, s: State, t: State)
    requires SlotsFit(slots, |s.flash|) && Accepted(slots, s) && PayloadHolds(slots, s) && WriteUnit(s, t)
    ensures PayloadInFlash(slots, t) && Written(t) == Written(s) + UNIT
  {
    hide RoundUp, Queue, Program, IsChunk, SlotsFit, Apart, LengthIn, HasMagic, HasPayload, RecordHolds, PayloadByte;
    WriterPlace(slots, s);
    var a, w := slots[s.slot].off + PAYLOAD_OFF, Written(s);
    var data := s.bufs[s.next][s.writer.units * UNIT..s.writer.units * UNIT + UNIT];
    forall k: nat | k < Blocks(s.len) * ERASE_SZ - PAYLOAD_OFF
      ensures t.flash[a + k] == PayloadByte(t.received, Written(t), k)
    {
      ProgrammedByte(slots, s, t, k);
    }
    HeaderStaysBlank(slots, s, t, a + w, data);
  }

  lemma HeaderStaysBlank(slots: seq<Slot>, s: State, t: State, a: nat, data: seq<Byte>)
    requires s.slot < |slots| && IsBlank(s.flash, slots[s.slot].off, PAYLOAD_OFF) && |data| == UNIT
    requires slots[s.slot].off + PAYLOAD_OFF <= a && t.flash == Program(s.flash, a, data)
    ensures IsBlank(t.flash, slots[s.slot].off, PAYLOAD_OFF)
  {
  }

  lemma NextInFlight(slots: seq<Slot>, s: State)
    requires s.slot < |slots| && Tokens(s) && Queue(slots, s) && s.completed < s.handed
    ensures InFlight(slots, s, s.completed)
    ensures Off(s) <= |s.received| <= s.len
  {
  }

  lemma WriteUnitKeeps(slots: seq<Slot>, s: State, t: State)
    requires Inv(slots, s) && s.slot < |slots| && WriteUnit(s, t)
    ensures Inv(slots, t)
  {
    hide HasMagic, HasPayload, RecordHolds, LengthIn, HeaderInFlash, Tokens, Queue, PayloadInFlash, Apart;
    WriterNeedsPush(slots, s);
    WriterPlace(slots, s);
    ProgrammedPayload(slots, s, t);
    WritingOn(slots, s, t);
    WriterRecords(slots, s, t, slots[s.slot].off + PAYLOAD_OFF + Written(s));
  }

  /** One more unit moves no token and no buffer. */
  lemma WritingOn(slots: seq<Slot>, s: State, t: State)
    requires s.slot < |slots| && Tokens(s) && Queue(slots, s) && WriteUnit(s, t)
    ensures Tokens(t) && Queue(slots, t)
  {
    hide IsChunk;
    forall c: nat | t.completed <= c < t.handed
      ensures InFlight(slots, t, c)
    {
      assert InFlight(slots, s, c);
    }
  }

  /** Programming payload leaves every record as it should be. */
  lemma WriterRecords(slots: seq<Slot>, s: State, t: State, a: nat)
    requires SlotsFit(slots, |s.flash|) && RecordsHold(slots, s) && Accepted(slots, s)
    requires t.slot == s.slot && t.len == s.len && t.records == s.records && PayloadInFlash(slots, t)
    requires SameOutside(s.flash, t.flash, a, UNIT)
    requires slots[s.slot].off <= a && a + UNIT <= slots[s.slot].off + slots[s.slot].writable
    ensures RecordsHold(slots, t) && SlotsFit(slots, |t.flash|)
  {
    hide HasMagic, HasPayload;
    BlankHasNoMagic(t.flash, slots[s.slot]);
    OtherRecords(slots, s, t, a, UNIT);
  }

  lemma WriteFailsKeeps(slots: seq<Slot>, s: State, t: State)
    requires Inv(slots, s) && s.slot < |slots| && WriteFails(s, t)
    ensures Inv(slots, t)
  {
    hide HasMagic, HasPayload, RecordHolds, LengthIn, HeaderInFlash, Tokens, Queue, Apart;
    WriterNeedsPush(slots, s);
    WriterPlace(slots, s);
    FailingMoves(slots, s, t);
    WriterRecords(slots, s, t, slots[s.slot].off + PAYLOAD_OFF + Written(s));
  }

  lemma FailingMoves(slots: seq<Slot>, s: State, t: State)
    requires s.slot < |slots| && Tokens(s) && Queue(slots, s) && WriteFails(s, t)
    ensures Tokens(t) && Queue(slots, t)
  {
    hide IsChunk;
    forall c: nat | t.completed <= c < t.handed
      ensures InFlight(slots, t, c)
    {
      assert InFlight(slots, s, c);
    }
  }

  /** What the commit is about to program: inside the slot, blank, not programmed since its erase. */
  lemma CommitPlace(slots: seq<Slot>, s: State)
    requires Inv(slots, s) && s.producer.Committing? && s.producer.unit < PAYLOAD_OFF / UNIT
    ensures s.slot < |slots| && s.guestStopped
    ensures var slot, a := slots[s.slot], slots[s.slot].off + s.producer.unit * UNIT;
            && slot.off <= a && a + UNIT <= slot.off + PAYLOAD_OFF <= slot.off + slot.writable
            && IsBlank(s.flash, a, UNIT) && a !in s.programmed
  {
    hide HasMagic, HasPayload, RecordHolds;
    BlocksFit(slots[s.slot], s.len);
  }

  lemma CommitKeeps(slots: seq<Slot>, s: State, t: State)
    requires Inv(slots, s) && s.slot < |slots| && (CommitUnit(slots, s, t) || CommitFails(slots, s, t))
    ensures Inv(slots, t)
  {
    hide HasMagic, Apart, HeaderBlock, Program, HeaderInFlash, LengthIn;
    CommitPlace(slots, s);
    var slot, a := slots[s.slot], slots[s.slot].off + s.producer.unit * UNIT;
    BlocksFit(slot, s.len);
    if CommitUnit(slots, s, t) {
      HeaderGrows(slot, s.flash, s.fields, s.producer.unit);
      ProgramOutside(s.flash, a, HeaderBlock(slot.magic, s.fields)[s.producer.unit * UNIT..s.producer.unit * UNIT + UNIT]);
    }
    PayloadUntouched(slot, s.flash, t.flash, s.received, a);
    OtherRecords(slots, s, t, a, UNIT);
  }

  /** One more unit of the header. */
  lemma HeaderGrows(slot: Slot, flash: seq<Byte>, fields: seq<Byte>, u: nat)
    requires |slot.magic| == MAGIC_LEN && |fields| == 8 && u < PAYLOAD_OFF / UNIT
    requires HeaderInFlash(flash, slot, fields, u * UNIT) && IsBlank(flash, slot.off + u * UNIT, UNIT)
    ensures var data := HeaderBlock(slot.magic, fields)[u * UNIT..u * UNIT + UNIT];
            HeaderInFlash(Program(flash, slot.off + u * UNIT, data), slot, fields, (u + 1) * UNIT)
  {
    hide HeaderBlock, Program;
    var o, b := u * UNIT, HeaderBlock(slot.magic, fields);
    var a, data := slot.off + u * UNIT, b[o..o + UNIT];
    var g := Program(flash, a, data);
    forall x | slot.off <= x < a + UNIT
      ensures var k := x - slot.off;
              g[x] == if k < 8 then slot.magic[k] else if k < 16 then fields[k - 8] else 0xFF
    {
      ProgramByte(flash, a, data, x);
      HeaderByte(slot.magic, fields, x - slot.off);
      if x >= a {
        assert data[x - a] == b[x - slot.off];
      }
    }
  }

  lemma HeaderByte(magic: seq<Byte>, fields: seq<Byte>, k: nat)
    requires |magic| == MAGIC_LEN && |fields| == 8 && k < PAYLOAD_OFF
    ensures HeaderBlock(magic, fields)[k] == if k < 8 then magic[k] else if k < 16 then fields[k - 8] else 0xFF
  {
  }

  lemma ProgramOutside(flash: seq<Byte>, a: nat, data: seq<Byte>)
    requires |data| == UNIT
    ensures SameOutside(flash, Program(flash, a, data), a, UNIT)
  {
  }

  lemma PayloadUntouched(slot: Slot, f: seq<Byte>, g: seq<Byte>, data: seq<Byte>, a: nat)
    requires SameOutside(f, g, a, UNIT) && a + UNIT <= slot.off + PAYLOAD_OFF && HasPayload(f, slot, data)
    ensures HasPayload(g, slot, data)
  {
  }

  lemma QuietSteps(slots: seq<Slot>, s: State, t: State)
    requires Inv(slots, s)
    requires GuestHalts(s, t) || StartPush(slots, s, t) || PowerLoss(s, t) || CommitDone(s, t)
    ensures Inv(slots, t)
  {
    hide HasMagic, HasPayload, RecordHolds, IsChunk;
    if GuestHalts(s, t) && s.slot < |slots| && !s.producer.Idle? && !s.producer.Erasing? && !s.producer.Committing? {
      HaltMoves(slots, s, t);
    }
  }

  lemma HaltMoves(slots: seq<Slot>, s: State, t: State)
    requires s.slot < |slots| && PayloadHolds(slots, s) && GuestHalts(s, t)
    ensures PayloadHolds(slots, t)
  {
    hide IsChunk, PayloadInFlash;
    forall c: nat | t.completed <= c < t.handed
      ensures InFlight(slots, t, c)
    {
      assert InFlight(slots, s, c);
    }
    SamePayload(slots, s, t);
  }

  /** Every step keeps what holds. */
  lemma StepKeeps(slots: seq<Slot>, s: State, t: State)
    requires Inv(slots, s) && Step(slots, s, t)
    ensures Inv(slots, t)
  {
    hide Inv, GuestHalts, StartPush, PowerLoss, EraseBlock, EraseFails, StartWriter, GiveUp, TakeBuffer, Stalls,
         Receive,
         ReceiveFails, HandOver, PutSentinel, Join, CommitUnit, CommitFails, CommitDone, WriterTakes, WriteUnit,
         WriteFails, WriteReturns;
    if GuestHalts(s, t) || StartPush(slots, s, t) || PowerLoss(s, t) || CommitDone(s, t) {
      QuietSteps(slots, s, t);
    } else if EraseBlock(slots, s, t) || EraseFails(slots, s, t) {
      EraseKeeps(slots, s, t);
    } else if StartWriter(s, t) || GiveUp(s, t) {
      StartKeeps(slots, s, t);
    } else if TakeBuffer(s, t) {
      TakeKeeps(slots, s, t);
    } else if ReceiveFails(s, t) || Stalls(s, t) {
      EndKeeps(slots, s, t);
    } else if exists bytes :: Receive(s, t, bytes) {
      var bytes :| Receive(s, t, bytes);
      ReceiveKeeps(slots, s, t, bytes);
    } else if HandOver(slots, s, t) {
      HandOverKeeps(slots, s, t);
    } else if PutSentinel(s, t) {
      SentinelKeeps(slots, s, t);
    } else if Join(s, t) {
      JoinKeeps(slots, s, t);
    } else if CommitUnit(slots, s, t) || CommitFails(slots, s, t) {
      CommitKeeps(slots, s, t);
    } else if WriterTakes(s, t) {
      WriterTakesKeeps(slots, s, t);
    } else if WriteUnit(s, t) {
      WriteUnitKeeps(slots, s, t);
    } else if WriteFails(s, t) {
      WriteFailsKeeps(slots, s, t);
    } else {
      WriteReturnsKeeps(slots, s, t);
    }
  }

  lemma StartHolds(slots: seq<Slot>, s: State)
    requires Start(slots, s)
    ensures Inv(slots, s)
  {
  }

  lemma {:induction false} RunHolds(slots: seq<Slot>, run: seq<State>, n: nat)
    requires IsRun(slots, run) && n < |run|
    ensures Inv(slots, run[n])
  {
    hide Inv, Step, Start;
    if n == 0 {
      StartHolds(slots, run[0]);
    } else {
      RunHolds(slots, run, n - 1);
      StepKeeps(slots, run[n - 1], run[n]);
    }
  }

  /**
   In every state of every run, power losses included: from the erase of a slot's first block on, the
   slot shows its magic only while it holds all the announced bytes, exactly as received.
   */
  lemma MagicMeansPayload(slots: seq<Slot>, run: seq<State>, n: nat, k: nat)
    requires IsRun(slots, run) && n < |run| && k < |slots|
    ensures |run[n].records| == |slots|
    ensures var r := run[n].records[k];
            r.Since? && HasMagic(run[n].flash, slots[k]) ==>
              |r.received| == r.len && HasPayload(run[n].flash, slots[k], r.received)
  {
    RunHolds(slots, run, n);
    assert RecordHolds(run[n].flash, slots[k], run[n].records[k]);
  }

  /**
   A commit that reaches its end leaves a whole image: the magic, the length as four little-endian bytes, four bytes of
   CRC, blanks up to offset 4096, and behind them every byte received, of which there are as many as the length says.
   */
  lemma CommittedImage(slots: seq<Slot>, run: seq<State>, n: nat, t: State)
    requires IsRun(slots, run) && n < |run| && CommitDone(run[n], t)
    ensures run[n].slot < |slots| && |run[n].fields| == 8
    ensures var s, slot := run[n], slots[run[n].slot];
            var a := slot.off;
            && HasMagic(t.flash, slot) && |s.received| == s.len && a + 4096 + s.len <= |t.flash|
            && t.flash[a..a + 8] == slot.magic && t.flash[a + 8..a + 16] == s.fields
            && s.len == LengthIn(t.flash[a + 8..a + 16])
            && (forall x :: a + 16 <= x < a + 4096 ==> t.flash[x] == 0xFF)
            && t.flash[a + 4096..a + 4096 + s.len] == s.received
  {
    hide Inv, HasMagic, LengthIn;
    RunHolds(slots, run, n);
    CommitEnds(slots, run[n]);
    WholeImage(slots[run[n].slot], run[n].flash, run[n].fields, run[n].received);
  }

  lemma CommitEnds(slots: seq<Slot>, s: State)
    requires Inv(slots, s) && s.producer == Committing(PAYLOAD_OFF / UNIT)
    ensures s.slot < |slots| && |s.fields| == 8 && s.len == LengthIn(s.fields) == |s.received|
    ensures HeaderInFlash(s.flash, slots[s.slot], s.fields, 4096) && HasPayload(s.flash, slots[s.slot], s.received)
  {
    hide RecordHolds, HeaderInFlash, HasPayload, LengthIn;
  }

  lemma WholeImage(slot: Slot, flash: seq<Byte>, fields: seq<Byte>, received: seq<Byte>)
    requires |fields| == 8 && |received| == LengthIn(fields)
    requires HeaderInFlash(flash, slot, fields, 4096) && HasPayload(flash, slot, received)
    ensures var a, n := slot.off, |received|;
            && HasMagic(flash, slot) && a + 4096 + n <= |flash|
            && flash[a..a + 8] == slot.magic && flash[a + 8..a + 16] == fields
            && (forall x :: a + 16 <= x < a + 4096 ==> flash[x] == 0xFF)
            && flash[a + 4096..a + 4096 + n] == received
  {
    hide LengthIn;
    var a := slot.off;
    assert flash[a + 8..a + 16] == fields;
    assert flash[a..a + 8] == slot.magic;
    forall k | 0 <= k < |received|
      ensures flash[a + 4096..a + 4096 + |received|][k] == received[k]
    {
      assert flash[a + 4096 + k] == received[k];
    }
  }

  /** The writer never touches the buffer being filled, and takes buffers in the order they were filled. */
  lemma BuffersKeptApart(slots: seq<Slot>, run: seq<State>, n: nat)
    requires IsRun(slots, run) && n < |run| && run[n].writer.Writing?
    ensures var s := run[n];
            && s.slot < |slots| && |s.bufs| == 2 && |s.boffs| == 2
            && (s.producer.Filling? ==> s.fill != s.next)
            && s.next == s.completed % 2 && IsChunk(s.bufs[s.next], s.received, s.len, s.completed)
            && s.boffs[s.next] == slots[s.slot].off + PAYLOAD_OFF + s.completed * BUF
  {
    hide HasMagic, HasPayload, RecordHolds, IsChunk, LengthIn, HeaderInFlash, PayloadInFlash;
    var s := run[n];
    RunHolds(slots, run, n);
    WriterNeedsPush(slots, s);
    assert InFlight(slots, s, s.completed);
    if s.producer.Filling? {
      OtherInFlight(s, s.completed);
    }
  }

  /** While a push is under way, tokens on the semaphores and buffers held by the threads make two. */
  lemma TokensAreConserved(slots: seq<Slot>, run: seq<State>, n: nat)
    requires IsRun(slots, run) && n < |run| && (run[n].writer.Waiting? || run[n].writer.Writing?)
    ensures var s := run[n];
            s.free + s.filled + (if s.writer.Writing? then 1 else 0)
            + (if s.producer.Filling? || s.producer.Ending? then 1 else 0) == 2
  {
    RunHolds(slots, run, n);
    WriterNeedsPush(slots, run[n]);
  }

  /** A unit that the next step may program. */
  predicate AboutToProgram(slots: seq<Slot>, s: State, a: nat) {
    || (WriterReady(s) && a == s.boffs[s.next] + s.writer.units * UNIT)
    || (s.producer.Committing? && s.producer.unit < PAYLOAD_OFF / UNIT && s.slot < |slots|
        && a == slots[s.slot].off + s.producer.unit * UNIT)
  }

  /**
   Over any sequence of pushes, failures and retries: a unit about to be programmed is blank and was not
   programmed since its block was erased, lies in the slot being pushed, and the guest has stopped.
   */
  lemma NeverProgrammedTwice(slots: seq<Slot>, run: seq<State>, n: nat, a: nat)
    requires IsRun(slots, run) && n < |run| && AboutToProgram(slots, run[n], a)
    ensures var s := run[n];
            && s.slot < |slots| && s.guestStopped
            && a !in s.programmed && IsBlank(s.flash, a, UNIT)
            && slots[s.slot].off <= a && a + UNIT <= slots[s.slot].off + slots[s.slot].writable
  {
    hide Inv;
    RunHolds(slots, run, n);
    if WriterReady(run[n]) && a == run[n].boffs[run[n].next] + run[n].writer.units * UNIT {
      WriterUnit(slots, run[n]);
    } else {
      CommitPlace(slots, run[n]);
    }
  }

  /** Erases stay inside the pushed slot too, and wait for the guest. */
  lemma ErasesStayInside(slots: seq<Slot>, run: seq<State>, n: nat)
    requires IsRun(slots, run) && n < |run| && run[n].producer.Erasing? && run[n].producer.block < Blocks(run[n].len)
    ensures var s := run[n];
            && s.slot < |slots| && s.guestStopped
            && slots[s.slot].off + (s.producer.block + 1) * ERASE_SZ <= slots[s.slot].off + slots[s.slot].writable
  {
    RunHolds(slots, run, n);
    BlocksFit(slots[run[n].slot], run[n].len);
  }
}
