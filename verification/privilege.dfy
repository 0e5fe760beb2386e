/**
 Privilege, traps and the CSRs behind them, from the host's S-mode boot state on. A register of flags
 is the set of its bit numbers; one holding an address or data is a number.
 */
module Privilege {
  import opened Basics
  import opened Powers

  const PRV_U := 0
  const PRV_S := 1
  const PRV_M := 3

  type Bits = set<nat>

  // bits of mstatus
  const UIE := 0
  const SIE := 1
  const MIE := 3
  const UPIE := 4
  const SPIE := 5
  const MPIE := 7
  const SPP := 8
  const MPP: Bits := {11, 12}
  const FS: Bits := {13, 14}
  const XS: Bits := {15, 16}
  const MPRV := 17
  const SUM := 18
  const MXR := 19
  const SSTATUS_MASK: Bits := {UIE, SIE, UPIE, SPIE, SPP, SUM, MXR} + FS + XS
  const MSTATUS_MASK: Bits := {UIE, SIE, MIE, UPIE, SPIE, MPIE, SPP, MPRV, SUM, MXR} + MPP + FS

  // bits of mip and mie
  const SSIP := 1
  const MSIP := 3
  const STIP := 5
  const MTIP := 7
  const SEIP := 9

  /** Every exception cause, and those but for the ecalls from S, H and M. */
  const CAUSES: Bits := {0, 1, 2, 3, 4, 5, 6, 7, 8, 9, 10, 11, 12, 13, 14, 15}
  const DELEGATED: Bits := {0, 1, 2, 3, 4, 5, 6, 7, 8, 12, 13, 14, 15}
  const S_INTERRUPTS: Bits := {SSIP, STIP, SEIP}

  const ILLEGAL_INSTRUCTION := 2
  const USER_ECALL := 8
  const SUPERVISOR_ECALL := 9

  /** The flags of a 32-bit word. */
  function BitsOf(val: nat): Bits {
    set i: nat | i < 32 && Shr(val, i) % 2 == 1
  }

  /** What reading a control register gives; counters and identity registers are told apart no further. */
  datatype CsrValue = Flags(bits: Bits) | Word(val: nat) | Reason(cause: CauseRegister) | Elsewhere

  const SUPERVISOR_CSRS: set<nat> :=
    {0x001, 0x002, 0x003, 0x100, 0x104, 0x105, 0x106, 0x140, 0x141, 0x142, 0x143, 0x144, 0x180}

  /** get_mstatus: bit 31 sums up the FS and XS fields */
  function WithSd(bits: Bits): Bits {
    if FS <= bits || XS <= bits then bits + {31} else bits
  }

  /** set_frm */
  function RoundingField(val: nat): nat {
    if val >= 5 then 0 else val
  }

  /** Registers that share the state of the floating-point unit. */
  predicate FloatState(csr: nat) {
    csr == 0x001 || csr == 0x002 || csr == 0x003 || csr == 0x100
  }

  /** The part of a written value that a supervisor register keeps. */
  function Legal(csr: nat, val: nat, delegated: Bits, xs: Bits): CsrValue {
    match csr
    case 0x001 => Word(val % 32)
    case 0x002 => Word(RoundingField(val % 8))
    case 0x003 => Word(val % 32 + 32 * RoundingField(val / 32 % 8))
    case 0x100 => Flags(WithSd(BitsOf(val) * (SSTATUS_MASK - XS) + xs))
    case 0x104 => Flags(BitsOf(val) * delegated)
    case 0x105 => Word(val - val % 4)
    case 0x106 => Flags(BitsOf(val) * {0, 1, 2})
    case 0x141 => Word(val - val % 2)
    case 0x142 => Reason(Written(val))
    case 0x144 => Flags(BitsOf(val) * delegated)
    case 0x180 => Word(val % 0x40_0000 + val / 0x8000_0000 % 2 * 0x8000_0000)
    case _ => Word(val)
  }

  /** The registers of M that csr_write knows, but misa, which it leaves alone. */
  const MACHINE_CSRS := {0x300, 0x302, 0x303, 0x304, 0x305, 0x306, 0x340, 0x341, 0x342, 0x343, 0x344}
  const M_INTERRUPTS: Bits := {MSIP, MTIP, SSIP, STIP, SEIP}

  /** What a machine register reads as once val is written to it; a register of bits keeps those that are not writable. */
  function MachineLegal(csr: nat, val: nat, was: Bits): CsrValue {
    match csr
    case 0x300 => Flags(WithSd(Replaced(was, val, MSTATUS_MASK)))
    case 0x302 => Flags(Replaced(was, val, CAUSES))
    case 0x303 => Flags(Replaced(was, val, S_INTERRUPTS))
    case 0x304 => Flags(Replaced(was, val, M_INTERRUPTS))
    case 0x305 => Word(val - val % 4)
    case 0x306 => Flags(BitsOf(val) * {0, 1, 2})
    case 0x341 => Word(val - val % 2)
    case 0x342 => Reason(Written(val))
    case 0x344 => Flags(Replaced(was, val, {SSIP, STIP}))
    case _ => Word(val)
  }

  function Replaced(was: Bits, val: nat, mask: Bits): Bits {
    was - mask + BitsOf(val) * mask
  }

  /* ---- the same, bit by bit ---- */

  /** Bit i of a word is 1 when the word is an odd number of 2^i, but for what is below. */
  lemma BitOfWord(val: nat, high: nat, b: nat, low: nat, i: nat)
    requires i < 32 && b <= 1 && low < Pow2(i) && val == (2 * high + b) * Pow2(i) + low
    ensures i in BitsOf(val) <==> b == 1
  {
    hide Pow2, Shr, Low, Shl;
    ShlMul(2 * high + b, i);
    TwoFields(2 * high + b, low, i);
    assert (2 * high + b) % 2 == b;
  }

  /** sstatus keeps the bits a supervisor may set, XS as it was, and sums FS and XS up in bit 31. */
  lemma StatusKeeps(val: nat, delegated: Bits, xs: Bits)
    requires xs <= {15, 16}
    ensures var r, w := Legal(0x100, val, delegated, xs), BitsOf(val);
            && r.Flags?
            && (forall i :: i != 31 ==>
                  (i in r.bits <==>
                     if i == 15 || i == 16 then i in xs else i in w && i in {0, 1, 4, 5, 8, 13, 14, 18, 19}))
            && (31 in r.bits <==> (13 in w && 14 in w) || (15 in xs && 16 in xs))
  {
    hide BitsOf;
  }

  /** Of sie and sip the delegated bits are kept, of scounteren the lowest three. */
  lemma FlagsKept(csr: nat, val: nat, delegated: Bits, xs: Bits)
    requires csr == 0x104 || csr == 0x144 || csr == 0x106
    ensures var r := Legal(csr, val, delegated, xs);
            r.Flags? && forall i :: i in r.bits <==> i in BitsOf(val) && if csr == 0x106 then i <= 2 else i in delegated
  {
    hide BitsOf;
  }

  /** An address loses its low bits. */
  lemma AddressKept(csr: nat, val: nat, delegated: Bits, xs: Bits)
    requires csr == 0x105 || csr == 0x141
    ensures var unit, r := if csr == 0x105 then 4 else 2, Legal(csr, val, delegated, xs);
            r.Word? && r.val % unit == 0 && r.val <= val < r.val + unit
  {
    hide BitsOf, WithSd, RoundingField;
    RoundedDown(val);
  }

  lemma RoundedDown(val: nat)
    ensures (val - val % 4) % 4 == 0 && (val - val % 2) % 2 == 0
  {
  }

  /** sscratch, stval and scause are kept whole. */
  lemma WordsKept(val: nat, delegated: Bits, xs: Bits)
    ensures Legal(0x140, val, delegated, xs) == Word(val) && Legal(0x143, val, delegated, xs) == Word(val)
    ensures Legal(0x142, val, delegated, xs) == Reason(Written(val))
  {
    hide BitsOf, WithSd, RoundingField;
  }

  /** The flags of the floating-point unit have five bits, and a rounding mode is 0 to 4. */
  lemma FloatWordsKept(val: nat, delegated: Bits, xs: Bits)
    ensures Legal(0x001, val, delegated, xs) == Word(val % 32)
    ensures Legal(0x002, val, delegated, xs) == Word(if val % 8 <= 4 then val % 8 else 0)
    ensures Legal(0x003, val, delegated, xs) == Word(val % 32 + 32 * if val / 32 % 8 <= 4 then val / 32 % 8 else 0)
  {
    hide BitsOf, WithSd;
  }

  /** satp keeps its mode, the top bit, and the page number, the low 22. */
  lemma SatpKeeps(val: nat, delegated: Bits, xs: Bits)
    requires val < 0x1_0000_0000
    ensures Legal(0x180, val, delegated, xs).Word?
    ensures var r := Legal(0x180, val, delegated, xs).val;
            (r >= 0x8000_0000 <==> val >= 0x8000_0000) && r % 0x8000_0000 == val % 0x40_0000
  {
    hide BitsOf, WithSd, RoundingField;
    SatpWord(val % 0x40_0000, val / 0x8000_0000, val);
  }

  lemma SatpWord(low: nat, mode: nat, val: nat)
    requires val < 0x1_0000_0000 && low == val % 0x40_0000 && mode == val / 0x8000_0000
    ensures var r := low + mode % 2 * 0x8000_0000;
            (r >= 0x8000_0000 <==> val >= 0x8000_0000) && r % 0x8000_0000 == low
  {
    assert mode <= 1;
  }

  /** mstatus keeps the bits that are writable, and of a machine register the others stay. */
  lemma MachineBitsKept(csr: nat, val: nat, was: Bits)
    requires csr == 0x300 || csr == 0x302 || csr == 0x303 || csr == 0x304 || csr == 0x344
    ensures var r := MachineLegal(csr, val, was);
            r.Flags? && forall i :: i != 31 || csr != 0x300 ==>
              (i in r.bits <==>
                 if i in (match csr
                          case 0x300 => {0, 1, 3, 4, 5, 7, 8, 11, 12, 13, 14, 17, 18, 19}
                          case 0x302 => {0, 1, 2, 3, 4, 5, 6, 7, 8, 9, 10, 11, 12, 13, 14, 15}
                          case 0x303 => {1, 5, 9}
                          case 0x304 => {1, 3, 5, 7, 9}
                          case _ => {1, 5})
                 then i in BitsOf(val) else i in was)
  {
    hide BitsOf;
  }

  lemma StatusReads(was: Bits, val: nat)
    ensures MachineLegal(0x300, val, was) == Flags(WithSd(was - MSTATUS_MASK + BitsOf(val) * MSTATUS_MASK))
  {
  }

  lemma CountersRead(val: nat)
    ensures MachineLegal(0x306, val, {}) == Flags(BitsOf(val) * {0, 1, 2})
  {
  }

  /** Supervisor registers that are a view of a machine register. */
  predicate Views(c: nat, csr: nat) {
    || (csr == 0x300 && FloatState(c))
    || ((csr == 0x303 || csr == 0x304 || csr == 0x344) && (c == 0x104 || c == 0x144))
  }

  lemma SstatusReads(m: Bits, bits: Bits)
    ensures (m - MSTATUS_MASK + (m - SSTATUS_MASK + bits * SSTATUS_MASK) * MSTATUS_MASK) * SSTATUS_MASK
            == bits * (SSTATUS_MASK - XS) + m * XS
  {
  }

  lemma MaskedWrite(was: Bits, bits: Bits, mask: Bits)
    ensures (was - mask + bits * mask) * mask == bits * mask
  {
  }

  datatype Cause = Exception(code: nat) | Interrupt(irq: nat)

  /** A cause register: as a trap left it, or as software wrote it. */
  datatype CauseRegister = Trapped(cause: Cause) | Written(val: nat)

  /** A delivered trap: from which privilege, for what, to which address and mode, and what stvec held. */
  datatype Trap = Trap(from: nat, cause: Cause, target: nat, mode: nat, vector: nat)

  /** Taken from U or S, by the supervisor's own handler, and not for a supervisor ecall. */
  predicate ToSupervisor(t: Trap) {
    t.from <= PRV_S && t.mode == PRV_S && t.target == t.vector && t.cause != Exception(SUPERVISOR_ECALL)
  }

  function Flag(b: bool, i: nat): Bits {
    if b then {i} else {}
  }

  /** ctz32, from bit i on */
  function LowestBit(mask: Bits, i: nat): (r: nat)
    ensures r >= 32 || (r in mask && r >= i && forall k :: i <= k < r ==> k !in mask)
    ensures forall k :: i <= k < 32 && k in mask ==> r < 32
    decreases 32 - i
  {
    if i >= 32 || i in mask then i else LowestBit(mask, i + 1)
  }

  lemma LowestIs(mask: Bits)
    requires mask != {}
    ensures var r := LowestBit(mask, 0);
            (forall i :: i in mask ==> i < 32) ==> r in mask && forall k: nat :: k < r ==> k !in mask
  {
    var some :| some in mask;
  }

  /** mstatus after a trap into S: SPIE and SPP remember, SIE is off. */
  function TrapStatus(m: Bits, priv: nat): Bits {
    m - {SPIE, SPP, SIE} + Flag(priv in m, SPIE) + Flag(priv == PRV_S, SPP)
  }

  /** mstatus after a trap into M. */
  function MachineTrapStatus(m: Bits, priv: nat): Bits {
    m - {MPIE} + Flag(priv in m, MPIE) - MPP + Flag(priv % 2 == 1, 11) + Flag(priv / 2 % 2 == 1, 12) - {MIE}
  }

  lemma TrapStatusSteps(m: Bits, priv: nat)
    ensures var m1 := m - {SPIE} + Flag(priv in m, SPIE);
            m1 - {SPP} + Flag(priv == PRV_S, SPP) - {SIE} == TrapStatus(m, priv)
  {
  }

  /** mstatus after sret */
  function SretStatus(m: Bits): Bits {
    var spp := if SPP in m then PRV_S else PRV_U;
    m - {spp, SPP} + Flag(SPIE in m, spp) + {SPIE}
  }

  /** A trap into S: SPIE (5) is the enable bit of the privilege left, SPP (8) that privilege, SIE (1) off. */
  lemma TrapStatusIs(m: Bits, priv: nat)
    ensures var t := TrapStatus(m, priv);
            && (5 in t <==> priv in m) && (8 in t <==> priv == 1) && 1 !in t
            && forall i :: i != 1 && i != 5 && i != 8 ==> (i in t <==> i in m)
  {
  }

  /** A trap into M: MPIE (7) is the enable bit of the privilege left, MPP (11, 12) that privilege, MIE (3) off. */
  lemma MachineTrapStatusIs(m: Bits, priv: nat)
    requires priv <= 3
    ensures var t := MachineTrapStatus(m, priv);
            && (7 in t <==> priv in m) && (11 in t <==> priv == 1 || priv == 3) && (12 in t <==> priv >= 2) && 3 !in t
            && forall i :: i != 3 && i != 7 && i != 11 && i != 12 ==> (i in t <==> i in m)
  {
  }

  /** A return from a trap restores the interrupt enable, the privilege, and all of mstatus but SPIE and SPP. */
  lemma SretUndoesTrap(m: Bits, priv: nat)
    requires priv <= PRV_S
    ensures var t := TrapStatus(m, priv);
            && (if SPP in t then PRV_S else PRV_U) == priv
            && (priv in SretStatus(t) <==> priv in m)
            && SretStatus(t) - {SIE, SPIE, SPP} == m - {SIE, SPIE, SPP}
            && (priv == PRV_S ==> SretStatus(t) - {SPIE, SPP} == m - {SPIE, SPP})
  {
  }

  /** What happens to the hart, one thing at a time. */
  datatype Event =
    | CsrOp(csr: nat, val: nat, write: bool)
    | Ecall
    | Fault(code: nat, tval: nat)
    | Sret
    | Mret
    | Poll
    | DeviceRaises(mask: Bits)
    | DeviceClears(mask: Bits)
    | Otherwise(next: nat)

  /** The exceptions besides ecall that the interpreter and the MMU raise. */
  predicate IsFault(code: nat) {
    code == 1 || code == 2 || code == 3 || code == 12 || code == 13 || code == 15
  }

  class Hart {
    var pc: nat
    var priv: nat
    var mstatus: Bits
    var mie: Bits
    var mip: Bits
    var medeleg: Bits
    var mideleg: Bits
    var mtvec: nat
    var mepc: nat
    var mcause: CauseRegister
    var mtval: nat
    var mcounteren: Bits
    var mscratch: nat
    var stvec: nat
    var sepc: nat
    var scause: CauseRegister
    var stval: nat
    var sscratch: nat
    var scounteren: Bits
    var satp: nat
    var fflags: nat
    var frm: nat
    /** Every trap delivered so far, oldest first. */
    ghost var traps: seq<Trap>
    /** Supervisor ecalls answered by the host. */
    ghost var sbiCalls: nat

    /** riscv_cpu_init, then riscv_cpu_boot_smode */
    constructor (entry: nat)
      ensures Confined() && priv == PRV_S && pc == entry && satp == 0 && mie == {} && SIE !in mstatus
      ensures mideleg == {1, 5, 9} && medeleg == {0, 1, 2, 3, 4, 5, 6, 7, 8, 12, 13, 14, 15}
      ensures traps == [] && sbiCalls == 0
    {
      pc, priv, mstatus, mie, mip := entry, PRV_S, {}, {}, {};
      medeleg := CAUSES - {9, 10, 11};
      mideleg := S_INTERRUPTS;
      mcounteren, satp := {0, 1, 2}, 0;
      mtvec, mepc, mcause, mtval, mscratch := 0, 0, Written(0), 0, 0;
      stvec, sepc, scause, stval, sscratch, scounteren := 0, 0, Written(0), 0, 0, {};
      fflags, frm := 0, 0;
      traps, sbiCalls := [], 0;
    }

    /** What the boot state sets up and nothing afterwards undoes. */
    predicate Confined()
      reads this
    {
      && priv <= PRV_S && MPRV !in mstatus
      && mideleg == S_INTERRUPTS && mie <= mideleg && medeleg == DELEGATED
    }

    predicate Delegated(cause: Cause)
      reads this
    {
      match cause
      case Exception(code) => code in medeleg
      case Interrupt(irq) => irq in mideleg
    }

    /** set_mstatus; the FS bits, kept in a field of their own, stay in mstatus here */
    method SetMstatus(val: Bits)
      modifies `mstatus
      ensures mstatus == old(mstatus) - MSTATUS_MASK + val * MSTATUS_MASK
    {
      mstatus := mstatus - MSTATUS_MASK + val * MSTATUS_MASK;
    }

    /** The access check at the head of csr_read */
    predicate CsrAllowed(csr: nat, write: bool)
      reads this
    {
      !(csr / 0x400 % 4 == 3 && write) && priv >= csr / 0x100 % 4
    }

    predicate CounterEnabled(csr: nat)
      reads `priv, `scounteren, `mcounteren
    {
      priv >= PRV_M || csr % 32 in (if priv < PRV_S then scounteren else mcounteren)
    }

    /** Whether csr_read knows the register and lets this privilege read it */
    predicate CsrReadable(csr: nat)
      reads `mstatus, `priv, `scounteren, `mcounteren
    {
      if csr == 0x001 || csr == 0x002 || csr == 0x003 then
        FS * mstatus != {}
      else if csr == 0xc00 || csr == 0xc01 || csr == 0xc02 || csr == 0xc80 || csr == 0xc81 || csr == 0xc82 then
        CounterEnabled(csr)
      else
        csr == 0x100 || csr == 0x104 || csr == 0x105 || csr == 0x106 || 0x140 <= csr <= 0x144 || csr == 0x180
        || 0x300 <= csr <= 0x306 || 0x340 <= csr <= 0x344
        || csr == 0xb00 || csr == 0xb02 || csr == 0xb80 || csr == 0xb82 || csr == 0xf14
    }

    /** csr_read, the registers S and U may name but the counters */
    function SupervisorRead(csr: nat): (v: Option<CsrValue>)
      reads `fflags, `frm, `mstatus, `mie, `mip, `mideleg, `stvec, `scounteren, `sscratch, `sepc, `scause, `stval, `satp
      reads `priv, `mcounteren
      ensures csr < 0x200 ==> (v.Some? <==> CsrReadable(csr))
      ensures csr == 0x100 ==> && v.Some? && v.value.Flags?
                               && (forall i :: i != 31 ==> (i in v.value.bits <==> i in mstatus && i in SSTATUS_MASK))
                               && (31 in v.value.bits <==> {13, 14} <= mstatus || {15, 16} <= mstatus)
      ensures csr == 0x104 ==> v.Some? && v.value.Flags? && forall i :: i in v.value.bits <==> i in mie && i in mideleg
      ensures csr == 0x144 ==> v.Some? && v.value.Flags? && forall i :: i in v.value.bits <==> i in mip && i in mideleg
      ensures csr == 0x106 ==> v == Some(Flags(scounteren))
      ensures csr == 0x003 && v.Some? ==> v == Some(Word(fflags + 32 * frm)) && (13 in mstatus || 14 in mstatus)
      ensures csr == 0x105 ==> v == Some(Word(stvec))
      ensures csr == 0x141 ==> v == Some(Word(sepc))
      ensures csr == 0x142 ==> v == Some(Reason(scause))
      ensures csr == 0x143 ==> v == Some(Word(stval))
      ensures csr == 0x180 ==> v == Some(Word(satp))
    {
      match csr
      case 0x001 => if FS * mstatus == {} then None else Some(Word(fflags))
      case 0x002 => if FS * mstatus == {} then None else Some(Word(frm))
      case 0x003 => if FS * mstatus == {} then None else Some(Word(fflags + 32 * frm))
      case 0x100 => Some(Flags(WithSd(mstatus * SSTATUS_MASK)))
      case 0x104 => Some(Flags(mie * mideleg))
      case 0x105 => Some(Word(stvec))
      case 0x106 => Some(Flags(scounteren))
      case 0x140 => Some(Word(sscratch))
      case 0x141 => Some(Word(sepc))
      case 0x142 => Some(Reason(scause))
      case 0x143 => Some(Word(stval))
      case 0x144 => Some(Flags(mip * mideleg))
      case 0x180 => Some(Word(satp))
      case _ => None
    }

    /** csr_read, the registers of M that csr_write knows */
    function MachineRead(csr: nat): (v: Option<CsrValue>)
      reads `mstatus, `medeleg, `mideleg, `mie, `mtvec, `mcounteren, `mscratch, `mepc, `mcause, `mtval, `mip
      ensures v.Some? <==> csr in MACHINE_CSRS
    {
      match csr
      case 0x300 => Some(Flags(WithSd(mstatus)))
      case 0x302 => Some(Flags(medeleg))
      case 0x303 => Some(Flags(mideleg))
      case 0x304 => Some(Flags(mie))
      case 0x305 => Some(Word(mtvec))
      case 0x306 => Some(Flags(mcounteren))
      case 0x340 => Some(Word(mscratch))
      case 0x341 => Some(Word(mepc))
      case 0x342 => Some(Reason(mcause))
      case 0x343 => Some(Word(mtval))
      case 0x344 => Some(Flags(mip))
      case _ => None
    }

    /** The bits of a machine register that a write may leave in place. */
    function MachineBits(csr: nat): Bits
      reads `mstatus, `medeleg, `mideleg, `mie, `mip
    {
      match csr
      case 0x300 => mstatus
      case 0x302 => medeleg
      case 0x303 => mideleg
      case 0x304 => mie
      case 0x344 => mip
      case _ => {}
    }

    /** csr_read, with its access check */
    method CsrRead(csr: nat, write: bool) returns (v: Option<CsrValue>)
      ensures v.Some? <==> CsrAllowed(csr, write) && CsrReadable(csr)
      ensures csr == 0x001 || csr == 0x002 || csr == 0x003 ==> (v.Some? <==> 13 in mstatus || 14 in mstatus)
      ensures csr in {0xc00, 0xc01, 0xc02, 0xc80, 0xc81, 0xc82} ==>
                (v.Some? <==> !write && (priv >= 3 || csr % 0x80 in (if priv == 0 then scounteren else mcounteren)))
      ensures 0x100 <= csr < 0x1000 && csr !in {0xc00, 0xc01, 0xc02, 0xc80, 0xc81, 0xc82} ==>
                (v.Some? <==>
                   && csr / 0x100 % 4 <= priv && !(write && csr >= 0xc00)
                   && (csr in {0x100, 0x104, 0x105, 0x106, 0x140, 0x141, 0x142, 0x143, 0x144, 0x180,
                               0xb00, 0xb02, 0xb80, 0xb82, 0xf14}
                       || 0x300 <= csr <= 0x306 || 0x340 <= csr <= 0x344))
      ensures v.Some? && csr < 0x200 ==> v == SupervisorRead(csr)
      ensures v.Some? && csr in MACHINE_CSRS ==> v == MachineRead(csr)
    {
      if csr / 0x400 % 4 == 3 && write {
        return None;
      }
      if priv < csr / 0x100 % 4 {
        return None;
      }
      if csr < 0x200 {
        v := SupervisorRead(csr);
      } else if csr in MACHINE_CSRS {
        v := MachineRead(csr);
      } else {
        v := if CsrReadable(csr) then Some(Elsewhere) else None;
      }
    }

    /** csr_write; false for a register it does not know */
    method CsrWrite(csr: nat, val: nat) returns (ok: bool)
      modifies this
      ensures traps == old(traps) && priv == old(priv) && pc == old(pc) && sbiCalls == old(sbiCalls)
      ensures csr / 0x100 % 4 <= 1 && old(Confined()) ==> Confined()
      ensures csr < 0x200 ==>
                && (ok <==> csr in SUPERVISOR_CSRS)
                && (ok ==> SupervisorRead(csr) == Some(Legal(csr, val, mideleg, old(mstatus) * XS)))
                && forall c: nat :: c != csr && !(FloatState(c) && FloatState(csr)) ==>
                     SupervisorRead(c) == old(SupervisorRead(c))
      ensures csr >= 0x200 ==>
                && (ok <==> 0x300 <= csr <= 0x306 || 0x340 <= csr <= 0x344)
                && (csr in MACHINE_CSRS ==> MachineRead(csr) == Some(MachineLegal(csr, val, old(MachineBits(csr)))))
                && (forall c: nat :: c != csr ==> MachineRead(c) == old(MachineRead(c)))
                && (forall c: nat :: !Views(c, csr) ==> SupervisorRead(c) == old(SupervisorRead(c)))
    {
      hide BitsOf, Legal, WithSd, CsrReadable, MachineLegal;
      if csr < 0x200 {
        ok := SupervisorWrite(csr, val);
      } else {
        ok := MachineWrite(csr, val);
      }
    }

    /** csr_write of fflags, frm, fcsr and sstatus */
    method FloatWrite(csr: nat, val: nat)
      requires FloatState(csr)
      modifies `fflags, `frm, `mstatus
      ensures SupervisorRead(csr) == Some(Legal(csr, val, mideleg, old(mstatus) * XS))
      ensures MPRV in mstatus ==> MPRV in old(mstatus)
    {
      hide BitsOf;
      if csr == 0x100 {
        var bits := BitsOf(val);
        SstatusReads(mstatus, bits);
        SetMstatus(mstatus - SSTATUS_MASK + bits * SSTATUS_MASK);
      } else {
        if csr != 0x001 {
          frm := RoundingField(if csr == 0x003 then val / 32 % 8 else val % 8);
        }
        if csr != 0x002 {
          fflags := val % 32;
        }
        mstatus := mstatus + FS;
        assert 13 in FS * mstatus;
      }
    }

    /** csr_write of sscratch, sepc, scause and stval */
    method TrapRegisterWrite(csr: nat, val: nat)
      requires 0x140 <= csr <= 0x143
      modifies `sscratch, `sepc, `scause, `stval
      ensures SupervisorRead(csr) == Some(Legal(csr, val, mideleg, mstatus * XS))
      ensures forall c: nat :: c != csr ==> SupervisorRead(c) == old(SupervisorRead(c))
    {
      if csr == 0x140 {
        sscratch := val;
      } else if csr == 0x141 {
        sepc := val - val % 2;
      } else if csr == 0x142 {
        scause := Written(val);
      } else {
        stval := val;
      }
    }

    /** csr_write of sie and sip */
    method InterruptWrite(csr: nat, val: nat)
      requires csr == 0x104 || csr == 0x144
      modifies `mie, `mip
      ensures SupervisorRead(csr) == Some(Legal(csr, val, mideleg, mstatus * XS))
      ensures forall c: nat :: c != csr ==> SupervisorRead(c) == old(SupervisorRead(c))
      ensures old(mie) <= mideleg ==> mie <= mideleg
    {
      hide BitsOf, CsrReadable, WithSd, RoundingField;
      var bits := BitsOf(val);
      if csr == 0x104 {
        MaskedWrite(mie, bits, mideleg);
        mie := mie - mideleg + bits * mideleg;
      } else {
        MaskedWrite(mip, bits, mideleg);
        mip := mip - mideleg + bits * mideleg;
      }
    }

    /** csr_write of stvec, scounteren and satp */
    method AddressWrite(csr: nat, val: nat)
      requires csr == 0x105 || csr == 0x106 || csr == 0x180
      modifies `stvec, `scounteren, `satp
      ensures SupervisorRead(csr) == Some(Legal(csr, val, mideleg, mstatus * XS))
      ensures forall c: nat :: c != csr ==> SupervisorRead(c) == old(SupervisorRead(c))
    {
      hide BitsOf, WithSd, RoundingField;
      if csr == 0x105 {
        stvec := val - val % 4;
      } else if csr == 0x106 {
        scounteren := BitsOf(val) * {0, 1, 2};
      } else {
        satp := val % 0x40_0000 + val / 0x8000_0000 % 2 * 0x8000_0000;
      }
    }

    /**
     csr_write, the registers S and U may name: the register then reads as the legal part of what was written, and
     every other register as before.
     */
    method SupervisorWrite(csr: nat, val: nat) returns (ok: bool)
      modifies this
      ensures traps == old(traps) && priv == old(priv) && pc == old(pc) && sbiCalls == old(sbiCalls)
      ensures old(Confined()) ==> Confined()
      ensures ok ==> SupervisorRead(csr) == Some(Legal(csr, val, mideleg, old(mstatus) * XS))
      ensures ok <==> csr in SUPERVISOR_CSRS
      ensures forall c: nat :: c != csr && !(FloatState(c) && FloatState(csr)) ==>
                SupervisorRead(c) == old(SupervisorRead(c))
    {
      hide BitsOf, CsrReadable, WithSd, RoundingField, Legal;
      ok := csr in SUPERVISOR_CSRS;
      if FloatState(csr) {
        FloatWrite(csr, val);
      } else if csr == 0x104 || csr == 0x144 {
        InterruptWrite(csr, val);
      } else if 0x140 <= csr <= 0x143 {
        TrapRegisterWrite(csr, val);
      } else if csr == 0x105 || csr == 0x106 || csr == 0x180 {
        AddressWrite(csr, val);
      }
    }

    /** csr_write, the registers of M: the register then reads as what it keeps of val, and every other as before. */
    method MachineWrite(csr: nat, val: nat) returns (ok: bool)
      requires csr >= 0x200
      modifies `mstatus, `medeleg, `mideleg, `mie, `mtvec, `mcounteren, `mscratch, `mepc, `mcause, `mtval, `mip
      ensures csr / 0x100 % 4 <= 1 ==> !ok && (old(Confined()) ==> Confined())
      ensures ok <==> csr == 0x301 || csr in MACHINE_CSRS
      ensures csr in MACHINE_CSRS ==> MachineRead(csr) == Some(MachineLegal(csr, val, old(MachineBits(csr))))
      ensures forall c: nat :: c != csr ==> MachineRead(c) == old(MachineRead(c))
      ensures forall c: nat :: !Views(c, csr) ==> SupervisorRead(c) == old(SupervisorRead(c))
    {
      hide BitsOf, WithSd, CsrReadable, MachineLegal;
      ok := csr == 0x301 || csr in MACHINE_CSRS;
      if csr == 0x300 {
        SetMstatus(BitsOf(val));
        StatusReads(old(mstatus), val);
      } else if csr == 0x302 || csr == 0x303 {
        DelegationWrite(csr, val);
      } else if csr == 0x304 || csr == 0x344 {
        MachineInterruptWrite(csr, val);
      } else if csr == 0x306 {
        mcounteren := BitsOf(val) * {0, 1, 2};
        CountersRead(val);
      } else if csr in MACHINE_CSRS {
        MachineWordWrite(csr, val);
      }
    }

    /** csr_write of medeleg and mideleg */
    method DelegationWrite(csr: nat, val: nat)
      requires csr == 0x302 || csr == 0x303
      modifies `medeleg, `mideleg
      ensures MachineRead(csr) == Some(MachineLegal(csr, val, old(MachineBits(csr))))
      ensures forall c: nat :: c != csr ==> MachineRead(c) == old(MachineRead(c))
      ensures forall c: nat :: !Views(c, csr) ==> SupervisorRead(c) == old(SupervisorRead(c))
    {
      hide BitsOf, WithSd, CsrReadable;
      if csr == 0x302 {
        medeleg := medeleg - CAUSES + BitsOf(val) * CAUSES;
      } else {
        mideleg := mideleg - S_INTERRUPTS + BitsOf(val) * S_INTERRUPTS;
      }
    }

    /** csr_write of mie and mip */
    method MachineInterruptWrite(csr: nat, val: nat)
      requires csr == 0x304 || csr == 0x344
      modifies `mie, `mip
      ensures MachineRead(csr) == Some(MachineLegal(csr, val, old(MachineBits(csr))))
      ensures forall c: nat :: c != csr ==> MachineRead(c) == old(MachineRead(c))
      ensures forall c: nat :: !Views(c, csr) ==> SupervisorRead(c) == old(SupervisorRead(c))
    {
      hide BitsOf, WithSd, CsrReadable;
      if csr == 0x304 {
        mie := mie - M_INTERRUPTS + BitsOf(val) * M_INTERRUPTS;
      } else {
        mip := mip - {SSIP, STIP} + BitsOf(val) * {SSIP, STIP};
      }
    }

    /** csr_write of mtvec, mscratch, mepc, mcause and mtval */
    method MachineWordWrite(csr: nat, val: nat)
      requires csr == 0x305 || 0x340 <= csr <= 0x343
      modifies `mtvec, `mscratch, `mepc, `mcause, `mtval
      ensures MachineRead(csr) == Some(MachineLegal(csr, val, {}))
      ensures forall c: nat :: c != csr ==> MachineRead(c) == old(MachineRead(c))
    {
      hide BitsOf, WithSd;
      match csr {
        case 0x305 => mtvec := val - val % 4;
        case 0x340 => mscratch := val;
        case 0x341 => mepc := val - val % 2;
        case 0x342 => mcause := Written(val);
        case _ => mtval := val;
      }
    }

    /** raise_exception2. The host answers a supervisor ecall from S itself, and steps over it. */
    method RaiseException2(cause: Cause, tval: nat)
      modifies `pc, `priv, `mstatus, `scause, `sepc, `stval, `mcause, `mepc, `mtval, `traps, `sbiCalls
      ensures cause == Exception(SUPERVISOR_ECALL) && old(priv) == PRV_S ==>
                && sbiCalls == old(sbiCalls) + 1 && pc == (old(pc) + 4) % 0x1_0000_0000 && priv == old(priv)
                && mstatus == old(mstatus) && traps == old(traps)
      ensures !(cause == Exception(SUPERVISOR_ECALL) && old(priv) == PRV_S) ==>
                && sbiCalls == old(sbiCalls) && traps == old(traps) + [Trap(old(priv), cause, pc, priv, stvec)]
                && if old(priv) <= PRV_S && Delegated(cause) then
                     && priv == PRV_S && pc == stvec && sepc == old(pc) && scause == Trapped(cause) && stval == tval
                     && mstatus == TrapStatus(old(mstatus), old(priv))
                     && (5 in mstatus <==> old(priv) in old(mstatus)) && (8 in mstatus <==> old(priv) == 1)
                     && 1 !in mstatus && forall i :: i !in {1, 5, 8} ==> (i in mstatus <==> i in old(mstatus))
                   else
                     && priv == PRV_M && pc == mtvec && mepc == old(pc) && mcause == Trapped(cause) && mtval == tval
                     && mstatus == MachineTrapStatus(old(mstatus), old(priv))
                     && (old(priv) <= 3 ==>
                           && (7 in mstatus <==> old(priv) in old(mstatus)) && 3 !in mstatus
                           && (11 in mstatus <==> old(priv) % 2 == 1) && (12 in mstatus <==> old(priv) >= 2)
                           && forall i :: i !in {3, 7, 11, 12} ==> (i in mstatus <==> i in old(mstatus)))
    {
      hide TrapStatus, MachineTrapStatus;
      if cause == Exception(SUPERVISOR_ECALL) && priv == PRV_S {
        pc := (pc + 4) % 0x1_0000_0000;
        sbiCalls := sbiCalls + 1;
        return;
      }
      ghost var from := priv;
      if priv <= PRV_S && Delegated(cause) {
        TrapStatusIs(mstatus, priv);
        TrapToSupervisor(cause, tval);
      } else {
        if priv <= 3 {
          MachineTrapStatusIs(mstatus, priv);
        }
        TrapToMachine(cause, tval);
      }
      traps := traps + [Trap(from, cause, pc, priv, stvec)];
    }

    /** The delegated half of raise_exception2 */
    method TrapToSupervisor(cause: Cause, tval: nat)
      modifies `pc, `priv, `mstatus, `scause, `sepc, `stval
      ensures priv == PRV_S && pc == stvec && sepc == old(pc) && scause == Trapped(cause) && stval == tval
      ensures mstatus == TrapStatus(old(mstatus), old(priv))
    {
      hide TrapStatus, Flag;
      scause, sepc, stval := Trapped(cause), pc, tval;
      mstatus := mstatus - {SPIE} + Flag(priv in mstatus, SPIE);
      mstatus := mstatus - {SPP} + Flag(priv == PRV_S, SPP);
      mstatus := mstatus - {SIE};
      TrapStatusSteps(old(mstatus), old(priv));
      priv := PRV_S;
      pc := stvec;
    }

    /** The other half */
    method TrapToMachine(cause: Cause, tval: nat)
      modifies `pc, `priv, `mstatus, `mcause, `mepc, `mtval
      ensures priv == PRV_M && pc == mtvec && mepc == old(pc) && mcause == Trapped(cause) && mtval == tval
      ensures mstatus == MachineTrapStatus(old(mstatus), old(priv))
    {
      hide Flag;
      mcause, mepc, mtval := Trapped(cause), pc, tval;
      mstatus := mstatus - {MPIE} + Flag(priv in mstatus, MPIE);
      mstatus := mstatus - MPP + Flag(priv % 2 == 1, 11) + Flag(priv / 2 % 2 == 1, 12);
      mstatus := mstatus - {MIE};
      priv := PRV_M;
      pc := mtvec;
    }

    /** handle_sret */
    method HandleSret()
      modifies `pc, `priv, `mstatus
      ensures mstatus == SretStatus(old(mstatus)) && priv == (if 8 in old(mstatus) then 1 else 0) && pc == sepc
      ensures (priv in mstatus <==> 5 in old(mstatus)) && 5 in mstatus && 8 !in mstatus
      ensures forall i :: i != priv && i != 5 && i != 8 ==> (i in mstatus <==> i in old(mstatus))
    {
      var spp := if SPP in mstatus then PRV_S else PRV_U;
      mstatus := mstatus - {spp} + Flag(SPIE in mstatus, spp);
      mstatus := mstatus + {SPIE};
      mstatus := mstatus - {SPP};
      assert mstatus == SretStatus(old(mstatus));
      priv := spp;
      pc := sepc;
    }

    /**
     Section 3.1.9 of the RISC-V Privileged Architecture v1.12: interrupt i is pending and enabled, and may be taken
     here. The supervisor's interrupts are taken from below S, and in S with SIE; those of M from below M, and in M with
     MIE.
     */
    predicate Takes(i: nat)
      reads this
    {
      && i in mip && i in mie
      && if i in mideleg then priv != 3 && (priv == 1 ==> 1 in mstatus) else priv == 3 ==> 3 in mstatus
    }

    /** get_pending_irq_mask */
    function PendingIrqMask(): (r: Bits)
      reads this
      ensures forall i: nat :: i in r <==> Takes(i)
    {
      var enabled :=
        if priv == PRV_M then if MIE in mstatus then mip - mideleg else {}
        else if priv == PRV_S then (mip - mideleg) + (if SIE in mstatus then mip * mideleg else {})
        else mip;
      mip * mie * enabled
    }

    /** raise_interrupt: the lowest interrupt that may be taken, if there is one */
    method RaiseInterrupt() returns (raised: bool, ghost irq: nat)
      modifies `pc, `priv, `mstatus, `scause, `sepc, `stval, `mcause, `mepc, `mtval, `traps, `sbiCalls
      ensures old(Confined()) ==> Confined()
      ensures raised <==> exists i: nat :: old(Takes(i))
      ensures !raised ==> traps == old(traps) && pc == old(pc) && priv == old(priv) && mstatus == old(mstatus)
      ensures raised ==> |traps| == |old(traps)| + 1 && old(traps) <= traps && traps[|old(traps)|].cause == Interrupt(irq)
      ensures raised && (forall i :: i in old(mip) ==> i < 32) ==>
                old(Takes(irq)) && forall k: nat :: k < irq ==> !old(Takes(k))
      ensures old(Confined()) ==>
                (raised <==> exists i :: i in old(mip) && i in old(mie) && (old(priv) == 0 || 1 in old(mstatus)))
      ensures old(Confined()) && raised ==>
                && irq in {1, 5, 9} && irq in old(mip) && irq in old(mie)
                && (forall k :: 0 <= k < irq ==> !(k in old(mip) && k in old(mie)))
                && scause == Trapped(Interrupt(irq)) && sepc == old(pc) && stval == 0 && pc == stvec && priv == 1
                && traps == old(traps) + [Trap(old(priv), Interrupt(irq), stvec, 1, stvec)]
    {
      hide PendingIrqMask;
      var mask := PendingIrqMask();
      if mask == {} {
        ConfinedTakes();
        return false, 0;
      }
      var lowest := LowestBit(mask, 0);
      LowestIs(mask);
      ConfinedTakes();
      ghost var some :| some in mask;
      assert Takes(some);
      assert (forall i :: i in mip ==> i < 32) ==> Takes(lowest) && forall k: nat :: k < lowest ==> !Takes(k);
      RaiseException2(Interrupt(lowest), 0);
      return true, lowest;
    }

    /** Confined, all enabled interrupts are the supervisor's. */
    lemma ConfinedTakes()
      ensures Confined() ==>
                forall i: nat :: Takes(i) <==> i in mip && i in mie && i in {1, 5, 9} && (priv == 0 || 1 in mstatus)
    {
    }

    /** handle_mret */
    method HandleMret()
      modifies `pc, `priv, `mstatus
      ensures pc == mepc
      ensures priv == (if 11 in old(mstatus) then 1 else 0) + (if 12 in old(mstatus) then 2 else 0)
      ensures (priv in mstatus <==> 7 in old(mstatus)) && 7 in mstatus && 11 !in mstatus && 12 !in mstatus
      ensures forall i :: i != priv && i != 7 && i != 11 && i != 12 ==> (i in mstatus <==> i in old(mstatus))
    {
      var mpp := (if 11 in mstatus then 1 else 0) + (if 12 in mstatus then 2 else 0);
      mstatus := mstatus - {mpp} + Flag(MPIE in mstatus, mpp);
      mstatus := mstatus + {MPIE} - MPP;
      priv := mpp;
      pc := mepc;
    }

    /** Confined, with every trap so far taken by the supervisor. */
    ghost predicate Safe()
      reads this
    {
      Confined() && forall t :: t in traps ==> ToSupervisor(t)
    }

    /** raise_exception2 on behalf of an instruction or the MMU */
    method RaiseHere(code: nat, tval: nat)
      requires IsFault(code) || code == USER_ECALL + priv
      modifies `pc, `priv, `mstatus, `scause, `sepc, `stval, `mcause, `mepc, `mtval, `traps, `sbiCalls
      ensures (old(Safe()) ==> Safe()) && old(traps) <= traps
      ensures old(Confined()) && code != SUPERVISOR_ECALL ==>
                traps == old(traps) + [Trap(old(priv), Exception(code), stvec, PRV_S, stvec)]
    {
      RaiseException2(Exception(code), tval);
    }

    /**
     csrrw, csrrs and csrrc: an access that is not allowed is an illegal instruction; any other gives what the register
     read as before, and goes on at the next instruction.
     */
    method CsrInstruction(csr: nat, val: nat, write: bool) returns (got: Option<CsrValue>)
      modifies this
      ensures (old(Safe()) ==> Safe()) && old(traps) <= traps
      ensures old(Confined()) && !(old(CsrAllowed(csr, write)) && old(CsrReadable(csr))) ==>
                traps == old(traps) + [Trap(old(priv), Exception(ILLEGAL_INSTRUCTION), stvec, PRV_S, stvec)]
      ensures csr < 0x200 && old(CsrAllowed(csr, write)) && old(CsrReadable(csr)) ==>
                && got == old(SupervisorRead(csr)) && traps == old(traps) && priv == old(priv)
                && pc == (old(pc) + 4) % 0x1_0000_0000
                && SupervisorRead(csr) == (if write then Some(Legal(csr, val, mideleg, old(mstatus) * XS)) else got)
                && forall c: nat :: c != csr && !(write && FloatState(c) && FloatState(csr)) ==>
                     SupervisorRead(c) == old(SupervisorRead(c))
    {
      hide BitsOf, Legal, WithSd, FloatState, MachineLegal, Views, MachineRead, MachineBits;
      assert csr < 0x200 && CsrReadable(csr) ==> csr in SUPERVISOR_CSRS;
      got := CsrRead(csr, write);
      var ok := got.Some?;
      if ok && write {
        ok := CsrWrite(csr, val);
      }
      if ok {
        pc := (pc + 4) % 0x1_0000_0000;
      } else {
        RaiseHere(ILLEGAL_INSTRUCTION, 0);
      }
    }

    /** One event, as the interpreter or a device brings it about. */
    method Step(e: Event)
      modifies this
      ensures (old(Safe()) ==> Safe()) && old(traps) <= traps
    {
      match e
      case CsrOp(csr, val, write) =>
        var got := CsrInstruction(csr, val, write);
      case Ecall =>
        RaiseHere(USER_ECALL + priv, 0);
      case Fault(code, tval) =>
        if IsFault(code) {
          RaiseHere(code, tval);
        }
      case Sret =>
        if priv < PRV_S {
          RaiseHere(ILLEGAL_INSTRUCTION, 0);
        } else {
          HandleSret();
        }
      case Mret =>
        if priv < PRV_M {
          RaiseHere(ILLEGAL_INSTRUCTION, 0);
        } else {
          HandleMret();
        }
      case Poll =>
        var raised, irq := RaiseInterrupt();
      case DeviceRaises(mask) =>
        mip := mip + mask;
      case DeviceClears(mask) =>
        mip := mip - mask;
      case Otherwise(next) =>
        pc := next;
    }

    /**
     From the boot state on, whatever the guest and the devices do, in any order: the hart stays in U or
     S with the boot delegation, and every trap that is delivered goes to stvec.
     */
    method Run(events: seq<Event>)
      requires Confined() && traps == []
      modifies this
      ensures priv <= 1 && 17 !in mstatus && mideleg == {1, 5, 9}
      ensures forall t :: t in traps ==> t.from <= 1 && t.mode == 1 && t.target == t.vector && t.cause != Exception(9)
    {
      for i := 0 to |events|
        invariant Safe()
      {
        Step(events[i]);
      }
    }
  }
}
