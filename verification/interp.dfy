/** The fetch loop of riscv_cpu_interp: block-cached fetch, and how many instructions a run retires. */
module Interp {
  import opened Basics
  import opened PageWalk
  import opened Bytewise
  import opened TlbCache
  import opened SoftMmu

  /** What an instruction does to the flow of control; its length is in its own low bits. */
  datatype Effect = Next | Jump(target: nat) | Raise | Leave(target: nat)

  /** What one pass through the loop head yields. */
  datatype Head = Insn(bytes: seq<Byte>) | FetchTrap | OutOfCycles | Interrupted

  /** Instructions whose two low bits are set are four bytes long, the others two. */
  function Width(insn: seq<Byte>): (w: nat)
    requires |insn| >= 1
    ensures w == if insn[0] % 2 == 1 && insn[0] / 2 % 2 == 1 then 4 else 2
  {
    if insn[0] % 4 == 3 then 4 else 2
  }

  /** The most a block can retire: one instruction per half word that starts before code_end. */
  const BLOCK_MAX := 2047

  class Hart {
    const cpu: Cpu
    /** Address of guest RAM in the host; NULL is 0. */
    const host: nat
    var pc: nat
    var nCycles: int
    var insnCounter: nat
    var powerDown: bool
    // locals of the interpreter function
    var codePtr: nat
    var codeEnd: nat
    var codeToPc: int
    /** Where the current block lies: its virtual page, and the page of RAM it was translated to at entry. */
    ghost var page: nat
    ghost var frame: nat
    /** The registers and the memory that translation was made with. */
    ghost var context: Regime
    ghost var origin: Ram
    ghost var entry: nat
    ghost var executed: nat

    constructor (c: Cpu, h: nat)
      requires c.Valid() && h > 0
      ensures cpu == c && host == h && Idle() && cpu.Valid()
    {
      cpu, host, pc, nCycles, insnCounter, powerDown := c, h, RAM_BASE, 0, 0, false;
      codePtr, codeEnd, codeToPc := 0, 0, RAM_BASE;
      page, frame, entry, executed := 0, 0, 0, 0;
      context, origin := Regime(0, 0, false, 0, false, false), NO_RAM;
    }

    /** GET_PC() */
    function GetPc(): nat
      reads `codePtr, `codeToPc
    {
      (codePtr + codeToPc) % SPACE
    }

    /** Offset of the next instruction in the block's page. */
    ghost function At(): int
      reads `codePtr, `frame
    {
      codePtr - host - frame
    }

    /** codePtr is inside the page of the current block. */
    ghost predicate OnPage()
      reads this
    {
      && page % PAGE == 0 && page < SPACE && frame % PAGE == 0 && frame + PAGE <= cpu.ram.Length
      && codeEnd == host + frame + (PAGE - 2) && codeToPc == page - host - frame
      && MapsPage(context, origin, page, frame)
      && 0 <= entry <= At() <= PAGE + 2 && At() % 2 == 0 && entry % 2 == 0
      && executed <= BLOCK_MAX && nCycles >= 1 - executed
    }

    /** Between instructions of a block. */
    ghost predicate InBlock()
      reads this
    {
      OnPage() && 2 * executed <= At() - entry
    }

    /** With an instruction of the block fetched and counted, but not yet carried out. */
    ghost predicate Holding()
      reads this
    {
      OnPage() && At() <= PAGE - 2 && executed >= 1 && 2 * executed <= At() - entry + 2
    }

    ghost predicate NoBlock()
      reads this
    {
      codePtr == 0 && codeEnd == 0 && nCycles >= 1 - BLOCK_MAX
    }

    ghost predicate Valid()
      reads this, cpu, cpu.ram
    {
      cpu.Valid() && host > 0 && GetPc() % 2 == 0 && (NoBlock() || InBlock())
    }

    /** Between calls of the inner interpreter. */
    ghost predicate Idle()
      reads this, cpu, cpu.ram
    {
      cpu.Valid() && host > 0 && pc % 2 == 0 && pc < SPACE
    }

    /**
     The head of the loop. Every instruction is at the place in RAM that the block's translation gives for its program
     counter. Inside a block that is the translation made at entry, which gives both halves of the instruction, and
     four bytes of its page are read and no more. At a new block it is a walk of a memory of the history, and on
     caches that agree with memory the instruction is the one translation gives at the program counter.
     */
    method FetchHead(interrupt: bool) returns (h: Head)
      requires Valid()
      modifies this, cpu.ram, cpu`past, cpu`tlbCode
      ensures cpu.Valid() && GetPc() == old(GetPc()) && insnCounter == old(insnCounter) && powerDown == old(powerDown)
      ensures old(cpu.Coherent()) ==> cpu.Coherent()
      ensures h.Insn? ==> Holding() && nCycles == old(nCycles) - 1 && GetPc() == page + At()
                          && |h.bytes| >= 2 && Width(h.bytes) <= |h.bytes|
      ensures h.Insn? ==> FetchOf(context, origin, GetPc()) == Fetched.At(frame + At())
      ensures h.Insn? && At() <= PAGE - 4 ==>
                && h.bytes == cpu.ram[frame + At()..frame + At() + 4]
                && InsnThrough(context, origin, cpu.Memory(), GetPc()) == Some(h.bytes[..Width(h.bytes)])
      ensures h.Insn? && old(codePtr < codeEnd) ==>
                && context == old(context) && origin == old(origin) && frame == old(frame) && page == old(page)
                && cpu.Memory() == old(cpu.Memory()) && At() <= PAGE - 4
      ensures h.Insn? && old(codePtr >= codeEnd) ==> context == cpu.Context() && origin in old(cpu.past)
      ensures h.Insn? && old(codePtr >= codeEnd && cpu.Coherent()) ==>
                && origin == old(cpu.Memory())
                && InsnAt(cpu.Context(), old(cpu.Memory()), GetPc()) == Some(h.bytes[..Width(h.bytes)])
      ensures h.FetchTrap? ==> nCycles == old(nCycles) > 0 && pc == GetPc()
      ensures h.OutOfCycles? ==> nCycles == old(nCycles) <= 0 && nCycles >= 1 - BLOCK_MAX && pc == GetPc()
      ensures h.Interrupted? ==> nCycles == old(nCycles) - 1 >= 0 && pc == GetPc()
    {
      hide OnPage, InBlock, Holding, Sound, AllUpToDate, InsnAt, InsnThrough, FetchOf, PageOf, GetPc;
      if codePtr >= codeEnd {
        LeftBlock();
        pc := GetPc();
        if nCycles <= 0 {
          return OutOfCycles;
        }
        if interrupt {
          nCycles := nCycles - 1;
          return Interrupted;
        }
        h := FetchBlock();
        if h.FetchTrap? {
          return FetchTrap;
        }
      } else {
        h := FetchNext();
      }
      Count();
      HoldingMaps();
    }

    lemma HoldingMaps()
      requires Holding()
      ensures FetchOf(context, origin, page + At()) == Fetched.At(frame + At())
    {
      hide FetchOf;
    }

    lemma LeftBlock()
      requires Valid()
      ensures nCycles >= 1 - BLOCK_MAX && GetPc() % 2 == 0
    {
    }

    /** The fast path of the loop head */
    method FetchNext() returns (h: Head)
      requires Valid() && codePtr < codeEnd
      ensures h.Insn? && InBlock() && At() <= PAGE - 4 && GetPc() == page + At()
      ensures h.bytes == cpu.ram[frame + At()..frame + At() + 4] && |h.bytes| == 4
      ensures InsnThrough(context, origin, cpu.Memory(), GetPc()) == Some(h.bytes[..Width(h.bytes)])
    {
      hide Sound, InsnThrough, MapsPage;
      InnerPc(page, At());
      var o := codePtr - host;
      h := Insn(cpu.ram[o..o + 4]);
      BlockInsn();
    }

    /** s->n_cycles-- for the instruction just fetched */
    method Count()
      requires InBlock() && (At() <= PAGE - 4 || (At() == PAGE - 2 && executed == 0))
      modifies `nCycles, `executed
      ensures Holding() && nCycles == old(nCycles) - 1
    {
      hide MapsPage;
      nCycles := nCycles - 1;
      executed := executed + 1;
    }

    /** The loop head where a block starts: the code TLB or a walk, then the instruction's bytes */
    method FetchBlock() returns (h: Head)
      requires cpu.Valid() && host > 0 && pc == GetPc() && pc % 2 == 0 && nCycles >= 1
      modifies `codePtr, `codeEnd, `codeToPc, `page, `frame, `context, `origin, `entry, `executed, cpu.ram, cpu`past,
               cpu`tlbCode
      ensures cpu.Valid() && (h.Insn? || h.FetchTrap?) && GetPc() == pc
      ensures old(cpu.Coherent()) ==> cpu.Coherent()
      ensures h.Insn? ==> InBlock() && executed == 0 && (At() <= PAGE - 4 || At() == PAGE - 2) && GetPc() == page + At()
                          && |h.bytes| >= 2 && Width(h.bytes) <= |h.bytes|
      ensures h.Insn? ==> context == cpu.Context() && origin in old(cpu.past)
      ensures h.Insn? && At() <= PAGE - 4 ==>
                && h.bytes == cpu.ram[frame + At()..frame + At() + 4]
                && InsnThrough(context, origin, cpu.Memory(), pc) == Some(h.bytes[..Width(h.bytes)])
      ensures h.Insn? && old(cpu.Coherent()) ==>
                && origin == old(cpu.Memory())
                && InsnAt(cpu.Context(), old(cpu.Memory()), pc) == Some(h.bytes[..Width(h.bytes)])
    {
      hide Walk, AfterWalk, Outcome, WordsRead, Sound, AllUpToDate, PageOf, OnPage, FetchOf;
      ghost var m, coherent := cpu.Memory(), cpu.Coherent();
      var at, from := cpu.FindCode(pc);
      if at.FetchFault? {
        return FetchTrap;
      }
      EvenOffset(pc);
      EnterBlock(at.offset, pc, cpu.Context(), from);
      PageOffset(pc);
      if codePtr >= codeEnd {
        h := FetchAtEnd(at.offset, m);
      } else {
        h := Insn(cpu.ram[at.offset..at.offset + 4]);
        BlockInsn();
        if coherent {
          PageInsn(cpu.Context(), m, pc, at.offset);
        }
      }
    }

    /** The instruction at the place of the block that codePtr is at. */
    lemma BlockInsn()
      requires InBlock() && At() <= PAGE - 4 && cpu.Valid() && GetPc() == page + At()
      ensures var bytes := cpu.ram[frame + At()..frame + At() + 4];
              InsnThrough(context, origin, cpu.Memory(), GetPc()) == Some(bytes[..Width(bytes)])
    {
      hide Sound, InsnThrough, MapsPage;
      InnerPc(page, At());
      InsnOnPage(context, origin, cpu.Memory(), page, frame, At());
    }

    /** The last half word of a page may start an instruction that ends on the next page. */
    method FetchAtEnd(o: nat, ghost m: Ram) returns (h: Head)
      requires cpu.Valid() && pc < SPACE && pc % 2 == 0 && o + 2 <= cpu.ram.Length && |m| == cpu.ram.Length
      modifies cpu.ram, cpu`past, cpu`tlbCode
      ensures cpu.Valid() && (old(cpu.Coherent()) ==> cpu.Coherent())
      ensures h.FetchTrap? || (h.Insn? && |h.bytes| >= 2 && Width(h.bytes) <= |h.bytes|)
      ensures h.Insn? && old(cpu.Coherent()) && FetchOf(cpu.Context(), m, pc) == Fetched.At(o)
              && old(cpu.Memory()) == AfterWalk(cpu.Context(), m, pc, Code) ==>
                InsnAt(cpu.Context(), m, pc) == Some(h.bytes[..Width(h.bytes)])
    {
      hide Walk, AfterWalk, Outcome, WordsRead, Sound, AllUpToDate, PageOf, FetchOf;
      var low := cpu.ram[o..o + 2];
      if Width(low) == 4 {
        var second, _ := cpu.FindCode(Plus(pc, 2));
        if second.FetchFault? {
          return FetchTrap;
        }
        EvenPlus(pc);
        EvenOffset(Plus(pc, 2));
        h := Insn(low + cpu.ram[second.offset..second.offset + 2]);
        assert h.bytes[..4] == h.bytes;
      } else {
        h := Insn(low);
        assert h.bytes[..2] == h.bytes;
      }
    }

    /** code_ptr, code_end and code_to_pc_addend at the start of a block */
    method EnterBlock(o: nat, addr: nat, ghost c: Regime, ghost m: Ram)
      requires host > 0 && addr < SPACE && addr % 2 == 0 && nCycles >= 1
      requires o - addr % PAGE >= 0 && (o - addr % PAGE) % PAGE == 0 && o - addr % PAGE + PAGE <= cpu.ram.Length
      requires FetchOf(c, m, addr) == Fetched.At(o)
      modifies `codePtr, `codeEnd, `codeToPc, `page, `frame, `context, `origin, `entry, `executed
      ensures context == c && origin == m
      ensures InBlock() && executed == 0 && entry == At() == addr % PAGE && frame + At() == o
      ensures page == PageOf(addr) && GetPc() == addr
      ensures codePtr < codeEnd <==> addr % PAGE <= PAGE - 4
    {
      hide MapsPage, FetchOf;
      codePtr := host + o;
      codeEnd := codePtr + (PAGE - 1 - 1) - addr % PAGE;
      codeToPc := addr - codePtr;
      page, frame, entry, executed := PageOf(addr), o - addr % PAGE, addr % PAGE, 0;
      context, origin := c, m;
      EvenOffset(addr);
      FetchMapsPage(c, m, addr, o);
    }

    /** What carrying out an instruction does to memory and to the registers translation depends on */
    method Act(action: Action)
      requires cpu.Valid()
      modifies cpu, cpu.ram
      ensures cpu.Valid()
    {
      hide Sound, AllUpToDate;
      match action
      case NoAccess =>
      case Load(addr, size) =>
        if IsWidth(size) {
          var r := cpu.TargetRead(addr % SPACE, size);
        }
      case Store(addr, bytes) =>
        if IsWidth(|bytes|) {
          var r := cpu.TargetWrite(addr % SPACE, bytes, iset{});
        }
      case Status(sum, mxr) =>
        cpu.SetMstatus(cpu.mprv, cpu.mpp, sum, mxr);
      case Satp(val) =>
        cpu.WriteSatp(val % SPACE);
      case Fence =>
        cpu.TlbFlushAll();
      case Device(paddr, bytes) =>
        var r := cpu.DeviceWrite(paddr, bytes, iset{});
    }

    /** NEXT_INSN, C_NEXT_INSN and JUMP_INSN: the program counter moves past the instruction, or to the target. */
    method Advance(insn: seq<Byte>, effect: Effect)
      requires cpu.Valid() && host > 0 && Holding() && |insn| >= 1 && GetPc() % 2 == 0 && (effect.Next? || effect.Jump?)
      modifies `pc, `codePtr, `codeEnd, `codeToPc
      ensures Valid() && nCycles == old(nCycles)
      ensures effect.Next? ==>
                var w := if insn[0] % 2 == 1 && insn[0] / 2 % 2 == 1 then 4 else 2;
                GetPc() == (old(GetPc()) + w) % 0x1_0000_0000
      ensures effect.Jump? ==> GetPc() == effect.target / 2 * 2 % 0x1_0000_0000
    {
      hide Cpu.Valid, InBlock, NoBlock, Holding;
      HoldingCycles();
      if effect.Next? {
        NextInsn(Width(insn));
      } else {
        JumpInsn(effect.target);
      }
    }

    /** NEXT_INSN and C_NEXT_INSN */
    method NextInsn(w: nat)
      requires cpu.Valid() && host > 0 && Holding() && (w == 2 || w == 4) && GetPc() % 2 == 0
      modifies `codePtr
      ensures cpu.Valid() && InBlock() && GetPc() == Plus(old(GetPc()), w) && GetPc() % 2 == 0
    {
      hide Cpu.Valid, Plus;
      PcAfter(codePtr + codeToPc, w);
      codePtr := codePtr + w;
    }

    /** JUMP_INSN */
    method JumpInsn(target: nat)
      requires cpu.Valid() && host > 0 && nCycles >= 1 - BLOCK_MAX
      modifies `pc, `codePtr, `codeEnd, `codeToPc
      ensures cpu.Valid() && NoBlock() && GetPc() == Aligned(target)
    {
      hide Cpu.Valid;
      pc := Aligned(target);
      codePtr, codeEnd, codeToPc := 0, 0, pc;
    }

    /** A trap or a return from one: somewhere else, at another privilege */
    method Redirect(target: nat, newPriv: nat)
      requires cpu.Valid() && host > 0
      modifies `pc, cpu`priv, cpu`tlbRead, cpu`tlbWrite, cpu`tlbCode, cpu`past
      ensures Idle()
    {
      cpu.SetPriv(newPriv);
      pc := Aligned(target);
    }

    /**
     riscv_cpu_interp_x32. Interrupts, instructions and what they do are arbitrary; every call moves
     the counter, and by at most one block and one trap more than it was asked for.
     */
    method RunBlocks(n: nat)
      requires Idle() && n > 0
      modifies this, cpu, cpu.ram
      ensures Idle()
      ensures old(insnCounter) + 1 <= insnCounter <= old(insnCounter) + n + BLOCK_MAX
    {
      hide Cpu.Valid, Cpu.Coherent, InBlock, Holding, OnPage, FetchOf, InsnAt, InsnThrough, Plus, Aligned;
      var addend := insnCounter + n;
      nCycles := n;
      codePtr, codeEnd, codeToPc := 0, 0, pc;
      var interrupt: bool, target: nat, newPriv: nat := *, *, *;
      if interrupt {
        nCycles := nCycles - 1;
        Redirect(target, newPriv);
        insnCounter := addend - nCycles;
        return;
      }
      while true
        invariant Valid() && insnCounter == old(insnCounter) && 1 - BLOCK_MAX <= nCycles <= n
        decreases nCycles + BLOCK_MAX
      {
        interrupt, target, newPriv := *, *, *;
        var before := nCycles;
        var h := FetchHead(interrupt);
        if h.OutOfCycles? {
          break;
        }
        if h.Interrupted? {
          Redirect(target, newPriv);
          break;
        }
        if h.FetchTrap? {
          nCycles := nCycles - 1;
          Redirect(target, newPriv);
          break;
        }
        var effect: Effect, action: Action := *, *;
        HoldingCycles();
        Act(action);
        if effect.Raise? {
          nCycles := nCycles - 1;
          Redirect(target, newPriv);
          break;
        }
        if effect.Leave? {
          powerDown := *;
          Redirect(effect.target, newPriv);
          break;
        }
        Advance(h.bytes, effect);
        ValidCycles();
      }
      insnCounter := addend - nCycles;
    }

    lemma HoldingCycles()
      requires Holding()
      ensures nCycles >= 1 - BLOCK_MAX
    {
    }

    lemma ValidCycles()
      requires Valid()
      ensures nCycles >= 1 - BLOCK_MAX
    {
    }

    /**
     riscv_cpu_interp: it ends, and unless powered down it retires at least n and at most n + 2047. The counter is
     compared as the code does it, by the low 32 bits of a difference of 64-bit registers.
     */
    method Run(n: int)
      requires Idle() && -0x8000_0000 <= n < 0x8000_0000
      modifies this, cpu, cpu.ram
      ensures Idle()
      ensures powerDown || insnCounter >= old(insnCounter) + n
      ensures insnCounter >= old(insnCounter)
      ensures insnCounter == old(insnCounter) || insnCounter <= old(insnCounter) + n + BLOCK_MAX
    {
      hide Cpu.Valid, Remaining, Register;
      ghost var end := insnCounter + n;
      var timeout := Register(Register(insnCounter) + n);
      RegisterSum(insnCounter, n);
      RemainingIs(end, insnCounter);
      while !powerDown && Remaining(timeout, Register(insnCounter)) > 0
        invariant Idle() && insnCounter >= old(insnCounter)
        invariant insnCounter == old(insnCounter) || insnCounter <= end + BLOCK_MAX
        invariant Remaining(timeout, Register(insnCounter)) == end - insnCounter
        decreases end - insnCounter
      {
        RunBlocks(Remaining(timeout, Register(insnCounter)));
        RemainingIs(end, insnCounter);
      }
    }
  }

  /** The parts of an instruction's effect that memory accesses can see; a store to a device may make it write RAM. */
  datatype Action =
    | NoAccess
    | Load(addr: nat, size: nat)
    | Store(addr: nat, bytes: seq<Byte>)
    | Status(sum: bool, mxr: bool)
    | Satp(val: nat)
    | Fence
    | Device(paddr: nat, bytes: seq<Byte>)

  /** A value in a 64-bit register. */
  function Register(x: int): (r: nat)
    ensures r < 0x1_0000_0000_0000_0000
  {
    x % 0x1_0000_0000_0000_0000
  }

  /** (int)(timeout - s->insn_counter): the low 32 bits of the difference, read as a signed number */
  function Remaining(timeout: nat, counter: nat): int {
    var low := Register(timeout - counter) % 0x1_0000_0000;
    if low < 0x8000_0000 then low else low - 0x1_0000_0000
  }

  lemma RegisterSum(x: int, n: int)
    ensures Register(Register(x) + n) == Register(x + n)
  {
  }

  /** The truncated difference is the exact one while that fits an int, whatever the registers wrapped to. */
  lemma RemainingIs(end: int, counter: int)
    requires -0x8000_0000 <= end - counter < 0x8000_0000
    ensures Remaining(Register(end), Register(counter)) == end - counter
  {
    hide Register;
    DifferenceIs(end, counter);
  }

  lemma DifferenceIs(end: int, counter: int)
    requires -0x8000_0000 <= end - counter < 0x8000_0000
    ensures var d := end - counter;
            Register(Register(end) - Register(counter)) == if d >= 0 then d else d + 0x1_0000_0000_0000_0000
  {
    var a, c := end / 0x1_0000_0000_0000_0000, counter / 0x1_0000_0000_0000_0000;
    assert Register(end) - Register(counter) == end - counter - 0x1_0000_0000_0000_0000 * (a - c);
    WholeTurns(end - counter, a - c);
  }

  lemma WholeTurns(d: int, k: int)
    requires -0x8000_0000 <= d < 0x8000_0000
    ensures Register(d - 0x1_0000_0000_0000_0000 * k) == if d >= 0 then d else d + 0x1_0000_0000_0000_0000
  {
  }

  /** Jump targets, trap vectors and return addresses are kept even. */
  function Aligned(target: nat): (r: nat)
    ensures r % 2 == 0 && r < SPACE
  {
    (target - target % 2) % SPACE
  }

  lemma PcAfter(x: int, w: nat)
    requires w == 2 || w == 4
    ensures (x + w) % SPACE == Plus(x % SPACE, w)
    ensures x % SPACE % 2 == 0 ==> (x + w) % SPACE % 2 == 0
  {
  }

  /** The instruction at v by translation alone: v for its first half, v + 2 for the second if it has one. */
  function InsnAt(c: Regime, m: Ram, v: nat): Option<seq<Byte>> {
    var first := FetchOf(c, m, v);
    if !first.At? || first.offset + 2 > |m| then None
    else
      var m1 := AfterWalk(c, m, v, Code);
      var low := m1[first.offset..first.offset + 2];
      if Width(low) == 2 then Some(low)
      else
        var second := FetchOf(c, m1, Plus(v, 2));
        if !second.At? || second.offset + 2 > |m| then None
        else
          var m2 := AfterWalk(c, m1, Plus(v, 2), Code);
          Some(low + m2[second.offset..second.offset + 2])
  }

  /** Translation by c of memory m takes the whole page to the page of RAM at `frame`. */
  ghost predicate MapsPage(c: Regime, m: Ram, page: nat, frame: nat) {
    forall v: nat :: page <= v < page + PAGE ==> FetchOf(c, m, v) == Fetched.At(frame + (v - page))
  }

  lemma FetchMapsPage(c: Regime, m: Ram, v: nat, o: nat)
    requires FetchOf(c, m, v) == Fetched.At(o)
    ensures o - v % PAGE >= 0 && MapsPage(c, m, PageOf(v), o - v % PAGE)
  {
    hide Outcome, PageOf;
    FetchFrame(c, m, v, o);
    forall u: nat | PageOf(v) <= u < PageOf(v) + PAGE
      ensures FetchOf(c, m, u) == Fetched.At(o - v % PAGE + (u - PageOf(v)))
    {
      FetchInPage(c, m, v, o, u - PageOf(v));
    }
  }

  lemma FetchFrame(c: Regime, m: Ram, v: nat, o: nat)
    requires FetchOf(c, m, v) == Fetched.At(o)
    ensures o - v % PAGE >= 0
  {
    hide Outcome;
    FrameOffset(c, m, v, Code);
    CodeFrame(m, o, v);
  }

  lemma FetchInPage(c: Regime, m: Ram, v: nat, o: nat, k: nat)
    requires FetchOf(c, m, v) == Fetched.At(o) && o - v % PAGE >= 0 && k < PAGE
    ensures FetchOf(c, m, PageOf(v) + k) == Fetched.At(o - v % PAGE + k)
  {
    hide Outcome, AfterWalk, WordsRead;
    var u := PageOf(v) + k;
    SamePageOf(v, k);
    OutcomePagewise(c, m, v, Code);
    OutcomePagewise(c, m, u, Code);
    var p, q := Outcome(c, m, v, Code).value, Outcome(c, m, u, Code).value;
    FrameOffset(c, m, v, Code);
    FrameOffset(c, m, u, Code);
    PageInRam(m, p, 1);
    PageInRam(m, q, 1);
  }

  lemma SamePageOf(v: nat, k: nat)
    requires k < PAGE
    ensures PageOf(PageOf(v) + k) == PageOf(v) && (PageOf(v) + k) % PAGE == k
  {
    ModuloOffset(v / PAGE, k);
    assert PageOf(v) == v / PAGE * PAGE;
  }

  /** The instruction in memory m at the places that translation of `origin` gives for v and v + 2. */
  function InsnThrough(c: Regime, origin: Ram, m: Ram, v: nat): Option<seq<Byte>> {
    var first := FetchOf(c, origin, v);
    if !first.At? || first.offset + 2 > |m| then None
    else
      var low := m[first.offset..first.offset + 2];
      if Width(low) == 2 then Some(low)
      else
        var second := FetchOf(c, origin, Plus(v, 2));
        if !second.At? || second.offset + 2 > |m| then None else Some(low + m[second.offset..second.offset + 2])
  }

  /** With four bytes left on the page, they hold the instruction. */
  lemma InsnOnPage(c: Regime, origin: Ram, m: Ram, page: nat, frame: nat, at: nat)
    requires MapsPage(c, origin, page, frame) && at <= PAGE - 4 && frame + PAGE <= |m| && page + PAGE <= SPACE
    ensures var bytes := m[frame + at..frame + at + 4];
            InsnThrough(c, origin, m, page + at) == Some(bytes[..Width(bytes)])
  {
    hide FetchOf;
    var bytes, o := m[frame + at..frame + at + 4], frame + at;
    assert FetchOf(c, origin, page + at) == Fetched.At(o);
    assert FetchOf(c, origin, page + (at + 2)) == Fetched.At(frame + (at + 2));
    assert Plus(page + at, 2) == page + (at + 2);
    assert bytes[..2] == m[o..o + 2];
    assert m[o..o + 2] + m[o + 2..o + 4] == bytes == bytes[..4];
    assert Width(m[o..o + 2]) == Width(bytes);
  }

  lemma InnerPc(page: nat, o: nat)
    requires page % PAGE == 0 && page < SPACE && o < PAGE
    ensures page + PAGE <= SPACE && (page + o) % SPACE == page + o
  {
  }

  /** With four bytes left on the page, one translation does for the whole instruction. */
  lemma PageInsn(c: Regime, m: Ram, v: nat, o: nat)
    requires v < SPACE && v % PAGE <= PAGE - 4 && FetchOf(c, m, v) == Fetched.At(o)
    ensures o + 4 <= |m|
    ensures var bytes := AfterWalk(c, m, v, Code)[o..o + 4];
            InsnAt(c, m, v) == Some(bytes[..Width(bytes)])
  {
    hide Walk, AfterWalk, Outcome, WordsRead, PageOf;
    var m1 := AfterWalk(c, m, v, Code);
    assert Plus(v, 2) == v + 2 by {
      PageBelow(v);
      PageOffset(v);
    }
    FrameOffset(c, m, v, Code);
    CodeFrame(m, o, v);
    SamePage(v, 2);
    PageBelow(v);
    PageOffset(v);
    SamePageOutcome(c, m, v, 2, Code);
    var bytes := m1[o..o + 4];
    assert bytes[..2] == m1[o..o + 2];
    assert m1[o..o + 2] + m1[o + 2..o + 4] == bytes == bytes[..4];
    assert Width(m1[o..o + 2]) == Width(bytes);
    assert FetchOf(c, m1, Plus(v, 2)) == Fetched.At(o + 2);
  }

  lemma EvenPlus(v: nat)
    requires v % 2 == 0
    ensures Plus(v, 2) % 2 == 0
  {
  }

  lemma PageBelow(v: nat)
    requires v < SPACE
    ensures PageOf(v) + PAGE <= SPACE
  {
  }

  lemma EvenOffset(v: nat)
    ensures v % PAGE % 2 == v % 2 && PageOf(v) % PAGE == 0
  {
    var q, o := v / PAGE, v % PAGE;
    DivIs(v, 2, 0x800 * q + o / 2, o % 2);
    DivIs(PageOf(v), PAGE, q, 0);
  }
}
