/** rv_build_fdt: the machine's tree written. */
module FdtMachine {
  import opened Basics
  import opened FdtFormat
  import opened FdtTree
  import opened FdtWriter

  lemma NoKids(n: Node)
    requires n.kids == []
    ensures Flatten(n) == [Begin(n.name)] + PropTokens(n.props) + [End]
  {
    assert [Begin(n.name)] + PropTokens(n.props) + [] == [Begin(n.name)] + PropTokens(n.props);
  }

  lemma {:induction false} KidsMore(kids: seq<Node>, kid: Node)
    ensures FlattenAll(kids + [kid]) == FlattenAll(kids) + Flatten(kid)
    decreases |kids|
  {
    hide Flatten;
    if kids == [] {
      assert kids + [kid] == [kid] && [kid][1..] == [];
      assert Flatten(kid) + [] == Flatten(kid);
    } else {
      assert (kids + [kid])[1..] == kids[1..] + [kid];
      KidsMore(kids[1..], kid);
      assert Flatten(kids[0]) + FlattenAll(kids[1..]) + Flatten(kid) ==
             Flatten(kids[0]) + (FlattenAll(kids[1..]) + Flatten(kid));
    }
  }

  /** What an open node has so far. */
  function Opened(base: seq<Token>, name: Name, props: seq<Prop>, kids: seq<Node>): seq<Token> {
    base + [Begin(name)] + PropTokens(props) + FlattenAll(kids)
  }

  lemma KidAdded(base: seq<Token>, name: Name, props: seq<Prop>, kids: seq<Node>, kid: Node)
    ensures Opened(base, name, props, kids) + Flatten(kid) == Opened(base, name, props, kids + [kid])
  {
    hide Flatten, PropTokens;
    KidsMore(kids, kid);
  }

  lemma NodeClosed(base: seq<Token>, name: Name, props: seq<Prop>, kids: seq<Node>)
    ensures Opened(base, name, props, kids) + [End] == base + Flatten(Node(name, props, kids))
  {
  }

  method WriteIntc(w: Writer)
    requires w.Sound()
    modifies w, w.buf
    ensures w.Sound() && w.tokens == old(w.tokens) + Flatten(Intc())
  {
    hide Lit, Cell, Cells, NumName, FdtWriter.Writer.Sound;
    w.BeginNode(Lit("interrupt-controller"));
    w.PropU32(Lit("#interrupt-cells"), 1);
    w.PropEmpty(Lit("interrupt-controller"));
    w.PropStr(Lit("compatible"), Lit("riscv,cpu-intc"));
    w.PropU32(Lit("phandle"), INTC);
    w.EndNode();
    assert old(w.tokens) + Flatten(Intc()) == w.tokens by {
      NoKids(Intc());
    }
  }

  method WriteMemory(w: Writer, p: Params)
    requires w.Sound() && p.ramBase < 0x1_0000_0000
    modifies w, w.buf
    ensures w.Sound() && w.tokens == old(w.tokens) + Flatten(Memory(p))
  {
    hide Lit, Cell, Cells, NumName, FdtWriter.Writer.Sound;
    w.BeginNodeNum(Lit("memory"), p.ramBase);
    w.PropStr(Lit("device_type"), Lit("memory"));
    w.PropCells(Lit("reg"), [0, p.ramBase, 0, p.ramSize]);
    w.EndNode();
    assert old(w.tokens) + Flatten(Memory(p)) == w.tokens by {
      NoKids(Memory(p));
    }
  }

  method WriteClint(w: Writer)
    requires w.Sound()
    modifies w, w.buf
    ensures w.Sound() && w.tokens == old(w.tokens) + Flatten(Clint())
  {
    hide Lit, Cell, Cells, NumName, FdtWriter.Writer.Sound;
    w.BeginNodeNum(Lit("clint"), CLINT_BASE);
    w.PropStr(Lit("compatible"), Lit("riscv,clint0"));
    w.PropCells(Lit("interrupts-extended"), [INTC, 3, INTC, 7]);
    w.PropCells(Lit("reg"), [0, CLINT_BASE, 0, CLINT_SIZE]);
    w.EndNode();
    assert old(w.tokens) + Flatten(Clint()) == w.tokens by {
      NoKids(Clint());
    }
  }

  method WritePlicNode(w: Writer)
    requires w.Sound()
    modifies w, w.buf
    ensures w.Sound() && w.tokens == old(w.tokens) + Flatten(PlicNode())
  {
    hide Lit, Cell, Cells, NumName, FdtWriter.Writer.Sound;
    w.BeginNodeNum(Lit("plic"), PLIC_BASE);
    w.PropU32(Lit("#interrupt-cells"), 1);
    w.PropEmpty(Lit("interrupt-controller"));
    w.PropStr(Lit("compatible"), Lit("riscv,plic0"));
    w.PropU32(Lit("riscv,ndev"), 31);
    w.PropCells(Lit("reg"), [0, PLIC_BASE, 0, PLIC_SIZE]);
    w.PropCells(Lit("interrupts-extended"), [INTC, 9]);
    w.PropU32(Lit("phandle"), PLIC);
    w.EndNode();
    assert old(w.tokens) + Flatten(PlicNode()) == w.tokens by {
      NoKids(PlicNode());
    }
  }

  method WriteSerial(w: Writer)
    requires w.Sound()
    modifies w, w.buf
    ensures w.Sound() && w.tokens == old(w.tokens) + Flatten(Serial())
  {
    hide Lit, Cell, Cells, NumName, FdtWriter.Writer.Sound;
    w.BeginNodeNum(Lit("serial"), UART_BASE);
    w.PropStr(Lit("compatible"), Lit("ns16550a"));
    w.PropCells(Lit("reg"), [0, UART_BASE, 0, UART_SIZE]);
    w.PropU32(Lit("clock-frequency"), 1843200);
    w.PropU32(Lit("reg-shift"), 0);
    w.PropU32(Lit("reg-io-width"), 1);
    w.PropU32(Lit("interrupt-parent"), PLIC);
    w.PropU32(Lit("interrupts"), UART_IRQ);
    w.EndNode();
    assert old(w.tokens) + Flatten(Serial()) == w.tokens by {
      NoKids(Serial());
    }
  }

  method WriteVirtio(w: Writer, base: nat, irq: nat)
    requires w.Sound() && base < 0x1_0000_0000
    modifies w, w.buf
    ensures w.Sound() && w.tokens == old(w.tokens) + Flatten(Virtio(base, irq))
  {
    hide Lit, Cell, Cells, NumName, FdtWriter.Writer.Sound;
    w.BeginNodeNum(Lit("virtio"), base);
    w.PropStr(Lit("compatible"), Lit("virtio,mmio"));
    w.PropCells(Lit("reg"), [0, base, 0, VIRTIO_SIZE]);
    w.PropU32(Lit("interrupt-parent"), PLIC);
    w.PropU32(Lit("interrupts"), irq);
    w.EndNode();
    assert old(w.tokens) + Flatten(Virtio(base, irq)) == w.tokens by {
      NoKids(Virtio(base, irq));
    }
  }

  method WriteSyscon(w: Writer)
    requires w.Sound()
    modifies w, w.buf
    ensures w.Sound() && w.tokens == old(w.tokens) + Flatten(Syscon())
  {
    hide Lit, Cell, Cells, NumName, FdtWriter.Writer.Sound;
    w.BeginNodeNum(Lit("syscon"), SYSCON_BASE);
    w.PropStr(Lit("compatible"), Lit("syscon"));
    w.PropCells(Lit("reg"), [0, SYSCON_BASE, 0, SYSCON_SIZE]);
    w.PropU32(Lit("phandle"), SYSCON);
    w.EndNode();
    assert old(w.tokens) + Flatten(Syscon()) == w.tokens by {
      NoKids(Syscon());
    }
  }

  method WritePower(w: Writer, name: string, compatible: string, value: nat)
    requires w.Sound()
    modifies w, w.buf
    ensures w.Sound() && w.tokens == old(w.tokens) + Flatten(Power(name, compatible, value))
  {
    hide Lit, Cell, Cells, NumName, FdtWriter.Writer.Sound;
    w.BeginNode(Lit(name));
    w.PropStr(Lit("compatible"), Lit(compatible));
    w.PropU32(Lit("regmap"), SYSCON);
    w.PropU32(Lit("offset"), 0);
    w.PropU32(Lit("value"), value);
    w.EndNode();
    assert old(w.tokens) + Flatten(Power(name, compatible, value)) == w.tokens by {
      NoKids(Power(name, compatible, value));
    }
  }

  method CpuHead(w: Writer, p: Params)
    requires w.Sound()
    modifies w, w.buf
    ensures w.Sound() && w.tokens == Opened(old(w.tokens), NumName(Lit("cpu"), 0), CpuProps(p), [])
  {
    hide Lit, Cell, Cells, NumName, FdtWriter.Writer.Sound, Flatten, FlattenAll, Opened;
    ghost var base := w.tokens;
    w.BeginNodeNum(Lit("cpu"), 0);
    w.PropStr(Lit("device_type"), Lit("cpu"));
    w.PropU32(Lit("reg"), 0);
    w.PropStr(Lit("status"), Lit("okay"));
    w.PropStr(Lit("compatible"), Lit("riscv"));
    w.PropStr(Lit("riscv,isa"), p.isa);
    assert w.tokens == base + [Begin(NumName(Lit("cpu"), 0))] + PropTokens(CpuProps(p)[..5]);
    if p.mmuType.Some? {
      w.PropStr(Lit("mmu-type"), p.mmuType.value);
    }
    w.PropU32(Lit("clock-frequency"), 2000000000);
    OpenedProps(base, NumName(Lit("cpu"), 0), CpuProps(p));
  }

  method WriteCpu(w: Writer, p: Params)
    requires w.Sound()
    modifies w, w.buf
    ensures w.Sound() && w.tokens == old(w.tokens) + Flatten(Cpu(p))
  {
    hide Lit, NumName, FdtWriter.Writer.Sound, Flatten, Opened, CpuProps, Intc;
    ghost var base, name := w.tokens, NumName(Lit("cpu"), 0);
    CpuHead(w, p);
    WriteIntc(w);
    KidAdded(base, name, CpuProps(p), [], Intc());
    w.EndNode();
    assert [] + [Intc()] == [Intc()];
    NodeClosed(base, name, CpuProps(p), [Intc()]);
  }

  method WriteCpus(w: Writer, p: Params)
    requires w.Sound()
    modifies w, w.buf
    ensures w.Sound() && w.tokens == old(w.tokens) + Flatten(Cpus(p))
  {
    hide Lit, Cell, Cells, NumName, FdtWriter.Writer.Sound, Flatten, FlattenAll, Cpu;
    ghost var base, name, props := w.tokens, Lit("cpus"), Cpus(p).props;
    w.BeginNode(Lit("cpus"));
    w.PropU32(Lit("#address-cells"), 1);
    w.PropU32(Lit("#size-cells"), 0);
    w.PropU32(Lit("timebase-frequency"), p.timebaseHz);
    OpenedProps(base, name, props);
    WriteCpu(w, p);
    KidAdded(base, name, props, [], Cpu(p));
    w.EndNode();
    NodeClosed(base, name, props, [Cpu(p)]);
    assert [] + [Cpu(p)] == [Cpu(p)];
  }

  method SocHead(w: Writer, p: Params)
    requires w.Sound()
    modifies w, w.buf
    ensures w.Sound() && w.tokens == Opened(old(w.tokens), Lit("soc"), Soc(p).props, [])
  {
    hide Lit, Cell, Cells, FdtWriter.Writer.Sound, Opened, SocKids;
    ghost var base := w.tokens;
    w.BeginNode(Lit("soc"));
    w.PropU32(Lit("#address-cells"), 2);
    w.PropU32(Lit("#size-cells"), 2);
    w.PropStr(Lit("compatible"), Lit("simple-bus"));
    w.PropEmpty(Lit("ranges"));
    OpenedProps(base, Lit("soc"), Soc(p).props);
  }

  /** A slot under soc, if anything is in it */
  method WriteSlot(w: Writer, present: bool, addr: nat, irq: nat, ghost base: seq<Token>, ghost props: seq<Prop>,
                   ghost kids: seq<Node>)
    returns (ghost more: seq<Node>)
    requires w.Sound() && addr < 0x1_0000_0000 && w.tokens == Opened(base, Lit("soc"), props, kids)
    modifies w, w.buf
    ensures w.Sound() && more == kids + (if present then [Virtio(addr, irq)] else [])
    ensures w.tokens == Opened(base, Lit("soc"), props, more)
  {
    hide Lit, FdtWriter.Writer.Sound, Opened, Virtio, Flatten;
    more := kids;
    if present {
      WriteVirtio(w, addr, irq);
      more := OneKid(w, base, Lit("soc"), props, kids, Virtio(addr, irq));
    }
  }

  method WriteSoc(w: Writer, p: Params)
    requires w.Sound()
    modifies w, w.buf
    ensures w.Sound() && w.tokens == old(w.tokens) + Flatten(Soc(p))
  {
    hide Lit, Cell, FdtWriter.Writer.Sound, Flatten, Opened, Clint, PlicNode, Serial, Virtio, Syscon;
    ghost var base, name, props, kids := w.tokens, Lit("soc"), Soc(p).props, [];
    SocHead(w, p);
    WriteClint(w);
    kids := OneKid(w, base, name, props, kids, Clint());
    WritePlicNode(w);
    kids := OneKid(w, base, name, props, kids, PlicNode());
    WriteSerial(w);
    kids := OneKid(w, base, name, props, kids, Serial());
    kids := WriteSlot(w, p.hasBlk, VIRTIO_BASE, VIRTIO_IRQ, base, props, kids);
    kids := WriteSlot(w, p.hasNet, VIRTIO_NET_BASE, VIRTIO_NET_IRQ, base, props, kids);
    WriteSyscon(w);
    kids := OneKid(w, base, name, props, kids, Syscon());
    w.EndNode();
    NodeClosed(base, name, props, kids);
    assert kids == SocKids(p);
  }

  method WriteChosen(w: Writer, p: Params)
    requires w.Sound()
    modifies w, w.buf
    ensures w.Sound() && w.tokens == old(w.tokens) + Flatten(Chosen(p))
  {
    hide Lit, Cell, Cells, NumName, FdtWriter.Writer.Sound;
    w.BeginNode(Lit("chosen"));
    w.PropStr(Lit("bootargs"), if p.cmdline.Some? then p.cmdline.value else []);
    w.PropStr(Lit("stdout-path"), Lit("/soc/serial@10000000"));
    if p.initrdEnd > p.initrdStart {
      w.PropU32(Lit("linux,initrd-start"), p.initrdStart);
      w.PropU32(Lit("linux,initrd-end"), p.initrdEnd);
    }
    w.EndNode();
    assert old(w.tokens) + Flatten(Chosen(p)) == w.tokens by {
      NoKids(Chosen(p));
    }
  }

  method RootHead(w: Writer, p: Params)
    requires w.Sound()
    modifies w, w.buf
    ensures w.Sound() && w.tokens == Opened(old(w.tokens), [], MachineTree(p).props, [])
  {
    hide Lit, Cell, Cells, FdtWriter.Writer.Sound, Opened, Cpus, Memory, Soc, Power, Chosen;
    ghost var base := w.tokens;
    w.BeginNode([]);
    w.PropU32(Lit("#address-cells"), 2);
    w.PropU32(Lit("#size-cells"), 2);
    w.PropStr(Lit("compatible"), Lit("ra8d1,tinyemu"));
    w.PropStr(Lit("model"), Lit("ra8d1-tinyemu"));
    OpenedProps(base, [], MachineTree(p).props);
  }

  /** The root node and everything in it */
  method WriteMachine(w: Writer, p: Params)
    requires w.Sound() && p.ramBase < 0x1_0000_0000
    modifies w, w.buf
    ensures w.Sound() && w.tokens == old(w.tokens) + Flatten(MachineTree(p))
  {
    hide Lit, Cell, FdtWriter.Writer.Sound, Flatten, Opened, Cpus, Memory, Soc, Power, Chosen;
    ghost var base, name, props, kids := w.tokens, [], MachineTree(p).props, [];
    RootHead(w, p);
    WriteCpus(w, p);
    kids := OneKid(w, base, name, props, kids, Cpus(p));
    WriteMemory(w, p);
    kids := OneKid(w, base, name, props, kids, Memory(p));
    WriteSoc(w, p);
    kids := OneKid(w, base, name, props, kids, Soc(p));
    WritePower(w, "poweroff", "syscon-poweroff", 0x5555);
    kids := OneKid(w, base, name, props, kids, Power("poweroff", "syscon-poweroff", 0x5555));
    WritePower(w, "reboot", "syscon-reboot", 0x7777);
    kids := OneKid(w, base, name, props, kids, Power("reboot", "syscon-reboot", 0x7777));
    WriteChosen(w, p);
    kids := OneKid(w, base, name, props, kids, Chosen(p));
    w.EndNode();
    NodeClosed(base, name, props, kids);
    assert kids == MachineTree(p).kids;
  }

  /**
   rv_build_fdt: a blob that parses back to exactly the machine's tree, for every record and command line for
   which the buffer is long enough for the blob; otherwise 0.
   */
  method BuildFdt(buf: array<Byte>, p: Params) returns (total: nat)
    requires buf.Length < 0x1_0000_0000 && p.ramBase < 0x1_0000_0000
    modifies buf
    ensures total == 0 <==> buf.Length < BlobSize(MachineTree(p))
    ensures total > 0 ==> total == BlobSize(MachineTree(p)) <= buf.Length && ParseBlob(buf[..total]) == Some(MachineTree(p))
  {
    hide MachineTree, Fits, BlobSize, ParseBlob, Flatten;
    MachineFits(p, buf.Length);
    if buf.Length < STRUCT_OFF + 64 {
      return 0;
    }
    var w := new Writer(buf);
    WriteMachine(w, p);
    w.FinishBlock();
    assert [] + Flatten(MachineTree(p)) == Flatten(MachineTree(p));
    total := w.Close(MachineTree(p));
  }

  lemma OpenedProps(base: seq<Token>, name: Name, props: seq<Prop>)
    ensures base + [Begin(name)] + PropTokens(props) == Opened(base, name, props, [])
  {
    assert FlattenAll([]) == [];
  }

  ghost method OneKid(w: Writer, base: seq<Token>, name: Name, props: seq<Prop>, kids: seq<Node>, kid: Node)
    returns (more: seq<Node>)
    requires w.tokens == Opened(base, name, props, kids) + Flatten(kid)
    ensures more == kids + [kid] && w.tokens == Opened(base, name, props, more)
  {
    KidAdded(base, name, props, kids, kid);
    more := kids + [kid];
  }
}
