/** The tree of this machine, and how large it is. */
module FdtTree {
  import opened Basics
  import opened FdtFormat
  import opened FdtWriter

  const UART_BASE := 0x1000_0000
  const UART_SIZE := 0x100
  const CLINT_BASE := 0x1100_0000
  const CLINT_SIZE := 0x1_0000
  const SYSCON_BASE := 0x1110_0000
  const SYSCON_SIZE := 0x1000
  const VIRTIO_BASE := 0x1000_1000
  const VIRTIO_NET_BASE := 0x1000_2000
  const VIRTIO_SIZE := 0x1000
  const PLIC_BASE := 0x4010_0000
  const PLIC_SIZE := 0x40_0000
  const UART_IRQ := 1
  const VIRTIO_IRQ := 2
  const VIRTIO_NET_IRQ := 3

  const INTC := 1
  const PLIC := 2
  const SYSCON := 3

  /** RVFdtParams; numbers are 32 bits wide. */
  datatype Params = Params(ramBase: nat, ramSize: nat, timebaseHz: nat, isa: Name, mmuType: Option<Name>,
                           cmdline: Option<Name>, initrdStart: nat, initrdEnd: nat, hasBlk: bool, hasNet: bool)

  /** The bytes of a C string literal, of characters from 1 to 255. */
  function Lit(s: string): (r: Name)
    ensures |r| == |s| && forall k :: 0 <= k < |s| && 0 < s[k] as int < 256 ==> r[k] == s[k] as int
  {
    seq(|s|, k requires 0 <= k < |s| => if 0 < s[k] as int < 256 then s[k] as int else 1)
  }

  function Str(name: string, val: Name): Prop {
    Prop(Lit(name), val + [0])
  }

  function Num(name: string, val: nat): Prop {
    Prop(Lit(name), Cell(val))
  }

  function List(name: string, cells: seq<nat>): Prop {
    Prop(Lit(name), Cells(cells))
  }

  function Empty(name: string): Prop {
    Prop(Lit(name), [])
  }

  /** Two cells of address and two of size. */
  function Reg(addr: nat, size: nat): Prop {
    List("reg", [0, addr, 0, size])
  }

  /** The hart's interrupt controller. */
  function Intc(): Node {
    hide Lit, Cell, Cells, NumName;
    Node(Lit("interrupt-controller"),
         [Num("#interrupt-cells", 1),
          Empty("interrupt-controller"),
          Str("compatible", Lit("riscv,cpu-intc")),
          Num("phandle", INTC)],
         [])
  }

  /** The memory node. */
  function Memory(p: Params): Node {
    hide Lit, Cell, Cells, NumName;
    Node(NumName(Lit("memory"), p.ramBase),
         [Str("device_type", Lit("memory")),
          Reg(p.ramBase, p.ramSize)],
         [])
  }

  /** The timer and software interrupts. */
  function Clint(): Node {
    hide Lit, Cell, Cells, NumName;
    Node(NumName(Lit("clint"), CLINT_BASE),
         [Str("compatible", Lit("riscv,clint0")),
          List("interrupts-extended", [INTC, 3, INTC, 7]),
          Reg(CLINT_BASE, CLINT_SIZE)],
         [])
  }

  /** The external interrupt controller. */
  function PlicNode(): Node {
    hide Lit, Cell, Cells, NumName;
    Node(NumName(Lit("plic"), PLIC_BASE),
         [Num("#interrupt-cells", 1),
          Empty("interrupt-controller"),
          Str("compatible", Lit("riscv,plic0")),
          Num("riscv,ndev", 31),
          Reg(PLIC_BASE, PLIC_SIZE),
          List("interrupts-extended", [INTC, 9]),
          Num("phandle", PLIC)],
         [])
  }

  /** The serial port. */
  function Serial(): Node {
    hide Lit, Cell, Cells, NumName;
    Node(NumName(Lit("serial"), UART_BASE),
         [Str("compatible", Lit("ns16550a")),
          Reg(UART_BASE, UART_SIZE),
          Num("clock-frequency", 1843200),
          Num("reg-shift", 0),
          Num("reg-io-width", 1),
          Num("interrupt-parent", PLIC),
          Num("interrupts", UART_IRQ)],
         [])
  }

  /** A virtio slot. */
  function Virtio(base: nat, irq: nat): Node {
    hide Lit, Cell, Cells, NumName;
    Node(NumName(Lit("virtio"), base),
         [Str("compatible", Lit("virtio,mmio")),
          Reg(base, VIRTIO_SIZE),
          Num("interrupt-parent", PLIC),
          Num("interrupts", irq)],
         [])
  }

  /** Power control. */
  function Syscon(): Node {
    hide Lit, Cell, Cells, NumName;
    Node(NumName(Lit("syscon"), SYSCON_BASE),
         [Str("compatible", Lit("syscon")),
          Reg(SYSCON_BASE, SYSCON_SIZE),
          Num("phandle", SYSCON)],
         [])
  }

  /** A consumer of power control. */
  function Power(name: string, compatible: string, value: nat): Node {
    hide Lit, Cell, Cells, NumName;
    Node(Lit(name),
         [Str("compatible", Lit(compatible)),
          Num("regmap", SYSCON),
          Num("offset", 0),
          Num("value", value)],
         [])
  }

  function CpuProps(p: Params): seq<Prop> {
    hide Lit, Cell, Cells, NumName;
    [Str("device_type", Lit("cpu")), Num("reg", 0), Str("status", Lit("okay")), Str("compatible", Lit("riscv")),
     Str("riscv,isa", p.isa)]
    + (if p.mmuType.Some? then [Str("mmu-type", p.mmuType.value)] else [])
    + [Num("clock-frequency", 2000000000)]
  }

  function Cpu(p: Params): Node {
    hide Lit, Cell, Cells, NumName;
    Node(NumName(Lit("cpu"), 0), CpuProps(p), [Intc()])
  }

  function Cpus(p: Params): Node {
    hide Lit, Cell, Cells, NumName;
    Node(Lit("cpus"),
         [Num("#address-cells", 1), Num("#size-cells", 0), Num("timebase-frequency", p.timebaseHz)],
         [Cpu(p)])
  }

  /** The devices; a virtio slot is described only when something is in it. */
  function SocKids(p: Params): seq<Node> {
    hide Lit, Cell, Cells, NumName;
    [Clint(), PlicNode(), Serial()]
    + (if p.hasBlk then [Virtio(VIRTIO_BASE, VIRTIO_IRQ)] else [])
    + (if p.hasNet then [Virtio(VIRTIO_NET_BASE, VIRTIO_NET_IRQ)] else [])
    + [Syscon()]
  }

  function Soc(p: Params): Node {
    hide Lit, Cell, Cells, NumName;
    Node(Lit("soc"),
         [Num("#address-cells", 2), Num("#size-cells", 2), Str("compatible", Lit("simple-bus")), Empty("ranges")],
         SocKids(p))
  }

  function Chosen(p: Params): Node {
    hide Lit, Cell, Cells, NumName;
    Node(Lit("chosen"),
         [Str("bootargs", if p.cmdline.Some? then p.cmdline.value else []),
          Str("stdout-path", Lit("/soc/serial@10000000"))]
         + (if p.initrdEnd > p.initrdStart then
              [Num("linux,initrd-start", p.initrdStart), Num("linux,initrd-end", p.initrdEnd)]
            else []),
         [])
  }

  /** The machine, as the guest is told it. */
  function MachineTree(p: Params): Node {
    hide Lit, Cell, Cells, NumName;
    Node([],
         [Num("#address-cells", 2), Num("#size-cells", 2), Str("compatible", Lit("ra8d1,tinyemu")),
          Str("model", Lit("ra8d1-tinyemu"))],
         [Cpus(p), Memory(p), Soc(p), Power("poweroff", "syscon-poweroff", 0x5555), Power("reboot", "syscon-reboot", 0x7777),
          Chosen(p)])
  }

  /* ---- its size ---- */

  /** Every property name there is. */
  function PropNames(): seq<Name> {
    hide Lit;
    [Lit("#address-cells"), Lit("#size-cells"), Lit("compatible"), Lit("model"), Lit("timebase-frequency"),
     Lit("device_type"), Lit("reg")]
    + [Lit("status"), Lit("riscv,isa"), Lit("mmu-type"), Lit("clock-frequency"), Lit("#interrupt-cells"),
       Lit("interrupt-controller"), Lit("phandle")]
    + [Lit("interrupts-extended"), Lit("riscv,ndev"), Lit("reg-shift"), Lit("reg-io-width"), Lit("interrupt-parent"),
       Lit("interrupts"), Lit("ranges")]
    + [Lit("regmap"), Lit("offset"), Lit("value"), Lit("bootargs"), Lit("stdout-path"), Lit("linux,initrd-start"),
       Lit("linux,initrd-end")]
  }

  ghost predicate Known(props: seq<Prop>) {
    forall i :: 0 <= i < |props| ==> props[i].name in PropNames()
  }

  ghost predicate KnownNode(n: Node)
    decreases n
  {
    Known(n.props) && forall i :: 0 <= i < |n.kids| ==> KnownNode(n.kids[i])
  }

  ghost predicate KnownTokens(ts: seq<Token>) {
    forall i :: 0 <= i < |ts| && ts[i].Property? ==> ts[i].prop.name in PropNames()
  }

  lemma KnownFlat(n: Node)
    requires KnownNode(n)
    ensures KnownTokens(Flatten(n))
    decreases n, 0
  {
    hide PropNames;
    KnownFlatAll(n.kids);
  }

  lemma KnownFlatAll(kids: seq<Node>)
    requires forall i :: 0 <= i < |kids| ==> KnownNode(kids[i])
    ensures KnownTokens(FlattenAll(kids))
    decreases kids, 1
  {
    hide PropNames, Flatten;
    if kids != [] {
      KnownFlat(kids[0]);
      KnownFlatAll(kids[1..]);
    }
  }

  lemma {:induction false} InternedKnown(ts: seq<Token>)
    requires KnownTokens(ts)
    ensures forall name :: name in Interned(ts) ==> name in PropNames()
    decreases |ts|
  {
    hide PropNames;
    if ts != [] {
      InternedKnown(ts[..|ts| - 1]);
    }
  }

  lemma {:induction false} BlockJoin(a: seq<Name>, b: seq<Name>)
    ensures |Block(a + b)| == |Block(a)| + |Block(b)|
    decreases |b|
  {
    if b == [] {
      assert a + b == a;
    } else {
      var n := |b| - 1;
      BlockJoin(a, b[..n]);
      assert (a + b)[..|a + b| - 1] == a + b[..n];
    }
  }

  /** Names without repetition, all among others, take no more room than those. */
  lemma {:induction false} AmongFits(names: seq<Name>, all: seq<Name>)
    requires Distinct(names) && forall name :: name in names ==> name in all
    ensures |Block(names)| <= |Block(all)|
    decreases |all|
  {
    hide Block;
    if all == [] {
      NoneAmong(names, all);
    } else {
      var n := |all| - 1;
      BlockMore(all[..n], all[n]);
      assert all[..n] + [all[n]] == all;
      if all[n] in names {
        var k :| 0 <= k < |names| && names[k] == all[n];
        RestAmong(names, k, all);
        var rest := names[..k] + names[k + 1..];
        AmongFits(rest, all[..n]);
        BlockJoin(names[..k], names[k + 1..]);
        BlockJoin(names[..k] + [names[k]], names[k + 1..]);
        BlockMore(names[..k], names[k]);
        assert names[..k] + [names[k]] + names[k + 1..] == names;
      } else {
        AmongFits(names, all[..n]);
      }
    }
  }

  lemma NoneAmong(names: seq<Name>, all: seq<Name>)
    requires forall name :: name in names ==> name in all
    ensures names != [] ==> all != []
  {
    if names != [] {
      assert names[0] in all;
    }
  }

  lemma RestAmong(names: seq<Name>, k: nat, all: seq<Name>)
    requires Distinct(names) && k < |names| && all != [] && names[k] == all[|all| - 1]
    requires forall name :: name in names ==> name in all
    ensures var rest := names[..k] + names[k + 1..];
            Distinct(rest) && forall name :: name in rest ==> name in all[..|all| - 1]
  {
    var rest, n := names[..k] + names[k + 1..], |all| - 1;
    assert forall i :: 0 <= i < |rest| ==> rest[i] == names[if i < k then i else i + 1];
    forall name | name in rest
      ensures name in all[..n]
    {
      var i :| 0 <= i < |rest| && rest[i] == name;
      var j := if i < k then i else i + 1;
      assert name == names[j] != names[k];
      assert name in all;
    }
  }

  lemma NamesSize()
    ensures |Block(PropNames())| == 333
  {
    hide Block, Lit;
    var a := [Lit("#address-cells"), Lit("#size-cells"), Lit("compatible"), Lit("model"), Lit("timebase-frequency"),
              Lit("device_type"), Lit("reg")];
    var b := [Lit("status"), Lit("riscv,isa"), Lit("mmu-type"), Lit("clock-frequency"), Lit("#interrupt-cells"),
              Lit("interrupt-controller"), Lit("phandle")];
    var c := [Lit("interrupts-extended"), Lit("riscv,ndev"), Lit("reg-shift"), Lit("reg-io-width"),
              Lit("interrupt-parent"), Lit("interrupts"), Lit("ranges")];
    var d := [Lit("regmap"), Lit("offset"), Lit("value"), Lit("bootargs"), Lit("stdout-path"),
              Lit("linux,initrd-start"), Lit("linux,initrd-end")];
    SevenNames(a);
    SevenNames(b);
    SevenNames(c);
    SevenNames(d);
    BlockJoin(a, b);
    BlockJoin(a + b, c);
    BlockJoin(a + b + c, d);
    assert PropNames() == a + b + c + d;
  }

  lemma SevenNames(s: seq<Name>)
    requires |s| == 7
    ensures |Block(s)| == |s[0]| + |s[1]| + |s[2]| + |s[3]| + |s[4]| + |s[5]| + |s[6]| + 7
  {
    hide Block;
    NoBlock();
    forall k | 0 <= k < 7
      ensures |Block(s[..k + 1])| == |Block(s[..k])| + |s[k]| + 1
    {
      BlockMore(s[..k], s[k]);
      assert s[..k] + [s[k]] == s[..k + 1];
    }
    assert s[..0] == [] && s[..7] == s;
    assert |Block(s[..1])| == |s[0]| + 1;
    assert |Block(s[..4])| == |s[0]| + |s[1]| + |s[2]| + |s[3]| + 4;
  }

  lemma NoBlock()
    ensures Block([]) == []
  {
  }

  lemma IntcKnown()
    ensures KnownNode(Intc())
  {
    hide Lit, Cell, Cells, NumName;
  }

  lemma MemoryKnown(p: Params)
    ensures KnownNode(Memory(p))
  {
    hide Lit, Cell, Cells, NumName;
  }

  lemma ClintKnown()
    ensures KnownNode(Clint())
  {
    hide Lit, Cell, Cells, NumName;
  }

  lemma PlicKnown()
    ensures KnownNode(PlicNode())
  {
    hide Lit, Cell, Cells, NumName;
  }

  lemma SerialKnown()
    ensures KnownNode(Serial())
  {
    hide Lit, Cell, Cells, NumName;
  }

  lemma VirtioKnown(base: nat, irq: nat)
    ensures KnownNode(Virtio(base, irq))
  {
    hide Lit, Cell, Cells, NumName;
  }

  lemma SysconKnown()
    ensures KnownNode(Syscon())
  {
    hide Lit, Cell, Cells, NumName;
  }

  lemma PowerKnown(name: string, compatible: string, value: nat)
    ensures KnownNode(Power(name, compatible, value))
  {
    hide Lit, Cell, Cells, NumName;
  }

  lemma ChosenKnown(p: Params)
    ensures KnownNode(Chosen(p))
  {
    hide Lit, Cell, Cells, NumName;
  }

  lemma CpuKnown(p: Params)
    ensures KnownNode(Cpu(p))
  {
    hide Lit, Cell, Cells, NumName, Intc;
    IntcKnown();
  }

  lemma CpusKnown(p: Params)
    ensures KnownNode(Cpus(p))
  {
    hide Lit, Cell, Cells, NumName, Cpu;
    CpuKnown(p);
  }

  lemma SocKnown(p: Params)
    ensures KnownNode(Soc(p))
  {
    hide Lit, Cell, Cells, NumName, Clint, PlicNode, Serial, Virtio, Syscon;
    ClintKnown();
    PlicKnown();
    SerialKnown();
    VirtioKnown(VIRTIO_BASE, VIRTIO_IRQ);
    VirtioKnown(VIRTIO_NET_BASE, VIRTIO_NET_IRQ);
    SysconKnown();
  }

  lemma MachineKnown(p: Params)
    ensures KnownNode(MachineTree(p))
  {
    hide Lit, Cell, Cells, NumName, Cpus, Memory, Soc, Power, Chosen;
    CpusKnown(p);
    MemoryKnown(p);
    SocKnown(p);
    PowerKnown("poweroff", "syscon-poweroff", 0x5555);
    PowerKnown("reboot", "syscon-reboot", 0x7777);
    ChosenKnown(p);
  }

  lemma {:induction false} SizeJoin(a: seq<Token>, b: seq<Token>)
    ensures Size(a + b) == Size(a) + Size(b)
    decreases |b|
  {
    if b == [] {
      assert a + b == a;
    } else {
      var n := |b| - 1;
      SizeJoin(a, b[..n]);
      assert (a + b)[..|a + b| - 1] == a + b[..n];
    }
  }

  lemma {:induction false} PropsSize(props: seq<Prop>)
    ensures Size(PropTokens(props)) >= 12 * |props|
    decreases |props|
  {
    if props != [] {
      var n := |props| - 1;
      PropsSize(props[..n]);
      assert PropTokens(props)[..n] == PropTokens(props[..n]);
    } else {
      assert PropTokens(props) == [];
    }
  }

  /** Two cells for the root's name, its four properties, and the two last tokens are 64 bytes already. */
  lemma RootSize(n: Node)
    requires |n.props| >= 4
    ensures BlobSize(n) >= STRUCT_OFF + 64
  {
    hide Size, TokenSize, PropTokens, FlattenAll, Block, Interned;
    var a, b, c := [Begin(n.name)], PropTokens(n.props), FlattenAll(n.kids);
    PropsSize(n.props);
    SizeJoin(a, b);
    SizeJoin(a + b, c);
    SizeJoin(a + b + c, [End]);
    SizeJoin(a + b + c + [End], [Finish]);
    OneSize(Begin(n.name));
    OneSize(End);
    OneSize(Finish);
  }

  lemma OneSize(t: Token)
    ensures Size([t]) >= 4 && (t.Begin? ==> Size([t]) >= 8)
  {
    assert [t][..0] == [];
    assert Size([]) == 0;
  }

  /** For every machine the strings fit their block, so the blob fits a buffer exactly when it is no longer. */
  lemma MachineFits(p: Params, size: nat)
    ensures size >= STRUCT_OFF + 64 && Fits(MachineTree(p), size) <==> BlobSize(MachineTree(p)) <= size
  {
    hide Size, Block, PropNames, KnownNode, Cpus, Memory, Soc, Power, Chosen, Flatten;
    var n := MachineTree(p);
    var ts := Flatten(n) + [Finish];
    RootSize(n);
    MachineKnown(p);
    KnownFlat(n);
    InternedKnown(ts);
    AmongFits(Interned(ts), PropNames());
    NamesSize();
  }
}
