/** What a guest reads off the machine's tree: addresses, interrupts and where the boot arguments are. */
module FdtGuest {
  import opened Basics
  import opened FdtFormat
  import opened FdtWriter
  import opened FdtTree

  /** The number after the at sign of a node's name. */
  function UnitOf(name: seq<Byte>): Option<nat> {
    if name == [] then None else if name[0] == 64 then Some(HexValue(name[1..])) else UnitOf(name[1..])
  }

  /** The node has exactly one property of that name, with that value. */
  predicate Has(n: Node, name: string, value: seq<Byte>) {
    exists i :: 0 <= i < |n.props| && n.props[i] == Prop(Lit(name), value)
                && forall j :: 0 <= j < |n.props| && n.props[j].name == Lit(name) ==> j == i
  }

  predicate HasNo(n: Node, name: string) {
    forall i :: 0 <= i < |n.props| ==> n.props[i].name != Lit(name)
  }

  predicate IsPhandle(n: Node, v: nat) {
    exists i :: 0 <= i < |n.props| && n.props[i].name == Lit("phandle")
                && |n.props[i].value| == 4 && Be32(n.props[i].value, 0) == v
  }

  /** How many nodes of the tree have that phandle. */
  function Count(n: Node, v: nat): nat
    decreases n, 0
  {
    (if IsPhandle(n, v) then 1 else 0) + CountAll(n.kids, v)
  }

  function CountAll(kids: seq<Node>, v: nat): nat
    decreases kids, 1
  {
    if kids == [] then 0 else Count(kids[0], v) + CountAll(kids[1..], v)
  }

  /** The number names one node of the tree. */
  predicate Resolves(root: Node, v: nat) {
    Count(root, v) == 1
  }

  /** Whom a property points at there is, once, and a device's address is the one in its node's name. */
  predicate GoodProp(root: Node, n: Node, p: Prop) {
    && (p.name == Lit("interrupt-parent") || p.name == Lit("regmap") ==>
          |p.value| == 4 && Resolves(root, Be32(p.value, 0)))
    && (p.name == Lit("interrupts-extended") ==>
          |p.value| % 8 == 0 && forall k :: 0 <= k < |p.value| / 8 ==> Resolves(root, Be32(p.value, 8 * k)))
    && (p.name == Lit("reg") ==>
          if |p.value| == 4 then UnitOf(n.name) == Some(Be32(p.value, 0))
          else
            && |p.value| == 16 && Be32(p.value, 0) == 0 && Be32(p.value, 8) == 0
            && UnitOf(n.name) == Some(Be32(p.value, 4)))
  }

  ghost predicate GoodNode(root: Node, n: Node)
    decreases n
  {
    && (forall i :: 0 <= i < |n.props| ==> GoodProp(root, n, n.props[i]))
    && forall i :: 0 <= i < |n.kids| ==> GoodNode(root, n.kids[i])
  }

  /* ---- names and cells ---- */

  lemma {:induction false} UnitIs(name: Name, addr: nat)
    requires |name| <= 28 && forall k :: 0 <= k < |name| ==> name[k] != 64
    ensures UnitOf(NumName(name, addr)) == Some(addr)
  {
    hide Hex, HexValue;
    HexBack(addr);
    UnitAfter(name, Hex(addr));
  }

  lemma {:induction false} UnitAfter(name: Name, digits: seq<Byte>)
    requires forall k :: 0 <= k < |name| ==> name[k] != 64
    ensures UnitOf(name + [64] + digits) == Some(HexValue(digits))
  {
    hide HexValue;
    var s := name + [64] + digits;
    if name == [] {
      assert s[1..] == digits;
    } else {
      assert s[1..] == name[1..] + [64] + digits;
      UnitAfter(name[1..], digits);
    }
  }

  lemma CellIs(v: nat)
    requires v < 0x1_0000_0000
    ensures Be32(Cell(v), 0) == v
  {
    hide Be32, Cell;
    assert Cell(v)[0..4] == Cell(v);
    CellBack(v, Cell(v), 0);
  }

  lemma {:induction false} CellsAre(cells: seq<nat>, k: nat)
    requires k < |cells| && cells[k] < 0x1_0000_0000
    ensures Be32(Cells(cells), 4 * k) == cells[k]
    decreases |cells|
  {
    hide Be32, Cell;
    var n := |cells| - 1;
    var before := Cells(cells[..n]);
    if k == n {
      assert Cells(cells)[4 * k..4 * k + 4] == Cell(cells[n]);
      CellBack(cells[n], Cells(cells), 4 * k);
    } else {
      CellsAre(cells[..n], k);
      Be32Extends(before, Cell(cells[n]), 4 * k);
    }
  }

  /** An address and a size, and the address in the name. */
  lemma RegIs(root: Node, n: Node, name: Name, addr: nat, size: nat)
    requires addr < 0x1_0000_0000 && n.name == NumName(name, addr)
    requires |name| <= 28 && forall k :: 0 <= k < |name| ==> name[k] != 64
    ensures GoodProp(root, n, Reg(addr, size))
  {
    hide Be32, Cells, Lit, UnitOf, NumName, Count;
    UnitIs(name, addr);
    CellsAre([0, addr, 0, size], 0);
    CellsAre([0, addr, 0, size], 1);
    CellsAre([0, addr, 0, size], 2);
  }

  /* ---- phandles ---- */

  lemma NumPhandle(n: Node, v: nat, i: nat)
    requires v < 0x1_0000_0000 && i < |n.props| && n.props[i] == Num("phandle", v)
    requires forall j :: 0 <= j < |n.props| && j != i ==> n.props[j].name != Lit("phandle")
    ensures forall w: nat :: IsPhandle(n, w) <==> w == v
  {
    hide Be32, Cell, Lit;
    CellIs(v);
  }

  lemma {:induction false} CountJoin(a: seq<Node>, b: seq<Node>, v: nat)
    ensures CountAll(a + b, v) == CountAll(a, v) + CountAll(b, v)
    decreases |a|
  {
    hide Count;
    if a == [] {
      assert a + b == b;
    } else {
      assert (a + b)[1..] == a[1..] + b;
      CountJoin(a[1..], b, v);
    }
  }

  lemma CountOne(n: Node, v: nat)
    ensures CountAll([n], v) == Count(n, v)
  {
    hide Count;
    assert [n][1..] == [];
  }

  lemma CountThree(a: Node, b: Node, c: Node, v: nat)
    ensures CountAll([a, b, c], v) == Count(a, v) + Count(b, v) + Count(c, v)
  {
    hide Count;
    assert [a, b, c] == [a] + [b] + [c];
    CountJoin([a] + [b], [c], v);
    CountJoin([a], [b], v);
    CountOne(a, v);
    CountOne(b, v);
    CountOne(c, v);
  }

  lemma DeviceCounts(p: Params, v: nat)
    ensures Count(Intc(), v) == (if v == 1 then 1 else 0) && Count(PlicNode(), v) == (if v == 2 then 1 else 0)
    ensures Count(Syscon(), v) == if v == 3 then 1 else 0
    ensures Count(Clint(), v) == 0 && Count(Serial(), v) == 0 && Count(Memory(p), v) == 0 && Count(Chosen(p), v) == 0
  {
    hide Lit, Cell, Cells, NumName, IsPhandle, Clint, Serial, Memory, Chosen, Count;
    NumPhandle(Intc(), 1, 3);
    LeafCount(Intc(), v);
    NumPhandle(PlicNode(), 2, 6);
    LeafCount(PlicNode(), v);
    NumPhandle(Syscon(), 3, 2);
    LeafCount(Syscon(), v);
    NoPhandles(p, v);
  }

  lemma LeafCount(n: Node, v: nat)
    requires n.kids == []
    ensures Count(n, v) == if IsPhandle(n, v) then 1 else 0
  {
  }

  lemma NoPhandles(p: Params, v: nat)
    ensures Count(Clint(), v) == 0 && Count(Serial(), v) == 0 && Count(Memory(p), v) == 0 && Count(Chosen(p), v) == 0
  {
    hide Lit, Cell, Cells, NumName, Be32;
  }

  lemma OtherCounts(p: Params, base: nat, irq: nat, name: string, compatible: string, value: nat, v: nat)
    ensures Count(Virtio(base, irq), v) == 0 && Count(Power(name, compatible, value), v) == 0
  {
    hide Lit, Cell, Cells, NumName, Be32;
  }

  lemma CpuCount(p: Params, v: nat)
    ensures Count(Cpus(p), v) == if v == 1 then 1 else 0
  {
    hide Lit, Cell, Cells, NumName, Be32, Intc, Count;
    DeviceCounts(p, v);
    CountOne(Intc(), v);
    CountOne(Cpu(p), v);
    CountIs(Cpu(p), v);
    CountIs(Cpus(p), v);
  }

  lemma CountIs(n: Node, v: nat)
    ensures Count(n, v) == (if IsPhandle(n, v) then 1 else 0) + CountAll(n.kids, v)
  {
  }

  lemma SocCount(p: Params, v: nat)
    ensures Count(Soc(p), v) == if v == 2 || v == 3 then 1 else 0
  {
    hide Lit, Cell, Cells, NumName, Be32, Clint, PlicNode, Serial, Virtio, Syscon, Count, CountAll;
    DeviceCounts(p, v);
    OtherCounts(p, VIRTIO_BASE, VIRTIO_IRQ, "", "", 0, v);
    OtherCounts(p, VIRTIO_NET_BASE, VIRTIO_NET_IRQ, "", "", 0, v);
    var blk := if p.hasBlk then [Virtio(VIRTIO_BASE, VIRTIO_IRQ)] else [];
    var net := if p.hasNet then [Virtio(VIRTIO_NET_BASE, VIRTIO_NET_IRQ)] else [];
    var a := [Clint(), PlicNode(), Serial()];
    CountThree(Clint(), PlicNode(), Serial(), v);
    CountOne(Virtio(VIRTIO_BASE, VIRTIO_IRQ), v);
    CountOne(Virtio(VIRTIO_NET_BASE, VIRTIO_NET_IRQ), v);
    CountOne(Syscon(), v);
    NoneCount(v);
    CountJoin(a, blk, v);
    CountJoin(a + blk, net, v);
    CountJoin(a + blk + net, [Syscon()], v);
    CountIs(Soc(p), v);
  }

  lemma NoneCount(v: nat)
    ensures CountAll([], v) == 0
  {
  }

  /** The phandles of the tree are 1, 2 and 3, each of one node. */
  lemma MachineCount(p: Params, v: nat)
    ensures Count(MachineTree(p), v) == if 1 <= v <= 3 then 1 else 0
  {
    hide Lit, Cell, Cells, NumName, Be32, Cpus, Memory, Soc, Power, Chosen, Count, CountAll;
    CpuCount(p, v);
    DeviceCounts(p, v);
    SocCount(p, v);
    var off, on := Power("poweroff", "syscon-poweroff", 0x5555), Power("reboot", "syscon-reboot", 0x7777);
    OtherCounts(p, 0, 0, "poweroff", "syscon-poweroff", 0x5555, v);
    OtherCounts(p, 0, 0, "reboot", "syscon-reboot", 0x7777, v);
    CountThree(Cpus(p), Memory(p), Soc(p), v);
    CountThree(off, on, Chosen(p), v);
    CountJoin([Cpus(p), Memory(p), Soc(p)], [off, on, Chosen(p)], v);
    assert MachineTree(p).kids == [Cpus(p), Memory(p), Soc(p)] + [off, on, Chosen(p)];
    CountIs(MachineTree(p), v);
  }

  /* ---- the nodes ---- */

  /** Names of the same length are other names. */
  lemma NamesDiffer()
    ensures Lit("#interrupt-cells") != Lit("interrupt-parent") && Lit("linux,initrd-end") != Lit("interrupt-parent")
    ensures Lit("offset") != Lit("regmap") && Lit("status") != Lit("regmap") && Lit("ranges") != Lit("regmap")
    ensures Lit("reboot") != Lit("chosen")
  {
    hide Lit;
    assert Lit("#interrupt-cells")[0] == 35 && Lit("linux,initrd-end")[0] == 108 && Lit("interrupt-parent")[0] == 105;
    assert Lit("offset")[0] == 111 && Lit("status")[0] == 115 && Lit("regmap")[0] == 114;
    assert Lit("ranges")[1] == 97 && Lit("regmap")[1] == 101;
    assert Lit("reboot")[0] == 114 && Lit("chosen")[0] == 99;
  }

  /** A property of another name says nothing of addresses or interrupts. */
  lemma OtherProp(root: Node, n: Node, p: Prop)
    requires p.name != Lit("interrupt-parent") && p.name != Lit("regmap") && p.name != Lit("interrupts-extended")
    requires p.name != Lit("reg")
    ensures GoodProp(root, n, p)
  {
    hide Lit, Resolves, UnitOf, Be32;
  }

  lemma PointsAt(root: Node, n: Node, name: string, v: nat)
    requires name == "interrupt-parent" || name == "regmap"
    requires v < 0x1_0000_0000 && Resolves(root, v)
    ensures GoodProp(root, n, Num(name, v))
  {
    hide Lit, Resolves, UnitOf, Be32, Cell;
    CellIs(v);
  }

  lemma InterruptsTo(root: Node, n: Node, cells: seq<nat>)
    requires |cells| % 2 == 0
    requires forall k :: 0 <= k < |cells| / 2 ==> cells[2 * k] < 0x1_0000_0000 && Resolves(root, cells[2 * k])
    ensures GoodProp(root, n, List("interrupts-extended", cells))
  {
    hide Lit, Resolves, UnitOf, Be32, Cells;
    forall k | 0 <= k < |Cells(cells)| / 8
      ensures Resolves(root, Be32(Cells(cells), 8 * k))
    {
      CellsAre(cells, 2 * k);
      assert 4 * (2 * k) == 8 * k;
    }
  }

  ghost predicate AllResolve(root: Node) {
    Resolves(root, 1) && Resolves(root, 2) && Resolves(root, 3)
  }

  lemma LeafGood(root: Node, n: Node)
    requires n.kids == [] && forall i :: 0 <= i < |n.props| ==> GoodProp(root, n, n.props[i])
    ensures GoodNode(root, n)
  {
  }

  lemma ClintGood(root: Node)
    requires AllResolve(root)
    ensures GoodNode(root, Clint())
  {
    hide Lit, Cell, Cells, NumName, Resolves, GoodProp, GoodNode;
    var n := Clint();
    OtherProp(root, n, n.props[0]);
    InterruptsTo(root, n, [INTC, 3, INTC, 7]);
    RegIs(root, n, Lit("clint"), CLINT_BASE, CLINT_SIZE);
    LeafGood(root, n);
  }

  lemma PlicGood(root: Node)
    requires AllResolve(root)
    ensures GoodNode(root, PlicNode())
  {
    hide Lit, Cell, Cells, NumName, Resolves, GoodProp, GoodNode;
    NamesDiffer();
    var n := PlicNode();
    OtherProp(root, n, n.props[0]);
    OtherProp(root, n, n.props[1]);
    OtherProp(root, n, n.props[2]);
    OtherProp(root, n, n.props[3]);
    RegIs(root, n, Lit("plic"), PLIC_BASE, PLIC_SIZE);
    InterruptsTo(root, n, [INTC, 9]);
    OtherProp(root, n, n.props[6]);
    LeafGood(root, n);
  }

  lemma SerialGood(root: Node)
    requires AllResolve(root)
    ensures GoodNode(root, Serial())
  {
    hide Lit, Cell, Cells, NumName, Resolves, GoodProp, GoodNode;
    var n := Serial();
    OtherProp(root, n, n.props[0]);
    RegIs(root, n, Lit("serial"), UART_BASE, UART_SIZE);
    OtherProp(root, n, n.props[2]);
    OtherProp(root, n, n.props[3]);
    OtherProp(root, n, n.props[4]);
    PointsAt(root, n, "interrupt-parent", PLIC);
    OtherProp(root, n, n.props[6]);
    LeafGood(root, n);
  }

  lemma VirtioGood(root: Node, base: nat, irq: nat)
    requires AllResolve(root) && base < 0x1_0000_0000
    ensures GoodNode(root, Virtio(base, irq))
  {
    hide Lit, Cell, Cells, NumName, Resolves, GoodProp, GoodNode;
    var n := Virtio(base, irq);
    OtherProp(root, n, n.props[0]);
    RegIs(root, n, Lit("virtio"), base, VIRTIO_SIZE);
    PointsAt(root, n, "interrupt-parent", PLIC);
    OtherProp(root, n, n.props[3]);
    LeafGood(root, n);
  }

  lemma SysconGood(root: Node)
    ensures GoodNode(root, Syscon())
  {
    hide Lit, Cell, Cells, NumName, Resolves, GoodProp, GoodNode;
    var n := Syscon();
    OtherProp(root, n, n.props[0]);
    RegIs(root, n, Lit("syscon"), SYSCON_BASE, SYSCON_SIZE);
    OtherProp(root, n, n.props[2]);
    LeafGood(root, n);
  }

  lemma PowerGood(root: Node, name: string, compatible: string, value: nat)
    requires AllResolve(root)
    ensures GoodNode(root, Power(name, compatible, value))
  {
    hide Lit, Cell, Cells, NumName, Resolves, GoodProp, GoodNode;
    NamesDiffer();
    var n := Power(name, compatible, value);
    OtherProp(root, n, n.props[0]);
    PointsAt(root, n, "regmap", SYSCON);
    OtherProp(root, n, n.props[2]);
    OtherProp(root, n, n.props[3]);
    LeafGood(root, n);
  }

  lemma MemoryGood(root: Node, p: Params)
    requires p.ramBase < 0x1_0000_0000
    ensures GoodNode(root, Memory(p))
  {
    hide Lit, Cell, Cells, NumName, Resolves, GoodProp, GoodNode;
    var n := Memory(p);
    OtherProp(root, n, n.props[0]);
    RegIs(root, n, Lit("memory"), p.ramBase, p.ramSize);
    LeafGood(root, n);
  }

  lemma ChosenGood(root: Node, p: Params)
    ensures GoodNode(root, Chosen(p))
  {
    hide Lit, Cell, Cells, NumName, Resolves, GoodProp, GoodNode;
    NamesDiffer();
    var n := Chosen(p);
    forall i | 0 <= i < |n.props|
      ensures GoodProp(root, n, n.props[i])
    {
      OtherProp(root, n, n.props[i]);
    }
    LeafGood(root, n);
  }

  lemma IntcGood(root: Node)
    ensures GoodNode(root, Intc())
  {
    hide Lit, Cell, Cells, NumName, Resolves, GoodProp, GoodNode;
    NamesDiffer();
    var n := Intc();
    forall i | 0 <= i < |n.props|
      ensures GoodProp(root, n, n.props[i])
    {
      OtherProp(root, n, n.props[i]);
    }
    LeafGood(root, n);
  }

  lemma CpusGood(root: Node, p: Params)
    ensures GoodNode(root, Cpus(p))
  {
    hide Lit, Cell, Cells, NumName, Resolves, GoodProp, Intc;
    IntcGood(root);
    CpuPropsGood(root, p);
    var n := Cpus(p);
    forall i | 0 <= i < |n.props|
      ensures GoodProp(root, n, n.props[i])
    {
      OtherProp(root, n, n.props[i]);
    }
  }

  lemma CpuPropsGood(root: Node, p: Params)
    ensures forall i :: 0 <= i < |CpuProps(p)| ==> GoodProp(root, Cpu(p), CpuProps(p)[i])
  {
    hide Lit, Cell, Cells, NumName, Resolves, GoodProp, Intc;
    NamesDiffer();
    forall i | 0 <= i < |CpuProps(p)|
      ensures GoodProp(root, Cpu(p), CpuProps(p)[i])
    {
      if i == 1 {
        CpuReg(root, p);
      } else {
        OtherProp(root, Cpu(p), CpuProps(p)[i]);
      }
    }
  }

  lemma CpuReg(root: Node, p: Params)
    ensures GoodProp(root, Cpu(p), Num("reg", 0))
  {
    hide Lit, Cell, Cells, NumName, Resolves, UnitOf, Be32, Intc;
    CellIs(0);
    UnitIs(Lit("cpu"), 0);
  }

  lemma SocGood(root: Node, p: Params)
    requires AllResolve(root)
    ensures GoodNode(root, Soc(p))
  {
    hide Lit, Cell, Cells, NumName, AllResolve, GoodProp, Clint, PlicNode, Serial, Virtio, Syscon;
    ClintGood(root);
    PlicGood(root);
    SerialGood(root);
    VirtioGood(root, VIRTIO_BASE, VIRTIO_IRQ);
    VirtioGood(root, VIRTIO_NET_BASE, VIRTIO_NET_IRQ);
    SysconGood(root);
    NamesDiffer();
    var n := Soc(p);
    forall i | 0 <= i < |n.props|
      ensures GoodProp(root, n, n.props[i])
    {
      OtherProp(root, n, n.props[i]);
    }
  }

  /**
   In the whole tree, for every parameter record: a device's address is the one in its node's name, and an interrupt
   parent, a register map and every interrupt controller that interrupts go to is the phandle of one node.
   */
  lemma MachineIsGood(p: Params)
    requires p.ramBase < 0x1_0000_0000
    ensures GoodNode(MachineTree(p), MachineTree(p))
  {
    hide Lit, Cell, Cells, NumName, AllResolve, GoodProp, Cpus, Memory, Soc, Power, Chosen;
    var root := MachineTree(p);
    MachineResolves(p);
    CpusGood(root, p);
    MemoryGood(root, p);
    SocGood(root, p);
    PowerGood(root, "poweroff", "syscon-poweroff", 0x5555);
    PowerGood(root, "reboot", "syscon-reboot", 0x7777);
    ChosenGood(root, p);
    forall i | 0 <= i < |root.props|
      ensures GoodProp(root, root, root.props[i])
    {
      OtherProp(root, root, root.props[i]);
    }
  }

  lemma MachineResolves(p: Params)
    ensures AllResolve(MachineTree(p))
  {
    hide MachineTree, Count;
    MachineCount(p, 1);
    MachineCount(p, 2);
    MachineCount(p, 3);
  }

  /* ---- what the kernel looks up ---- */

  lemma ChosenHas(p: Params)
    ensures if p.initrdEnd > p.initrdStart then
              && Has(Chosen(p), "linux,initrd-start", Cell(p.initrdStart))
              && Has(Chosen(p), "linux,initrd-end", Cell(p.initrdEnd))
            else HasNo(Chosen(p), "linux,initrd-start") && HasNo(Chosen(p), "linux,initrd-end")
    ensures Has(Chosen(p), "bootargs", (if p.cmdline.Some? then p.cmdline.value else []) + [0])
    ensures Has(Chosen(p), "stdout-path", Lit("/soc/serial@10000000") + [0])
  {
    hide Lit, Cell, NumName;
    var n := Chosen(p);
    assert n.props[0] == Str("bootargs", if p.cmdline.Some? then p.cmdline.value else []);
    assert n.props[1] == Str("stdout-path", Lit("/soc/serial@10000000"));
    if p.initrdEnd > p.initrdStart {
      assert n.props[2] == Num("linux,initrd-start", p.initrdStart) && n.props[3] == Num("linux,initrd-end", p.initrdEnd);
    }
  }

  lemma MemoryHas(p: Params)
    ensures Has(Memory(p), "reg", Cells([0, p.ramBase, 0, p.ramSize]))
    ensures Has(Memory(p), "device_type", Lit("memory") + [0])
  {
    hide Lit, Cells, NumName;
    assert Memory(p).props[0] == Str("device_type", Lit("memory")) && Memory(p).props[1] == Reg(p.ramBase, p.ramSize);
  }

  lemma CpusHas(p: Params)
    ensures Has(Cpus(p), "timebase-frequency", Cell(p.timebaseHz))
  {
    hide Lit, Cell, NumName, Cpu;
    assert Cpus(p).props[2] == Num("timebase-frequency", p.timebaseHz);
  }

  lemma KidNames(p: Params, kid: Node)
    requires kid in MachineTree(p).kids
    ensures kid.name == Lit("chosen") ==> kid == Chosen(p)
    ensures kid.name == NumName(Lit("memory"), p.ramBase) ==> kid == Memory(p)
    ensures kid.name == Lit("cpus") ==> kid == Cpus(p)
  {
    hide Lit, Hex, Cell, Cells, CpuProps, SocKids, Cpu;
    NamesDiffer();
    HexSome(p.ramBase);
    var m := NumName(Lit("memory"), p.ramBase);
    assert m[0] == 109 && |m| >= 8;
    assert Lit("poweroff")[0] == 112 && Lit("poweroff") != m;
  }

  lemma HexSome(v: nat)
    ensures |Hex(v)| >= 1
  {
  }

  /**
   The kernel finds its initial ramdisk, if there is one, its command line, its console, its memory and its clock where
   the parameter record says they are.
   */
  lemma KernelFinds(p: Params, chosen: Node, memory: Node, cpus: Node)
    requires chosen in MachineTree(p).kids && chosen.name == Lit("chosen")
    requires memory in MachineTree(p).kids && memory.name == NumName(Lit("memory"), p.ramBase)
    requires cpus in MachineTree(p).kids && cpus.name == Lit("cpus")
    ensures if p.initrdEnd > p.initrdStart then
              && Has(chosen, "linux,initrd-start", Cell(p.initrdStart))
              && Has(chosen, "linux,initrd-end", Cell(p.initrdEnd))
            else HasNo(chosen, "linux,initrd-start") && HasNo(chosen, "linux,initrd-end")
    ensures Has(chosen, "bootargs", (if p.cmdline.Some? then p.cmdline.value else []) + [0])
    ensures Has(chosen, "stdout-path", Lit("/soc/serial@10000000") + [0])
    ensures Has(memory, "reg", Cells([0, p.ramBase, 0, p.ramSize])) && Has(memory, "device_type", Lit("memory") + [0])
    ensures Has(cpus, "timebase-frequency", Cell(p.timebaseHz))
  {
    hide Has, HasNo, Lit, Cell, Cells, NumName, MachineTree, Chosen, Memory, Cpus;
    KidNames(p, chosen);
    KidNames(p, memory);
    KidNames(p, cpus);
    ChosenHas(p);
    MemoryHas(p);
    CpusHas(p);
  }

  /** They are there to be found. */
  lemma KidsThere(p: Params)
    ensures exists n :: n in MachineTree(p).kids && n.name == Lit("chosen")
    ensures exists n :: n in MachineTree(p).kids && n.name == NumName(Lit("memory"), p.ramBase)
    ensures exists n :: n in MachineTree(p).kids && n.name == Lit("cpus")
  {
    hide Lit, Cell, Cells, NumName, Soc, Power, CpuProps, Cpu;
    var kids := MachineTree(p).kids;
    assert kids[0] == Cpus(p) && kids[1] == Memory(p) && kids[5] == Chosen(p);
  }

  /* ---- the blob's numbers ---- */

  lemma LastDigit(high: nat, low: Byte, high': nat, low': Byte)
    requires high * 256 + low as int == high' * 256 + low' as int
    ensures high == high' && low == low'
  {
  }

  lemma BytesOfBe32(b: seq<Byte>, o: nat, b0: Byte, b1: Byte, b2: Byte, b3: Byte)
    requires o + 4 <= |b| && Be32(b, o) == ((b0 as int * 256 + b1 as int) * 256 + b2 as int) * 256 + b3 as int
    ensures b[o..o + 4] == [b0, b1, b2, b3]
  {
    var x: nat, y: nat := b[o] as int * 256 + b[o + 1] as int, b0 as int * 256 + b1 as int;
    LastDigit(x * 256 + b[o + 2] as int, b[o + 3], y * 256 + b2 as int, b3);
    LastDigit(x, b[o + 2], y, b2);
    LastDigit(b[o], b[o + 1], b0, b1);
  }

  /** A blob that is accepted starts with d00dfeed, is of version 17, compatible with 16, and says its own length. */
  lemma HeaderBytes(b: seq<Byte>)
    requires ParseBlob(b).Some?
    ensures |b| >= 40 && b[0..4] == [0xd0, 0x0d, 0xfe, 0xed] && Be32(b, 4) == |b|
    ensures b[20..24] == [0, 0, 0, 17] && b[24..28] == [0, 0, 0, 16]
  {
    hide ParseTokens, Zeros, ParseNode, Be32;
    BytesAt(b);
  }

  lemma BytesAt(b: seq<Byte>)
    requires |b| >= 40 && Be32(b, 0) == 0xd00d_feed && Be32(b, 20) == 17 && Be32(b, 24) == 16
    ensures b[0..4] == [0xd0, 0x0d, 0xfe, 0xed] && b[20..24] == [0, 0, 0, 17] && b[24..28] == [0, 0, 0, 16]
  {
    hide Be32;
    BytesOfBe32(b, 0, 0xd0, 0x0d, 0xfe, 0xed);
    BytesOfBe32(b, 20, 0, 0, 0, 17);
    BytesOfBe32(b, 24, 0, 0, 0, 16);
  }

  /** The tokens are 1 to begin a node, 2 to end it, 3 for a property, of length and name offset, and 9 at the end. */
  lemma TokenCodes(name: Name, p: Prop, off: nat)
    ensures Encode(Begin(name), 0)[0..4] == [0, 0, 0, 1] && Encode(End, 0) == [0, 0, 0, 2]
    ensures Encode(Property(p), off)[0..4] == [0, 0, 0, 3] && Encode(Property(p), off)[4..8] == Cell(|p.value|)
    ensures Encode(Property(p), off)[8..12] == Cell(off) && Encode(Finish, 0) == [0, 0, 0, 9]
  {
    hide Padded;
  }
}
