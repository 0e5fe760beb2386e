/** The devicetree writer: a cursor into the caller's buffer, an interned strings block, and a sticky overflow flag. */
module FdtWriter {
  import opened Basics
  import opened FdtFormat

  const STRINGS_MAX := 512

  /* ---- the strings block ---- */

  function Block(names: seq<Name>): seq<Byte> {
    if names == [] then [] else Block(names[..|names| - 1]) + names[|names| - 1] + [0]
  }

  function Offset(names: seq<Name>, k: nat): nat
    requires k <= |names|
  {
    |Block(names[..k])|
  }

  lemma BlockMore(names: seq<Name>, name: Name)
    ensures Block(names + [name]) == Block(names) + name + [0]
  {
    assert (names + [name])[..|names|] == names;
  }

  lemma {:induction false} BlockPrefix(names: seq<Name>, k: nat)
    requires k <= |names|
    ensures Block(names[..k]) <= Block(names)
    decreases |names|
  {
    if k < |names| {
      var n := |names| - 1;
      assert names[..n][..k] == names[..k];
      BlockPrefix(names[..n], k);
    } else {
      assert names[..k] == names;
    }
  }

  /** The k-th name is found at its offset, and the next one right after it. */
  lemma NameAt(names: seq<Name>, k: nat)
    requires k < |names|
    ensures CStr(Block(names), Offset(names, k)) == Some(names[k])
    ensures Offset(names, k + 1) == Offset(names, k) + |names[k]| + 1 <= |Block(names)|
  {
    var some := names[..k + 1];
    assert some[..k] == names[..k];
    var o := Offset(names, k);
    assert Block(some) == Block(names[..k]) + names[k] + [0];
    CStrIs(Block(some), o, names[k]);
    BlockPrefix(names, k + 1);
    assert Block(names) == Block(some) + Block(names)[|Block(some)|..];
    CStrExtends(Block(some), Block(names)[|Block(some)|..], o);
  }

  /** No name is in the block twice. */
  predicate Distinct(names: seq<Name>) {
    forall i, j :: 0 <= i < j < |names| ==> names[i] != names[j]
  }

  /** The property names of a token stream, each where it first occurs. */
  function Interned(tokens: seq<Token>): (r: seq<Name>)
    ensures Distinct(r)
  {
    if tokens == [] then []
    else
      var before, t := Interned(tokens[..|tokens| - 1]), tokens[|tokens| - 1];
      if t.Property? && t.prop.name !in before then before + [t.prop.name] else before
  }

  function Size(tokens: seq<Token>): (r: nat)
    ensures r % 4 == 0
  {
    if tokens == [] then 0
    else
      var before, last := Size(tokens[..|tokens| - 1]), TokenSize(tokens[|tokens| - 1]);
      CellsTogether(before, last);
      before + last
  }

  lemma CellsTogether(a: nat, b: nat)
    requires a % 4 == 0 && b % 4 == 0
    ensures (a + b) % 4 == 0
  {
  }

  /** Neither block fits: `room` for the structure block. */
  predicate TooBig(tokens: seq<Token>, room: nat) {
    Size(tokens) > room || |Block(Interned(tokens))| > STRINGS_MAX
  }

  lemma OneTokenMore(tokens: seq<Token>, t: Token, room: nat)
    ensures Size(tokens + [t]) == Size(tokens) + TokenSize(t)
    ensures Interned(tokens + [t]) ==
            if t.Property? && t.prop.name !in Interned(tokens) then Interned(tokens) + [t.prop.name] else Interned(tokens)
    ensures TooBig(tokens, room) ==> TooBig(tokens + [t], room)
  {
    assert (tokens + [t])[..|tokens|] == tokens;
    if t.Property? {
      BlockMore(Interned(tokens), t.prop.name);
    }
  }

  /* ---- what the writer wrote ---- */

  /** One write: it goes in whole at the end, or overflow is set. */
  predicate Emitted(w: seq<Byte>, o: bool, w': seq<Byte>, o': bool, enc: seq<Byte>, room: nat) {
    o' == (o || |w| + |enc| > room) && (!o' ==> w' == w + enc)
  }

  /** One write into a buffer b at pos: the whole of it, and nothing else changed, or no byte at all and overflow. */
  predicate Wrote(b: seq<Byte>, pos: nat, o: bool, b': seq<Byte>, pos': nat, o': bool, enc: seq<Byte>)
    requires pos <= |b|
  {
    if pos + |enc| <= |b| then b' == b[..pos] + enc + b[pos + |enc|..] && pos' == pos + |enc| && o' == o
    else b' == b && pos' == pos && o'
  }

  lemma WroteEmitted(b: seq<Byte>, pos: nat, b': seq<Byte>, enc: seq<Byte>)
    requires STRUCT_OFF <= pos && pos + |enc| <= |b| && b' == b[..pos] + enc + b[pos + |enc|..]
    ensures b'[STRUCT_OFF..pos + |enc|] == b[STRUCT_OFF..pos] + enc
  {
  }

  lemma EmittedBoth(w: seq<Byte>, o: bool, w1: seq<Byte>, o1: bool, w2: seq<Byte>, o2: bool,
                    a: seq<Byte>, b: seq<Byte>, room: nat)
    requires Emitted(w, o, w1, o1, a, room) && Emitted(w1, o1, w2, o2, b, room)
    ensures Emitted(w, o, w2, o2, a + b, room)
  {
    assert w + a + b == w + (a + b);
  }

  /**
   Without overflow the structure block so far parses to the tokens written and the strings block holds their
   names; with overflow, the tokens written do not fit.
   */
  predicate Agrees(w: seq<Byte>, names: seq<Name>, overflow: bool, tokens: seq<Token>, room: nat) {
    && (!overflow ==> ParseTokens(w, Block(names)) == Some(tokens) && |w| == Size(tokens) && names == Interned(tokens))
    && (overflow ==> TooBig(tokens, room))
  }

  /** One token written, its name interned at some offset. */
  lemma AgreesOn(w: seq<Byte>, names: seq<Name>, o: bool, tokens: seq<Token>, room: nat, t: Token, enc: seq<Byte>,
                 w': seq<Byte>, names': seq<Name>, o': bool)
    requires Agrees(w, names, o, tokens, room) && names <= names' && (o ==> o')
    requires !o' ==> && w' == w + enc && ParseToken(enc, Block(names')) == Some((t, |enc|)) && |enc| == TokenSize(t)
                     && names' == Interned(tokens + [t])
    requires o' && !o ==> |w| + TokenSize(t) > room || |Block(Interned(tokens + [t]))| > STRINGS_MAX
    ensures Agrees(w', names', o', tokens + [t], room)
  {
    hide ParseTokens, ParseToken, TokenSize, Block;
    OneTokenMore(tokens, t, room);
    if !o' {
      BlockPrefix(names', |names|);
      assert names'[..|names|] == names;
      var more := Block(names')[|Block(names)|..];
      assert Block(names') == Block(names) + more;
      TokenAppended(w, Block(names), more, t, enc);
    }
  }

  /** Cells one after the other. */
  function Cells(cells: seq<nat>): (r: seq<Byte>)
    ensures |r| == 4 * |cells|
  {
    if cells == [] then [] else Cells(cells[..|cells| - 1]) + Cell(cells[|cells| - 1])
  }

  /* ---- node names ---- */

  const NAME_ROOM := 28
  const AT_SIGN: Byte := 64

  /** A hexadecimal digit, in lower case. */
  function Digit(d: nat): (r: Byte)
    requires d < 16
    ensures r != 0
  {
    if d < 10 then 48 + d else 87 + d
  }

  function DigitValue(b: Byte): nat {
    if b < 48 then 0 else if b < 58 then b as int - 48 else if b < 87 then 0 else b as int - 87
  }

  /** A number in hexadecimal without leading zeros. */
  function Hex(v: nat): (r: Name)
    ensures r != []
  {
    if v < 16 then [Digit(v)] else Hex(v / 16) + [Digit(v % 16)]
  }

  function HexValue(s: seq<Byte>): nat {
    if s == [] then 0 else HexValue(s[..|s| - 1]) * 16 + DigitValue(s[|s| - 1])
  }

  /** A unit address reads back as the number it was made from. */
  lemma {:induction false} HexBack(v: nat)
    ensures HexValue(Hex(v)) == v
  {
    if v < 16 {
      assert HexValue([]) == 0;
      assert [Digit(v)][..0] == [];
    } else {
      HexBack(v / 16);
      assert Hex(v)[..|Hex(v)| - 1] == Hex(v / 16);
    }
  }

  /** "name@addr", of a long name the first 28 bytes. */
  function NumName(name: Name, addr: nat): Name {
    (if |name| <= NAME_ROOM then name else name[..NAME_ROOM]) + [AT_SIGN] + Hex(addr)
  }

  /** addr >> 4 * k */
  function Up(addr: nat, k: nat): nat {
    if k == 0 then addr else Up(addr, k - 1) / 16
  }

  lemma NothingUp(addr: nat)
    requires addr < 0x1_0000_0000
    ensures Up(addr, 8) == 0
  {
    assert Up(addr, 1) < 0x1000_0000;
    assert Up(addr, 2) < 0x100_0000;
    assert Up(addr, 3) < 0x10_0000;
    assert Up(addr, 4) < 0x1_0000;
    assert Up(addr, 5) < 0x1000;
    assert Up(addr, 6) < 0x100;
    assert Up(addr, 7) < 0x10;
  }

  /** The naming loop of fdt_begin_node_num */
  method NodeName(name: Name, addr: nat) returns (text: Name)
    requires addr < 0x1_0000_0000
    ensures text == NumName(name, addr)
  {
    var n := 0;
    var out: Name := [];
    while n < |name| && n < NAME_ROOM
      invariant 0 <= n <= |name| && n <= NAME_ROOM && out == name[..n]
    {
      out := out + [name[n]];
      n := n + 1;
    }
    out := out + [AT_SIGN];
    ghost var head := out;
    var k, leading := 8, true;
    NothingUp(addr);
    while k > 0
      invariant 0 <= k <= 8 && (leading <==> Up(addr, k) == 0 && k > 0)
      invariant out == head + if leading then [] else Hex(Up(addr, k))
    {
      k := k - 1;
      var d := Nibble(addr, k);
      if d != 0 || !leading || k == 0 {
        leading := false;
        out := out + [Digit(d)];
      }
    }
    return out;
  }

  /** (addr >> shift) & 0xf */
  method Nibble(addr: nat, k: nat) returns (d: nat)
    ensures d == Up(addr, k) % 16 && Up(addr, k) == Up(addr, k + 1) * 16 + d
  {
    var i, v: nat := 0, addr;
    while i < k
      invariant 0 <= i <= k && v == Up(addr, i)
    {
      v := v / 16;
      i := i + 1;
    }
    d := v % 16;
  }

  lemma PaddedAt(data: seq<Byte>, i: nat)
    requires i < Pad(|data|)
    ensures Padded(data)[i] == if i < |data| then data[i] else 0
  {
  }

  class Writer {
    const buf: array<Byte>
    var pos: nat
    var strings: seq<Byte>
    var overflow: bool
    ghost var names: seq<Name>
    ghost var tokens: seq<Token>

    constructor (into: array<Byte>)
      requires STRUCT_OFF <= into.Length < 0x1_0000_0000
      ensures Sound() && buf == into && tokens == []
    {
      buf, pos, strings, overflow, names, tokens := into, STRUCT_OFF, [], false, [], [];
      new;
      assert Written() == [];
    }

    ghost predicate Valid()
      reads `pos, `strings, `names
    {
      && STRUCT_OFF <= pos <= buf.Length < 0x1_0000_0000
      && strings == Block(names) && Distinct(names) && |strings| <= STRINGS_MAX
    }

    /** The structure block so far. */
    ghost function Written(): seq<Byte>
      requires Valid()
      reads `pos, `strings, `names, buf
    {
      buf[STRUCT_OFF..pos]
    }

    ghost function Room(): nat
      requires Valid()
      reads `pos, `strings, `names
    {
      buf.Length - STRUCT_OFF
    }

    ghost predicate Sound()
      reads this, buf
    {
      Valid() && Agrees(Written(), names, overflow, tokens, Room())
    }

    /** fdt_u32 */
    method U32(v: nat)
      requires Valid()
      modifies `pos, `overflow, buf
      ensures Valid() && Wrote(old(buf[..]), old(pos), old(overflow), buf[..], pos, overflow, Cell(v))
      ensures Emitted(old(Written()), old(overflow), Written(), overflow, Cell(v), Room())
    {
      if pos + 4 > buf.Length {
        overflow := true;
        return;
      }
      ghost var b := buf[..];
      var c := Cell(v);
      buf[pos], buf[pos + 1], buf[pos + 2], buf[pos + 3] := c[0], c[1], c[2], c[3];
      assert buf[..] == b[..pos] + c + b[pos + 4..];
      pos := pos + 4;
      WroteEmitted(b, old(pos), buf[..], c);
    }

    /** The copy and the zeros after it */
    method PadInto(data: seq<Byte>, padded: nat)
      requires padded == Pad(|data|) && pos + padded <= buf.Length
      modifies buf
      ensures buf[..] == old(buf[..pos]) + Padded(data) + old(buf[pos + padded..])
    {
      hide Pad, Zeros;
      ghost var b, padding := buf[..], Padded(data);
      ghost var want := b[..pos] + padding + b[pos + padded..];
      for i := 0 to padded
        invariant forall x :: 0 <= x < pos + i ==> buf[x] == want[x]
        invariant forall x :: pos + i <= x < buf.Length ==> buf[x] == b[x]
      {
        PaddedAt(data, i);
        assert want[pos + i] == padding[i];
        buf[pos + i] := if i < |data| then data[i] else 0;
      }
      assert buf[..] == want;
    }

    /** fdt_data */
    method Data(data: seq<Byte>)
      requires Valid()
      modifies `pos, `overflow, buf
      ensures Valid() && Wrote(old(buf[..]), old(pos), old(overflow), buf[..], pos, overflow, Padded(data))
      ensures Emitted(old(Written()), old(overflow), Written(), overflow, Padded(data), Room())
    {
      hide Block, Distinct, Zeros;
      var padded := Pad(|data|);
      if pos + padded > buf.Length {
        overflow := true;
        return;
      }
      ghost var b := buf[..];
      PadInto(data, padded);
      pos := pos + padded;
      WroteEmitted(b, old(pos), buf[..], Padded(data));
    }

    /** fdt_str */
    method Str(name: Name) returns (off: nat)
      requires Valid()
      modifies `strings, `overflow, `names
      ensures Valid() && off <= STRINGS_MAX && old(names) <= names
      ensures var fits := name in old(names) || |Block(old(names) + [name])| <= STRINGS_MAX;
              && overflow == (old(overflow) || !fits)
              && names == (if name !in old(names) && fits then old(names) + [name] else old(names))
              && (fits ==> CStr(strings, off) == Some(name))
    {
      hide Block, CStr;
      var i: nat := 0;
      ghost var k := 0;
      NoNames(names);
      while i < |strings|
        invariant Valid() && unchanged(this)
        invariant 0 <= k <= |names| && i == Offset(names, k) <= |strings| && name !in names[..k]
      {
        AllNames(names, k);
        NameAt(names, k);
        var here := CStr(strings, i);
        if here.value == name {
          return i;
        }
        i := i + |here.value| + 1;
        k := k + 1;
      }
      NotAmong(names, k, name);
      BlockMore(names, name);
      if |strings| + |name| + 1 > STRINGS_MAX {
        overflow := true;
        return 0;
      }
      NameAt(names + [name], |names|);
      assert (names + [name])[..|names|] == names;
      off := |strings|;
      strings := strings + name + [0];
      names := names + [name];
    }

    /** fdt_begin_node */
    method BeginNode(name: Name)
      requires Sound()
      modifies this, buf
      ensures Sound() && tokens == old(tokens) + [Begin(name)]
    {
      hide Padded, Agrees, Block, Cell;
      ghost var w, o, t := Written(), overflow, Begin(name);
      U32(BEGIN_NODE);
      ghost var w1, o1 := Written(), overflow;
      Data(name + [0]);
      EmittedBoth(w, o, w1, o1, Written(), overflow, Cell(BEGIN_NODE), Padded(name + [0]), Room());
      MarkWritten(w, o, t);
      tokens := tokens + [t];
    }

    /** fdt_end_node */
    method EndNode()
      requires Sound()
      modifies this, buf
      ensures Sound() && tokens == old(tokens) + [End]
    {
      hide Agrees, Block, Cell;
      ghost var w, o := Written(), overflow;
      U32(END_NODE);
      MarkWritten(w, o, End);
      tokens := tokens + [End];
    }

    /** The last token of the structure block. */
    method FinishBlock()
      requires Sound()
      modifies this, buf
      ensures Sound() && tokens == old(tokens) + [Finish]
    {
      hide Agrees, Block, Cell;
      ghost var w, o := Written(), overflow;
      U32(END);
      MarkWritten(w, o, Finish);
      tokens := tokens + [Finish];
    }

    /** A token without a name in the strings block. */
    lemma MarkWritten(w: seq<Byte>, o: bool, t: Token)
      requires Valid() && !t.Property? && Agrees(w, names, o, tokens, Room())
      requires Emitted(w, o, Written(), overflow, Encode(t, 0), Room())
      ensures Agrees(Written(), names, overflow, tokens + [t], Room())
    {
      hide ParseToken, ParseTokens, Block, Encode;
      OneTokenMore(tokens, t, Room());
      if t.Begin? {
        BeginParses(t.name, Block(names));
      } else {
        MarkParses(t, Block(names));
      }
      AgreesOn(w, names, o, tokens, Room(), t, Encode(t, 0), Written(), names, overflow);
    }

    /** The part of a property before its value. */
    method PropHead(name: Name, len: nat) returns (off: nat)
      requires Valid()
      modifies `pos, `strings, `overflow, `names, buf
      ensures Valid() && off <= STRINGS_MAX && old(names) <= names
      ensures var fits := name in old(names) || |Block(old(names) + [name])| <= STRINGS_MAX;
              && Emitted(old(Written()), old(overflow) || !fits, Written(), overflow,
                         Cell(PROP) + Cell(len) + Cell(off), Room())
              && names == (if name !in old(names) && fits then old(names) + [name] else old(names))
              && (fits ==> CStr(strings, off) == Some(name))
    {
      hide Block, Cell, CStr;
      ghost var w, o := Written(), overflow;
      U32(PROP);
      ghost var w1, o1 := Written(), overflow;
      U32(len);
      EmittedBoth(w, o, w1, o1, Written(), overflow, Cell(PROP), Cell(len), Room());
      ghost var w2, o2 := Written(), overflow;
      off := Str(name);
      ghost var o3 := overflow;
      U32(off);
      ghost var fits := name in old(names) || |Block(old(names) + [name])| <= STRINGS_MAX;
      assert Emitted(w, o || !fits, w2, o3, Cell(PROP) + Cell(len), Room());
      EmittedBoth(w, o || !fits, w2, o3, Written(), overflow, Cell(PROP) + Cell(len), Cell(off), Room());
    }

    /** fdt_prop */
    method Property(name: Name, data: seq<Byte>)
      requires Sound()
      modifies this, buf
      ensures Sound() && tokens == old(tokens) + [Token.Property(Prop(name, data))]
    {
      hide Padded, Agrees, Block, Cell, Distinct;
      ghost var w, o, before := Written(), overflow, names;
      var off := PropHead(name, |data|);
      ghost var w1, o1 := Written(), overflow;
      Data(data);
      ghost var fits := name in before || |Block(before + [name])| <= STRINGS_MAX;
      EmittedBoth(w, o || !fits, w1, o1, Written(), overflow, Cell(PROP) + Cell(|data|) + Cell(off), Padded(data), Room());
      PropWritten(w, o, before, Prop(name, data), off, fits);
      tokens := tokens + [Token.Property(Prop(name, data))];
    }

    /** A property written, its name interned. */
    lemma PropWritten(w: seq<Byte>, o: bool, before: seq<Name>, p: Prop, off: nat, fits: bool)
      requires Valid() && Agrees(w, before, o, tokens, Room()) && before <= names && off <= STRINGS_MAX
      requires fits == (p.name in before || |Block(before + [p.name])| <= STRINGS_MAX)
      requires names == if p.name !in before && fits then before + [p.name] else before
      requires fits ==> CStr(strings, off) == Some(p.name)
      requires Emitted(w, o || !fits, Written(), overflow, Encode(Token.Property(p), off), Room())
      ensures Agrees(Written(), names, overflow, tokens + [Token.Property(p)], Room())
    {
      hide ParseToken, ParseTokens, Block, Encode, CStr;
      var t := Token.Property(p);
      OneTokenMore(tokens, t, Room());
      if !overflow {
        Longer(w, Encode(t, off), p, off);
        PropertyParses(p, off, Block(names));
      }
      AgreesOn(w, before, o, tokens, Room(), t, Encode(t, off), Written(), names, overflow);
    }

    /** fdt_prop_empty */
    method PropEmpty(name: Name)
      requires Sound()
      modifies this, buf
      ensures Sound() && tokens == old(tokens) + [Token.Property(Prop(name, []))]
    {
      Property(name, []);
    }

    /** fdt_prop_str */
    method PropStr(name: Name, val: Name)
      requires Sound()
      modifies this, buf
      ensures Sound() && tokens == old(tokens) + [Token.Property(Prop(name, val + [0]))]
    {
      Property(name, val + [0]);
    }

    /** fdt_prop_u32 */
    method PropU32(name: Name, val: nat)
      requires Sound()
      modifies this, buf
      ensures Sound() && tokens == old(tokens) + [Token.Property(Prop(name, Cell(val)))]
    {
      Property(name, Cell(val));
    }

    /** fdt_begin_node_num */
    method BeginNodeNum(name: Name, addr: nat)
      requires Sound() && addr < 0x1_0000_0000
      modifies this, buf
      ensures Sound() && tokens == old(tokens) + [Begin(NumName(name, addr))]
    {
      var text := NodeName(name, addr);
      BeginNode(text);
    }

    /** fdt_prop_cells */
    method PropCells(name: Name, cells: seq<nat>)
      requires Sound()
      modifies this, buf
      ensures Sound() && tokens == old(tokens) + [Token.Property(Prop(name, Cells(cells)))]
    {
      hide Padded, Agrees, Block, Cell, Distinct, Cells, Emitted;
      ghost var w, o, before := Written(), overflow, names;
      var off := PropHead(name, |cells| * 4);
      ghost var w1, o1 := Written(), overflow;
      CellList(cells);
      ghost var fits := name in before || |Block(before + [name])| <= STRINGS_MAX;
      WholeCells(cells);
      EmittedBoth(w, o || !fits, w1, o1, Written(), overflow, Cell(PROP) + Cell(|cells| * 4) + Cell(off),
                  Padded(Cells(cells)), Room());
      PropWritten(w, o, before, Prop(name, Cells(cells)), off, fits);
      tokens := tokens + [Token.Property(Prop(name, Cells(cells)))];
    }

    /** The loop of fdt_prop_cells */
    method CellList(cells: seq<nat>)
      requires Valid()
      modifies `pos, `overflow, buf
      ensures Valid() && Emitted(old(Written()), old(overflow), Written(), overflow, Cells(cells), Room())
    {
      hide Cell, Cells, Block, Distinct;
      NoCells();
      ghost var w, o := Written(), overflow;
      assert |w| <= Room() && w + [] == w;
      for i := 0 to |cells|
        invariant Valid() && Emitted(w, o, Written(), overflow, Cells(cells[..i]), Room())
      {
        ghost var wi, oi := Written(), overflow;
        U32(cells[i]);
        EmittedBoth(w, o, wi, oi, Written(), overflow, Cells(cells[..i]), Cell(cells[i]), Room());
        OneCell(cells, i);
      }
      assert cells[..|cells|] == cells;
    }

    /** fdt_put_be32 of the k-th field of the header */
    method PutField(k: nat, v: nat, ghost fields: seq<nat>)
      requires k < |fields| == 10 && fields[k] == v && HDR_SIZE <= buf.Length && FieldsSet(buf[..], fields, k)
      modifies buf
      ensures FieldsSet(buf[..], fields, k + 1) && buf[HDR_SIZE..] == old(buf[HDR_SIZE..])
    {
      ghost var was, c, o := buf[..], Cell(v), 4 * k;
      buf[4 * k], buf[4 * k + 1], buf[4 * k + 2], buf[4 * k + 3] :=
        v / 256 / 256 / 256 % 256, v / 256 / 256 % 256, v / 256 % 256, v % 256;
      forall i | 0 <= i < k
        ensures Field(buf[..], i) == Field(was, i)
      {
      }
      assert Field(buf[..], k) == c;
    }

    /** The end of rv_build_fdt: strings, reservation block and header, or 0 when something did not fit */
    method Close(ghost n: Node) returns (total: nat)
      requires Sound() && tokens == Flatten(n) + [Finish]
      modifies this, buf
      ensures total == 0 <==> !Fits(n, buf.Length)
      ensures total > 0 ==> total == BlobSize(n) <= buf.Length && ParseBlob(buf[..total]) == Some(n)
    {
      hide Block, Agrees, Cell, ParseTokens, Flatten, Interned, Size, ParseBlob, FieldsSet, Zeros;
      ghost var structure, ts := Written(), tokens;
      AgreesAtEnd(structure, names, overflow, tokens, Room());
      if overflow {
        return 0;
      }
      total := pos + |strings|;
      if total > buf.Length {
        return 0;
      }
      PutBlocks(structure);
      PutHeader(total, structure);
      BlobHolds(buf[..], pos, total, structure, strings, n);
    }

    /** Everything after the header */
    method PutBlocks(ghost structure: seq<Byte>)
      requires Valid() && structure == Written() && pos + |strings| <= buf.Length
      modifies buf
      ensures Zeros(RSVMAP_SIZE) + structure + strings <= buf[HDR_SIZE..]
    {
      hide Zeros, Block;
      PutAll(pos, strings);
      ghost var b := buf[..];
      assert b[STRUCT_OFF..pos] == b[..pos][STRUCT_OFF..] == structure;
      PutAll(HDR_SIZE, Zeros(RSVMAP_SIZE));
      assert buf[STRUCT_OFF..] == b[STRUCT_OFF..];
      Joined(buf[..], b, pos, structure, strings);
    }

    method PutHeader(total: nat, ghost structure: seq<Byte>)
      requires Valid() && total < 0x1_0000_0000
      modifies buf
      ensures FieldsSet(buf[..], Fields(pos, total, |strings|), 10) && buf[HDR_SIZE..] == old(buf[HDR_SIZE..])
    {
      hide FieldsSet, Block;
      ghost var fields := Fields(pos, total, |strings|);
      NoFields(buf[..], fields);
      PutField(0, MAGIC, fields);
      PutField(1, total, fields);
      PutField(2, STRUCT_OFF, fields);
      PutField(3, pos, fields);
      PutField(4, HDR_SIZE, fields);
      PutField(5, VERSION, fields);
      PutField(6, COMP_VERSION, fields);
      PutField(7, 0, fields);
      PutField(8, |strings|, fields);
      PutField(9, pos - STRUCT_OFF, fields);
    }

    /** memcpy into the buffer */
    method PutAll(o: nat, bs: seq<Byte>)
      requires o + |bs| <= buf.Length
      modifies buf
      ensures buf[..o] == old(buf[..o]) && buf[o..o + |bs|] == bs && buf[o + |bs|..] == old(buf[o + |bs|..])
    {
      ghost var was := buf[..];
      for i := 0 to |bs|
        invariant buf[..o] == was[..o] && buf[o..o + i] == bs[..i] && buf[o + i..] == was[o + i..]
      {
        buf[o + i] := bs[i];
      }
    }
  }

  /** The i-th field of the header, in bytes. */
  function Field(b: seq<Byte>, i: nat): seq<Byte>
    requires 4 * i + 4 <= |b|
  {
    b[4 * i..4 * i + 4]
  }

  function Fields(pos: nat, total: nat, stringsLen: nat): seq<nat>
    requires STRUCT_OFF <= pos
  {
    [MAGIC, total, STRUCT_OFF, pos, HDR_SIZE, VERSION, COMP_VERSION, 0, stringsLen, pos - STRUCT_OFF]
  }

  lemma NoFields(b: seq<Byte>, fields: seq<nat>)
    requires 4 * |fields| <= |b|
    ensures FieldsSet(b, fields, 0)
  {
  }

  lemma Joined(b: seq<Byte>, was: seq<Byte>, pos: nat, structure: seq<Byte>, strings: seq<Byte>)
    requires STRUCT_OFF <= pos && pos + |strings| <= |b| == |was| && b[STRUCT_OFF..] == was[STRUCT_OFF..]
    requires b[HDR_SIZE..HDR_SIZE + RSVMAP_SIZE] == Zeros(RSVMAP_SIZE)
    requires was[STRUCT_OFF..pos] == structure && was[pos..pos + |strings|] == strings
    ensures Zeros(RSVMAP_SIZE) + structure + strings <= b[HDR_SIZE..]
  {
    hide Zeros;
    var n := pos + |strings|;
    assert b[STRUCT_OFF..n] == was[STRUCT_OFF..n] by {
      assert b[STRUCT_OFF..n] == b[STRUCT_OFF..][..n - STRUCT_OFF];
      assert was[STRUCT_OFF..n] == was[STRUCT_OFF..][..n - STRUCT_OFF];
    }
    assert was[STRUCT_OFF..n] == structure + strings;
    assert b[HDR_SIZE..n] == b[HDR_SIZE..STRUCT_OFF] + b[STRUCT_OFF..n];
    assert Zeros(RSVMAP_SIZE) + structure + strings == Zeros(RSVMAP_SIZE) + (structure + strings);
    assert b[HDR_SIZE..n] == b[HDR_SIZE..][..n - HDR_SIZE];
  }

  lemma Sections(b: seq<Byte>, pos: nat, total: nat, structure: seq<Byte>, strings: seq<Byte>)
    requires STRUCT_OFF <= pos && total == pos + |strings| <= |b| && |structure| == pos - STRUCT_OFF
    requires Zeros(RSVMAP_SIZE) + structure + strings <= b[HDR_SIZE..]
    ensures b[HDR_SIZE..STRUCT_OFF] == Zeros(RSVMAP_SIZE) && b[STRUCT_OFF..pos] == structure && b[pos..total] == strings
  {
    hide Zeros;
    var t, z := b[HDR_SIZE..], Zeros(RSVMAP_SIZE);
    assert b[HDR_SIZE..STRUCT_OFF] == t[..RSVMAP_SIZE] == z;
    assert b[STRUCT_OFF..pos] == t[RSVMAP_SIZE..pos - HDR_SIZE] == structure;
    assert b[pos..total] == t[pos - HDR_SIZE..total - HDR_SIZE] == strings;
  }

  predicate FieldsSet(b: seq<Byte>, fields: seq<nat>, k: nat)
    requires k <= |fields| && 4 * |fields| <= |b|
  {
    forall i :: 0 <= i < k ==> Field(b, i) == Cell(fields[i])
  }

  lemma FieldIs(b: seq<Byte>, fields: seq<nat>, i: nat, blob: seq<Byte>)
    requires i < |fields| && 4 * |fields| <= |blob| && blob <= b && FieldsSet(b, fields, |fields|)
    requires fields[i] < 0x1_0000_0000
    ensures Be32(blob, 4 * i) == fields[i]
  {
    assert blob[4 * i..4 * i + 4] == Field(b, i);
    CellBack(fields[i], blob, 4 * i);
  }

  lemma HeaderReads(b: seq<Byte>, pos: nat, total: nat, stringsLen: nat)
    requires STRUCT_OFF <= pos <= total <= |b| && total < 0x1_0000_0000 && stringsLen <= total
    requires FieldsSet(b, Fields(pos, total, stringsLen), 10)
    ensures var blob := b[..total];
            && Be32(blob, 0) == MAGIC && Be32(blob, 4) == total && Be32(blob, 8) == STRUCT_OFF && Be32(blob, 12) == pos
            && Be32(blob, 16) == HDR_SIZE && Be32(blob, 20) == VERSION && Be32(blob, 24) == COMP_VERSION
            && Be32(blob, 32) == stringsLen && Be32(blob, 36) == pos - STRUCT_OFF
  {
    hide Be32, Cell, FieldsSet;
    var fields := Fields(pos, total, stringsLen);
    var blob := b[..total];
    FieldIs(b, fields, 0, blob);
    FieldIs(b, fields, 1, blob);
    FieldIs(b, fields, 2, blob);
    FieldIs(b, fields, 3, blob);
    FieldIs(b, fields, 4, blob);
    FieldIs(b, fields, 5, blob);
    FieldIs(b, fields, 6, blob);
    FieldIs(b, fields, 8, blob);
    FieldIs(b, fields, 9, blob);
  }

  /** Header, reservation block, structure block and strings block in place make a blob that holds the tree. */
  lemma BlobHolds(b: seq<Byte>, pos: nat, total: nat, structure: seq<Byte>, strings: seq<Byte>, n: Node)
    requires STRUCT_OFF <= pos && total == pos + |strings| <= |b| < 0x1_0000_0000
    requires |structure| == pos - STRUCT_OFF && |structure| % 4 == 0
    requires FieldsSet(b, Fields(pos, total, |strings|), 10)
    requires Zeros(RSVMAP_SIZE) + structure + strings <= b[HDR_SIZE..]
    requires ParseTokens(structure, strings) == Some(Flatten(n) + [Finish])
    ensures ParseBlob(b[..total]) == Some(n)
  {
    hide Be32, ParseTokens, Flatten, FieldsSet, Zeros, Fields, HeaderOk;
    Sections(b, pos, total, structure, strings);
    HeaderReads(b, pos, total, |strings|);
    var blob := b[..total];
    assert blob[HDR_SIZE..STRUCT_OFF] == b[HDR_SIZE..STRUCT_OFF];
    assert blob[STRUCT_OFF..pos] == b[STRUCT_OFF..pos];
    assert blob[pos..total] == b[pos..total];
    HeaderFits(blob, pos, |strings|);
    NodeBack(n, [Finish]);
    SectionsParse(blob, pos, structure, strings, n);
  }

  lemma HeaderFits(blob: seq<Byte>, pos: nat, stringsLen: nat)
    requires STRUCT_OFF <= pos && |blob| == pos + stringsLen && (pos - STRUCT_OFF) % 4 == 0
    requires Be32(blob, 0) == MAGIC && Be32(blob, 4) == |blob| && Be32(blob, 8) == STRUCT_OFF && Be32(blob, 12) == pos
    requires Be32(blob, 16) == HDR_SIZE && Be32(blob, 20) == VERSION && Be32(blob, 24) == COMP_VERSION
    requires Be32(blob, 32) == stringsLen && Be32(blob, 36) == pos - STRUCT_OFF
    requires blob[HDR_SIZE..STRUCT_OFF] == Zeros(RSVMAP_SIZE)
    ensures HeaderOk(blob)
  {
    hide Be32, Zeros;
  }

  lemma SectionsParse(blob: seq<Byte>, pos: nat, structure: seq<Byte>, strings: seq<Byte>, n: Node)
    requires HeaderOk(blob) && STRUCT_OFF <= pos <= |blob|
    requires Be32(blob, 8) == STRUCT_OFF && Be32(blob, 12) == pos
    requires Be32(blob, 32) == |blob| - pos && Be32(blob, 36) == pos - STRUCT_OFF
    requires blob[STRUCT_OFF..pos] == structure && blob[pos..|blob|] == strings
    requires ParseTokens(structure, strings) == Some(Flatten(n) + [Finish])
    requires ParseNode(Flatten(n) + [Finish]) == Some((n, [Finish]))
    ensures ParseBlob(blob) == Some(n)
  {
    hide Be32, HeaderOk, ParseTokens, ParseNode, Flatten;
  }

  /** The whole blob: header and reservation block, structure block, strings block. */
  function BlobSize(n: Node): nat {
    var ts := Flatten(n) + [Finish];
    STRUCT_OFF + Size(ts) + |Block(Interned(ts))|
  }

  /** What rv_build_fdt needs to write the tree at all. */
  predicate Fits(n: Node, size: nat) {
    BlobSize(n) <= size && |Block(Interned(Flatten(n) + [Finish]))| <= STRINGS_MAX
  }

  lemma AgreesAtEnd(w: seq<Byte>, names: seq<Name>, o: bool, tokens: seq<Token>, room: nat)
    requires Agrees(w, names, o, tokens, room)
    ensures o ==> Size(tokens) > room || |Block(Interned(tokens))| > STRINGS_MAX
    ensures !o ==> ParseTokens(w, Block(names)) == Some(tokens) && |w| == Size(tokens) && names == Interned(tokens)
  {
  }

  lemma NoCells()
    ensures Cells([]) == []
  {
  }

  lemma OneCell(cells: seq<nat>, i: nat)
    requires i < |cells|
    ensures Cells(cells[..i + 1]) == Cells(cells[..i]) + Cell(cells[i])
  {
    assert cells[..i + 1][..i] == cells[..i];
  }

  /** Cells need no padding. */
  lemma WholeCells(cells: seq<nat>)
    ensures Padded(Cells(cells)) == Cells(cells)
  {
    assert Pad(4 * |cells|) == 4 * |cells|;
  }

  lemma Longer(w: seq<Byte>, enc: seq<Byte>, p: Prop, off: nat)
    requires enc == Encode(Token.Property(p), off)
    ensures |w + enc| >= |p.value|
  {
  }

  lemma NoNames(names: seq<Name>)
    ensures Offset(names, 0) == 0
  {
    assert names[..0] == [];
  }

  /** Short of the block's end, another name follows. */
  lemma AllNames(names: seq<Name>, k: nat)
    requires k <= |names| && Offset(names, k) < |Block(names)|
    ensures k < |names|
  {
    assert names[..|names|] == names;
  }

  lemma NotAmong(names: seq<Name>, k: nat, name: Name)
    requires k <= |names| && Offset(names, k) >= |Block(names)| && name !in names[..k]
    ensures name !in names
  {
    if k < |names| {
      NameAt(names, k);
      assert false;
    } else {
      assert names[..k] == names;
    }
  }
}
