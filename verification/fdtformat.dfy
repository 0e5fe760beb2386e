/**
 The flattened devicetree format of chapter 5 of the Devicetree Specification v0.4, read: big-endian tokens in a
 structure block, property names in a strings block, nodes nested.
 */
module FdtFormat {
  import opened Basics

  /** A C string without its NUL. */
  type Name = s: seq<Byte> | forall k :: 0 <= k < |s| ==> s[k] != 0

  datatype Prop = Prop(name: Name, value: seq<Byte>)

  datatype Node = Node(name: Name, props: seq<Prop>, kids: seq<Node>)

  datatype Token = Begin(name: Name) | End | Property(prop: Prop) | Finish

  const BEGIN_NODE := 1
  const END_NODE := 2
  const PROP := 3
  const NOP := 4
  const END := 9

  /* ---- numbers and strings ---- */

  function Be32(b: seq<Byte>, o: nat): nat
    requires o + 4 <= |b|
  {
    ((b[o] as int * 256 + b[o + 1] as int) * 256 + b[o + 2] as int) * 256 + b[o + 3] as int
  }

  /** fdt_put_be32 */
  function Cell(v: nat): (r: seq<Byte>)
    ensures |r| == 4
  {
    var a := v / 256;
    var b := a / 256;
    [b / 256 % 256, b % 256, a % 256, v % 256]
  }

  lemma CellBack(v: nat, b: seq<Byte>, o: nat)
    requires v < 0x1_0000_0000 && o + 4 <= |b| && b[o..o + 4] == Cell(v)
    ensures Be32(b, o) == v
  {
    var c := v / 256;
    var d := c / 256;
    assert d / 256 < 256;
    assert b[o] == b[o..o + 4][0] && b[o + 1] == b[o..o + 4][1] && b[o + 2] == b[o..o + 4][2] && b[o + 3] == b[o..o + 4][3];
  }

  /** The string at o, up to its NUL. */
  function CStr(s: seq<Byte>, o: nat): (r: Option<Name>)
    ensures r.Some? ==> o + |r.value| < |s| && s[o..o + |r.value|] == r.value && s[o + |r.value|] == 0
    decreases |s| - o
  {
    if o >= |s| then None
    else if s[o] == 0 then Some([])
    else
      match CStr(s, o + 1)
      case None => None
      case Some(t) =>
        var r: Name := [s[o]] + t;
        Some(r)
  }

  lemma {:induction false} CStrIs(s: seq<Byte>, o: nat, t: Name)
    requires o + |t| < |s| && s[o..o + |t|] == t && s[o + |t|] == 0
    ensures CStr(s, o) == Some(t)
    decreases |t|
  {
    if t != [] {
      assert s[o] == s[o..o + |t|][0] == t[0];
      assert s[o + 1..o + 1 + |t[1..]|] == s[o..o + |t|][1..] == t[1..];
      CStrIs(s, o + 1, t[1..]);
      assert [t[0]] + t[1..] == t;
    }
  }

  /** A string found is still found when more follows. */
  lemma CStrExtends(s: seq<Byte>, more: seq<Byte>, o: nat)
    requires CStr(s, o).Some?
    ensures CStr(s + more, o) == CStr(s, o)
  {
    var t := CStr(s, o).value;
    assert (s + more)[o..o + |t|] == s[o..o + |t|];
    CStrIs(s + more, o, t);
  }

  /** Rounded up to whole cells. */
  function Pad(n: nat): (r: nat)
    ensures r % 4 == 0 && n <= r < n + 4
  {
    (n + 3) / 4 * 4
  }

  /* ---- tokens ---- */

  /** The token a structure block begins with, and the bytes it takes. */
  function ParseToken(b: seq<Byte>, strings: seq<Byte>): (r: Option<(Token, nat)>)
    ensures r.Some? ==> 4 <= r.value.1 <= |b|
  {
    if |b| < 4 then None
    else if Be32(b, 0) == BEGIN_NODE then
      match CStr(b, 4)
      case None => None
      case Some(name) => if 4 + Pad(|name| + 1) <= |b| then Some((Begin(name), 4 + Pad(|name| + 1))) else None
    else if Be32(b, 0) == END_NODE then Some((End, 4))
    else if Be32(b, 0) == PROP then
      if |b| < 12 || 12 + Pad(Be32(b, 4)) > |b| then None
      else
        match CStr(strings, Be32(b, 8))
        case None => None
        case Some(name) => Some((Property(Prop(name, b[12..12 + Be32(b, 4)])), 12 + Pad(Be32(b, 4))))
    else if Be32(b, 0) == END then Some((Finish, 4))
    else None
  }

  function Prepended(t: Token, rest: Option<seq<Token>>): Option<seq<Token>> {
    match rest
    case None => None
    case Some(ts) => Some([t] + ts)
  }

  /** A structure block goes on with a FDT_NOP, which a reader skips. */
  predicate IsNop(b: seq<Byte>) {
    |b| >= 4 && Be32(b, 0) == NOP
  }

  /** All tokens of a structure block. */
  function ParseTokens(b: seq<Byte>, strings: seq<Byte>): Option<seq<Token>>
    decreases |b|
  {
    if b == [] then Some([])
    else if IsNop(b) then ParseTokens(b[4..], strings)
    else
      match ParseToken(b, strings)
      case None => None
      case Some((t, n)) => Prepended(t, ParseTokens(b[n..], strings))
  }

  lemma Be32Extends(b: seq<Byte>, more: seq<Byte>, o: nat)
    requires o + 4 <= |b|
    ensures Be32(b + more, o) == Be32(b, o)
  {
  }

  lemma TokenExtends(b: seq<Byte>, more: seq<Byte>, strings: seq<Byte>, moreStrings: seq<Byte>)
    requires ParseToken(b, strings).Some?
    ensures ParseToken(b + more, strings + moreStrings) == ParseToken(b, strings)
    ensures !IsNop(b) && !IsNop(b + more)
  {
    hide Be32, CStr;
    Be32Extends(b, more, 0);
    if Be32(b, 0) == BEGIN_NODE {
      CStrExtends(b, more, 4);
    } else if Be32(b, 0) == PROP {
      Be32Extends(b, more, 4);
      Be32Extends(b, more, 8);
      CStrExtends(strings, moreStrings, Be32(b, 8));
      assert (b + more)[12..12 + Be32(b, 4)] == b[12..12 + Be32(b, 4)];
    }
  }

  /** What was parsed stays, whatever is written after it and whatever strings are added. */
  lemma {:induction false} ParseJoin(a: seq<Byte>, b: seq<Byte>, strings: seq<Byte>, moreStrings: seq<Byte>)
    requires ParseTokens(a, strings).Some? && ParseTokens(b, strings + moreStrings).Some?
    ensures ParseTokens(a + b, strings + moreStrings) ==
            Some(ParseTokens(a, strings).value + ParseTokens(b, strings + moreStrings).value)
    decreases |a|
  {
    hide ParseToken, ParseTokens, IsNop;
    var tb := ParseTokens(b, strings + moreStrings).value;
    TokensStep(a, strings);
    TokensStep(a + b, strings + moreStrings);
    if a == [] {
      assert a + b == b && [] + tb == tb;
    } else if IsNop(a) {
      NopExtends(a, b);
      assert (a + b)[4..] == a[4..] + b;
      ParseJoin(a[4..], b, strings, moreStrings);
    } else {
      var n := ParseToken(a, strings).value.1;
      TokenExtends(a, b, strings, moreStrings);
      assert (a + b)[n..] == a[n..] + b;
      ParseJoin(a[n..], b, strings, moreStrings);
      var t, ta := ParseToken(a, strings).value.0, ParseTokens(a[n..], strings).value;
      assert [t] + (ta + tb) == [t] + ta + tb;
    }
  }

  /** The first step of a parse. */
  lemma TokensStep(b: seq<Byte>, strings: seq<Byte>)
    ensures b == [] ==> ParseTokens(b, strings) == Some([])
    ensures IsNop(b) ==> |b| >= 4 && ParseTokens(b, strings) == ParseTokens(b[4..], strings)
    ensures b != [] && !IsNop(b) ==>
              var first := ParseToken(b, strings);
              ParseTokens(b, strings) ==
              if first.None? then None else Prepended(first.value.0, ParseTokens(b[first.value.1..], strings))
  {
    hide ParseToken, Be32;
  }

  lemma NopExtends(b: seq<Byte>, more: seq<Byte>)
    requires IsNop(b)
    ensures |b| >= 4 && IsNop(b + more)
  {
    Be32Extends(b, more, 0);
  }

  /* ---- encoding, for comparison ---- */

  function Zeros(n: nat): (r: seq<Byte>)
    ensures |r| == n && forall k :: 0 <= k < n ==> r[k] == 0
  {
    seq(n, _ => 0)
  }

  function Padded(b: seq<Byte>): (r: seq<Byte>)
    ensures |r| == Pad(|b|)
  {
    b + Zeros(Pad(|b|) - |b|)
  }

  /** A token in bytes, its name at offset off of the strings block. */
  function Encode(t: Token, off: nat): (r: seq<Byte>)
    ensures |r| == TokenSize(t)
  {
    match t
    case Begin(name) =>
      assert |name + [0]| == |name| + 1;
      Cell(BEGIN_NODE) + Padded(name + [0])
    case End => Cell(END_NODE)
    case Property(p) => Cell(PROP) + Cell(|p.value|) + Cell(off) + Padded(p.value)
    case Finish => Cell(END)
  }

  function TokenSize(t: Token): (r: nat)
    ensures r % 4 == 0
  {
    match t
    case Begin(name) => 4 + Pad(|name| + 1)
    case Property(p) => 12 + Pad(|p.value|)
    case _ => 4
  }

  lemma BeginParses(name: Name, strings: seq<Byte>)
    ensures ParseToken(Encode(Begin(name), 0), strings) == Some((Begin(name), TokenSize(Begin(name))))
  {
    hide Be32, Cell, Pad;
    var b := Encode(Begin(name), 0);
    assert b[0..4] == Cell(BEGIN_NODE);
    CellBack(BEGIN_NODE, b, 0);
    assert b[4..4 + |name|] == name && b[4 + |name|] == 0;
    CStrIs(b, 4, name);
  }

  lemma PropertyParses(p: Prop, off: nat, strings: seq<Byte>)
    requires |p.value| < 0x1_0000_0000 && off < 0x1_0000_0000 && CStr(strings, off) == Some(p.name)
    ensures ParseToken(Encode(Property(p), off), strings) == Some((Property(p), TokenSize(Property(p))))
  {
    hide Be32, Cell, Pad, CStr;
    var b := Encode(Property(p), off);
    assert b[0..4] == Cell(PROP) && b[4..8] == Cell(|p.value|) && b[8..12] == Cell(off);
    CellBack(PROP, b, 0);
    CellBack(|p.value|, b, 4);
    CellBack(off, b, 8);
    assert b[12..12 + |p.value|] == p.value;
  }

  lemma MarkParses(t: Token, strings: seq<Byte>)
    requires t == End || t == Finish
    ensures ParseToken(Encode(t, 0), strings) == Some((t, 4))
  {
    hide Be32, Cell;
    var b := Encode(t, 0);
    assert b[0..4] == b;
    CellBack(if t == End then END_NODE else END, b, 0);
  }

  /** One token more at the end of a structure block. */
  lemma TokenAppended(b: seq<Byte>, strings: seq<Byte>, moreStrings: seq<Byte>, t: Token, enc: seq<Byte>)
    requires ParseTokens(b, strings).Some? && ParseToken(enc, strings + moreStrings) == Some((t, |enc|))
    ensures ParseTokens(b + enc, strings + moreStrings) == Some(ParseTokens(b, strings).value + [t])
  {
    hide ParseToken;
    TokenExtends(enc, [], strings + moreStrings, []);
    assert enc[|enc|..] == [];
    assert ParseTokens([], strings + moreStrings) == Some([]);
    assert [t] + [] == [t];
    ParseJoin(b, enc, strings, moreStrings);
  }

  /* ---- trees ---- */

  function PropTokens(props: seq<Prop>): (r: seq<Token>)
    ensures |r| == |props|
  {
    seq(|props|, i requires 0 <= i < |props| => Property(props[i]))
  }

  function Flatten(n: Node): seq<Token>
    decreases n, 0
  {
    [Begin(n.name)] + PropTokens(n.props) + FlattenAll(n.kids) + [End]
  }

  function FlattenAll(kids: seq<Node>): seq<Token>
    decreases kids, 1
  {
    if kids == [] then [] else Flatten(kids[0]) + FlattenAll(kids[1..])
  }

  function ParseProps(ts: seq<Token>): (r: (seq<Prop>, seq<Token>))
    ensures |r.1| <= |ts|
  {
    if ts != [] && ts[0].Property? then
      var r := ParseProps(ts[1..]);
      ([ts[0].prop] + r.0, r.1)
    else ([], ts)
  }

  /** The node the tokens begin with, and the tokens after it. */
  function ParseNode(ts: seq<Token>): (r: Option<(Node, seq<Token>)>)
    ensures r.Some? ==> |r.value.1| < |ts|
    decreases |ts|, 0
  {
    if ts == [] || !ts[0].Begin? then None
    else
      var p := ParseProps(ts[1..]);
      match ParseKids(p.1)
      case None => None
      case Some((kids, rest)) =>
        if rest != [] && rest[0].End? then Some((Node(ts[0].name, p.0, kids), rest[1..])) else None
  }

  /** As many nodes as there are. */
  function ParseKids(ts: seq<Token>): (r: Option<(seq<Node>, seq<Token>)>)
    ensures r.Some? ==> |r.value.1| <= |ts|
    decreases |ts|, 1
  {
    if ts == [] || !ts[0].Begin? then Some(([], ts))
    else
      match ParseNode(ts)
      case None => None
      case Some((kid, rest)) =>
        match ParseKids(rest)
        case None => None
        case Some((kids, rest')) => Some(([kid] + kids, rest'))
  }

  lemma {:induction false} PropsBack(props: seq<Prop>, rest: seq<Token>)
    requires rest == [] || !rest[0].Property?
    ensures ParseProps(PropTokens(props) + rest) == (props, rest)
    decreases |props|
  {
    if props == [] {
      assert PropTokens(props) + rest == rest;
    } else {
      PropsBack(props[1..], rest);
      assert PropTokens(props)[1..] == PropTokens(props[1..]);
      assert (PropTokens(props) + rest)[1..] == PropTokens(props[1..]) + rest;
      assert [props[0]] + props[1..] == props;
    }
  }

  /** A tree is what its tokens parse to, whatever comes after. */
  lemma {:induction false} NodeBack(n: Node, rest: seq<Token>)
    ensures ParseNode(Flatten(n) + rest) == Some((n, rest))
    decreases n, 0
  {
    var ts := Flatten(n) + rest;
    var after := [End] + rest;
    var kids := FlattenAll(n.kids) + after;
    assert ts[0] == Begin(n.name) && ts[1..] == PropTokens(n.props) + kids;
    KidsFirst(n.kids, after);
    PropsBack(n.props, kids);
    KidsBack(n.kids, after);
    assert after[1..] == rest;
  }

  lemma KidsFirst(kids: seq<Node>, after: seq<Token>)
    requires after != [] && after[0] == End
    ensures var ts := FlattenAll(kids) + after;
            ts != [] && !ts[0].Property?
  {
    if kids != [] {
      assert FlattenAll(kids)[0] == Flatten(kids[0])[0] == Begin(kids[0].name);
    }
  }

  lemma {:induction false} KidsBack(kids: seq<Node>, after: seq<Token>)
    requires after != [] && after[0] == End
    ensures ParseKids(FlattenAll(kids) + after) == Some((kids, after))
    decreases kids, 1
  {
    if kids == [] {
      assert FlattenAll(kids) + after == after;
    } else {
      var rest := FlattenAll(kids[1..]) + after;
      assert FlattenAll(kids) + after == Flatten(kids[0]) + rest;
      assert Flatten(kids[0])[0] == Begin(kids[0].name);
      NodeBack(kids[0], rest);
      KidsBack(kids[1..], after);
      assert [kids[0]] + kids[1..] == kids;
    }
  }

  /* ---- the blob ---- */

  const MAGIC := 0xd00d_feed
  const HDR_SIZE := 40
  const RSVMAP_SIZE := 16
  const STRUCT_OFF := HDR_SIZE + RSVMAP_SIZE
  const VERSION := 17
  const COMP_VERSION := 16

  /** The header's fields agree with each other and the blob, and the reservation block is empty. */
  predicate HeaderOk(b: seq<Byte>) {
    && |b| >= HDR_SIZE && Be32(b, 0) == MAGIC && Be32(b, 4) == |b| && Be32(b, 20) == VERSION && Be32(b, 24) == COMP_VERSION
    && HDR_SIZE <= Be32(b, 16) && Be32(b, 16) + RSVMAP_SIZE <= Be32(b, 8)
    && Be32(b, 8) % 4 == 0 && Be32(b, 8) + Be32(b, 36) <= Be32(b, 12) && Be32(b, 12) + Be32(b, 32) <= |b|
    && b[Be32(b, 16)..Be32(b, 16) + RSVMAP_SIZE] == Zeros(RSVMAP_SIZE)
  }

  /** The tree a blob holds. */
  function ParseBlob(b: seq<Byte>): Option<Node> {
    if !HeaderOk(b) then None
    else
      var structure := b[Be32(b, 8)..Be32(b, 8) + Be32(b, 36)];
      var strings := b[Be32(b, 12)..Be32(b, 12) + Be32(b, 32)];
      match ParseTokens(structure, strings)
      case None => None
      case Some(ts) =>
        match ParseNode(ts)
        case None => None
        case Some((n, rest)) => if rest == [Finish] then Some(n) else None
  }
}
