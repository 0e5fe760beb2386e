/** The telnet console: the filter on what the client sends, and the escaping of what the guest prints. */
module Telnet {
  import opened Basics
  import opened Spsc

  const NUL: Byte := 0
  const LF: Byte := 10
  const CR: Byte := 13
  const SE: Byte := 240
  const SB: Byte := 250
  const WILL: Byte := 251
  const WONT: Byte := 252
  const DO: Byte := 253
  const DONT: Byte := 254
  const IAC: Byte := 255
  const OPT_ECHO: Byte := 1
  const OPT_SGA: Byte := 3

  /** tn_hello: what every session is greeted with. */
  const HELLO: seq<Byte> := [IAC, WILL, OPT_ECHO, IAC, WILL, OPT_SGA, IAC, DO, OPT_SGA]

  const RX_SIZE := 1024
  const TX_SIZE := 8192
  const REPLY_SIZE := 64
  const OUT_SIZE := 256

  datatype Mode = Data | Command | Opt | Sub | SubCommand

  /** tn_state and the flags beside it. */
  datatype Filter = Filter(mode: Mode, verb: Byte, sawCr: bool, saidEcho: bool, saidSga: bool)

  /** The filter at the start of a session, which the greeting leaves as it is. */
  const FRESH := Filter(Data, NUL, false, false, false)

  /** What one byte leads to: the filter after it, a byte for the guest, and an answer to the client. */
  datatype Fed = Fed(filter: Filter, data: seq<Byte>, reply: seq<Byte>)

  function Quiet(f: Filter, data: seq<Byte>): Fed {
    Fed(f, data, [])
  }

  /** tn_rx_byte */
  function Feed(f: Filter, b: Byte): (r: Fed)
    ensures |r.data| <= 1 && (|r.reply| == 0 || |r.reply| == 3)
  {
    match f.mode
    case Data =>
      if b == IAC then Quiet(f.(mode := Command), [])
      else if f.sawCr && (b == NUL || b == LF) then Quiet(f.(sawCr := false), [])
      else Quiet(f.(sawCr := b == CR), [b])
    case Command =>
      if b == IAC then Quiet(f.(mode := Data, sawCr := false), [IAC])
      else if WILL <= b <= DONT then Quiet(f.(verb := b, mode := Opt), [])
      else if b == SB then Quiet(f.(mode := Sub), [])
      else Quiet(f.(mode := Data), [])
    case Opt =>
      var g := f.(mode := Data);
      if f.verb == DO then
        if b == OPT_ECHO && !f.saidEcho then Fed(g.(saidEcho := true), [], [IAC, WILL, b])
        else if b == OPT_SGA && !f.saidSga then Fed(g.(saidSga := true), [], [IAC, WILL, b])
        else if b != OPT_ECHO && b != OPT_SGA then Fed(g, [], [IAC, WONT, b])
        else Quiet(g, [])
      else if f.verb == WILL then Fed(g, [], [IAC, if b == OPT_SGA then DO else DONT, b])
      else Quiet(g, [])
    case Sub => Quiet(if b == IAC then f.(mode := SubCommand) else f, [])
    case SubCommand => Quiet(f.(mode := if b == SE then Data else Sub), [])
  }

  /** A stream of bytes, one after the other. */
  function FeedAll(f: Filter, bs: seq<Byte>): Fed {
    if bs == [] then Quiet(f, [])
    else
      var before := FeedAll(f, bs[..|bs| - 1]);
      var r := Feed(before.filter, bs[|bs| - 1]);
      Fed(r.filter, before.data + r.data, before.reply + r.reply)
  }

  lemma FeedOneMore(f: Filter, bs: seq<Byte>, b: Byte)
    ensures var before := FeedAll(f, bs);
            var r := Feed(before.filter, b);
            FeedAll(f, bs + [b]) == Fed(r.filter, before.data + r.data, before.reply + r.reply)
  {
    assert (bs + [b])[..|bs|] == bs;
  }

  /** It makes no difference how the client's stream is cut into segments. */
  lemma {:induction false} FeedInParts(f: Filter, a: seq<Byte>, b: seq<Byte>)
    ensures var first := FeedAll(f, a);
            var second := FeedAll(first.filter, b);
            FeedAll(f, a + b) == Fed(second.filter, first.data + second.data, first.reply + second.reply)
    decreases |b|
  {
    hide Feed;
    if b == [] {
      assert a + b == a;
      var first := FeedAll(f, a);
      assert first.data + [] == first.data && first.reply + [] == first.reply;
    } else {
      var c := b[..|b| - 1];
      FeedInParts(f, a, c);
      assert (a + b)[..|a + b| - 1] == a + c;
      var first := FeedAll(f, a);
      var second := FeedAll(first.filter, c);
      var r := Feed(second.filter, b[|b| - 1]);
      assert first.data + second.data + r.data == first.data + (second.data + r.data);
      assert first.reply + second.reply + r.reply == first.reply + (second.reply + r.reply);
    }
  }

  /* ---- escaping ---- */

  /** One byte on the wire: 255 doubled. */
  function EscapeByte(b: Byte): seq<Byte> {
    if b == 255 then [255, 255] else [b]
  }

  function Escape(bs: seq<Byte>): seq<Byte> {
    if bs == [] then [] else Escape(bs[..|bs| - 1]) + EscapeByte(bs[|bs| - 1])
  }

  lemma EscapeOneMore(bs: seq<Byte>, b: Byte)
    ensures Escape(bs + [b]) == Escape(bs) + EscapeByte(b)
  {
    assert (bs + [b])[..|bs|] == bs;
  }

  lemma {:induction false} EscapeJoin(a: seq<Byte>, b: seq<Byte>)
    ensures Escape(a + b) == Escape(a) + Escape(b)
    decreases |b|
  {
    hide EscapeByte;
    if b == [] {
      assert a + b == a;
    } else {
      var c := b[..|b| - 1];
      EscapeJoin(a, c);
      assert (a + b)[..|a + b| - 1] == a + c;
      assert Escape(a) + Escape(c) + EscapeByte(b[|b| - 1]) == Escape(a) + (Escape(c) + EscapeByte(b[|b| - 1]));
    }
  }

  /** Byte i ends a CR pair: a NUL or LF right after a CR; afterCr says whether one came before the stream. */
  predicate EndsPair(bs: seq<Byte>, i: nat, afterCr: bool)
    requires i < |bs|
  {
    (bs[i] == 0 || bs[i] == 10) && if i == 0 then afterCr else bs[i - 1] == 13
  }

  /** The stream without the second half of each CR pair. */
  function Unpaired(bs: seq<Byte>, afterCr: bool): seq<Byte> {
    if bs == [] then []
    else
      var n := |bs| - 1;
      Unpaired(bs[..n], afterCr) + if EndsPair(bs, n, afterCr) then [] else [bs[n]]
  }

  /** One byte escaped, fed to a filter between commands. */
  lemma EscapedByte(f: Filter, before: seq<Byte>, b: Byte)
    requires FeedAll(f, before).filter.mode == Data
    ensures var g := FeedAll(f, before);
            FeedAll(f, before + EscapeByte(b)) ==
            Fed(g.filter.(sawCr := b == CR), g.data + (if g.filter.sawCr && (b == NUL || b == LF) then [] else [b]), g.reply)
  {
    hide FeedAll;
    var g := FeedAll(f, before);
    assert g.reply + [] == g.reply && g.data + [] == g.data;
    if b == IAC {
      FeedOneMore(f, before, IAC);
      FeedOneMore(f, before + [IAC], IAC);
      assert before + [IAC] + [IAC] == before + [IAC, IAC];
    } else {
      FeedOneMore(f, before, b);
    }
  }

  /**
   Feeding back what tn_flush makes of a stream gives the stream again but for the second half of each CR pair,
   answers nothing, and leaves the filter between commands.
   */
  lemma {:induction false} EscapedComesBack(f: Filter, bs: seq<Byte>)
    requires f.mode == Data
    ensures var r := FeedAll(f, Escape(bs));
            && r.data == Unpaired(bs, f.sawCr) && r.reply == []
            && r.filter == f.(sawCr := if bs == [] then f.sawCr else bs[|bs| - 1] == CR)
    decreases |bs|
  {
    hide Feed, FeedAll, Escape, EscapeByte, Unpaired;
    if bs == [] {
      NothingEscaped();
      NothingFed(f, []);
      NonePaired(f.sawCr);
    } else {
      var n := |bs| - 1;
      EscapedComesBack(f, bs[..n]);
      EscapedByte(f, Escape(bs[..n]), bs[n]);
      LastByte(bs, f.sawCr);
    }
  }

  lemma NonePaired(afterCr: bool)
    ensures Unpaired([], afterCr) == []
  {
  }

  lemma LastByte(bs: seq<Byte>, afterCr: bool)
    requires bs != []
    ensures var n := |bs| - 1;
            && Escape(bs) == Escape(bs[..n]) + EscapeByte(bs[n])
            && Unpaired(bs, afterCr) == Unpaired(bs[..n], afterCr) + if EndsPair(bs, n, afterCr) then [] else [bs[n]]
  {
  }

  /* ---- answers ---- */

  /** 1 if the filter has answered a request for the option with WILL. */
  function Said(f: Filter, opt: Byte): nat {
    if (opt == OPT_ECHO && f.saidEcho) || (opt == OPT_SGA && f.saidSga) then 1 else 0
  }

  /** How many of the commands in bs, each of three bytes, are WILL for the option. */
  function WillsOf(bs: seq<Byte>, opt: Byte): nat {
    if |bs| < 3 then 0
    else
      var n := |bs| - 3;
      (if bs[n + 1] == WILL && bs[n + 2] == opt then 1 else 0) + WillsOf(bs[..n], opt)
  }

  lemma FeedAnnounces(f: Filter, b: Byte, opt: Byte)
    ensures var r := Feed(f, b);
            (if r.reply != [] && r.reply[1] == WILL && r.reply[2] == opt then 1 else 0) + Said(f, opt) == Said(r.filter, opt)
  {
  }

  lemma WillsOneMore(bs: seq<Byte>, more: seq<Byte>, opt: Byte)
    requires more == [] || |more| == 3
    ensures WillsOf(bs + more, opt) == WillsOf(bs, opt) + if more != [] && more[1] == WILL && more[2] == opt then 1 else 0
  {
    if more == [] {
      assert bs + more == bs;
    } else {
      assert (bs + more)[..|bs|] == bs;
    }
  }

  /** The filter's answers announce each option at most once, and only ECHO and SGA, whatever the client sends. */
  lemma {:induction false} AnnouncedOnce(f: Filter, bs: seq<Byte>, opt: Byte)
    ensures var r := FeedAll(f, bs);
            WillsOf(r.reply, opt) + Said(f, opt) == Said(r.filter, opt) <= 1 && |r.reply| % 3 == 0
    decreases |bs|
  {
    hide Feed, WillsOf, Said;
    if bs == [] {
      NoWills(opt);
    } else {
      var before := FeedAll(f, bs[..|bs| - 1]);
      AnnouncedOnce(f, bs[..|bs| - 1], opt);
      FeedAnnounces(before.filter, bs[|bs| - 1], opt);
      WillsOneMore(before.reply, Feed(before.filter, bs[|bs| - 1]).reply, opt);
      SaidAtMostOnce(Feed(before.filter, bs[|bs| - 1]).filter, opt);
    }
    SaidAtMostOnce(f, opt);
  }

  lemma SaidAtMostOnce(f: Filter, opt: Byte)
    ensures Said(f, opt) <= 1
  {
  }

  lemma NoWills(opt: Byte)
    ensures WillsOf([], opt) == 0
  {
  }

  /* ---- requests, by the grammar of RFC 854 ---- */

  /** Past the end of a subnegotiation: what follows its IAC SE. */
  function AfterSub(bs: seq<Byte>): (rest: seq<Byte>)
    ensures |rest| <= |bs|
  {
    if |bs| < 2 then []
    else if bs[0] != 255 then AfterSub(bs[1..])
    else if bs[1] == 240 then bs[2..]
    else AfterSub(bs[2..])
  }

  /** Whether the stream has the command DO for the option, not counting what is inside subnegotiations. */
  predicate Requests(bs: seq<Byte>, opt: Byte)
    decreases |bs|
  {
    if |bs| < 2 then false
    else if bs[0] != 255 then Requests(bs[1..], opt)
    else if 251 <= bs[1] <= 254 then |bs| >= 3 && ((bs[1] == 253 && bs[2] == opt) || Requests(bs[3..], opt))
    else if bs[1] == 250 then Requests(AfterSub(bs[2..]), opt)
    else Requests(bs[2..], opt)
  }

  function SaidAfter(f: Filter, bs: seq<Byte>, opt: Byte): nat {
    Said(FeedAll(f, bs).filter, opt)
  }

  /** Feeding from the front. */
  lemma FeedFirst(f: Filter, bs: seq<Byte>)
    requires bs != []
    ensures FeedAll(f, bs).filter == FeedAll(Feed(f, bs[0]).filter, bs[1..]).filter
  {
    hide Feed;
    FeedInParts(f, [bs[0]], bs[1..]);
    assert [bs[0]] + bs[1..] == bs;
    assert [bs[0]][..0] == [];
  }

  lemma {:induction false} SubSaysNothing(f: Filter, bs: seq<Byte>, opt: Byte)
    requires f.mode == Sub
    ensures SaidAfter(f, bs, opt) == SaidAfter(f.(mode := Data), AfterSub(bs), opt)
    decreases |bs|
  {
    hide FeedAll;
    NothingFed(f.(mode := Data), []);
    if bs == [] {
      NothingFed(f, bs);
    } else {
      FeedFirst(f, bs);
      if |bs| == 1 {
        NothingFed(Feed(f, bs[0]).filter, bs[1..]);
      } else if bs[0] != IAC {
        SubSaysNothing(f, bs[1..], opt);
      } else {
        var g := Feed(f, bs[0]).filter;
        FeedFirst(g, bs[1..]);
        assert bs[1..][1..] == bs[2..];
        if bs[1] != SE {
          SubSaysNothing(f, bs[2..], opt);
        }
      }
    }
  }

  /** The filter answers WILL for an option in the end if it had or if the client requests it, and for no other reason. */
  lemma {:induction false} SaidOnRequest(f: Filter, bs: seq<Byte>, opt: Byte)
    requires f.mode == Data && (opt == OPT_ECHO || opt == OPT_SGA)
    ensures SaidAfter(f, bs, opt) == if Said(f, opt) == 1 || Requests(bs, opt) then 1 else 0
    decreases |bs|
  {
    hide FeedAll, Feed, Requests;
    RequestsStep(bs, opt);
    if |bs| < 2 {
      ShortSaysNothing(f, bs, opt);
    } else {
      FeedFirst(f, bs);
      DataFed(f, bs[0], opt);
      var g := Feed(f, bs[0]).filter;
      if bs[0] != IAC {
        SaidOnRequest(g, bs[1..], opt);
      } else {
        FeedFirst(g, bs[1..]);
        assert bs[1..][1..] == bs[2..];
        CommandFed(g, bs[1], opt);
        var h := Feed(g, bs[1]).filter;
        if h.mode == Opt {
          if |bs| == 2 {
            NothingFed(h, bs[2..]);
          } else {
            FeedFirst(h, bs[2..]);
            assert bs[2..][1..] == bs[3..];
            OptFed(h, bs[2], opt);
            SaidOnRequest(Feed(h, bs[2]).filter, bs[3..], opt);
          }
        } else if h.mode == Sub {
          SubSaysNothing(h, bs[2..], opt);
          SaidOnRequest(h.(mode := Data), AfterSub(bs[2..]), opt);
        } else {
          SaidOnRequest(h, bs[2..], opt);
        }
      }
    }
  }

  lemma RequestsStep(bs: seq<Byte>, opt: Byte)
    ensures Requests(bs, opt) <==>
            if |bs| < 2 then false
            else if bs[0] != IAC then Requests(bs[1..], opt)
            else if WILL <= bs[1] <= DONT then |bs| >= 3 && ((bs[1] == DO && bs[2] == opt) || Requests(bs[3..], opt))
            else if bs[1] == SB then Requests(AfterSub(bs[2..]), opt)
            else Requests(bs[2..], opt)
  {
  }

  lemma ShortSaysNothing(f: Filter, bs: seq<Byte>, opt: Byte)
    requires f.mode == Data && |bs| < 2
    ensures SaidAfter(f, bs, opt) == Said(f, opt) <= 1
  {
    hide FeedAll;
    NothingFed(f, []);
    if bs != [] {
      FeedFirst(f, bs);
      NothingFed(Feed(f, bs[0]).filter, bs[1..]);
    } else {
      NothingFed(f, bs);
    }
  }

  lemma DataFed(f: Filter, b: Byte, opt: Byte)
    requires f.mode == Data
    ensures var g := Feed(f, b).filter;
            g.mode == (if b == IAC then Command else Data) && Said(g, opt) == Said(f, opt) <= 1
  {
  }

  lemma CommandFed(f: Filter, b: Byte, opt: Byte)
    requires f.mode == Command
    ensures var g := Feed(f, b).filter;
            && g.mode == (if WILL <= b <= DONT then Opt else if b == SB then Sub else Data)
            && (g.mode == Opt ==> g.verb == b) && Said(g, opt) == Said(g.(mode := Data), opt) == Said(f, opt)
  {
  }

  lemma OptFed(f: Filter, b: Byte, opt: Byte)
    requires f.mode == Opt && (opt == OPT_ECHO || opt == OPT_SGA)
    ensures var g := Feed(f, b).filter;
            g.mode == Data && Said(g, opt) == if f.verb == DO && b == opt then 1 else Said(f, opt)
  {
  }

  /**
   What a whole session announces: the greeting announces ECHO and SGA, each once; each is announced a second time, and
   no more, exactly if the client requests it, as one does that answers the greeting; nothing else is announced.
   */
  lemma SessionAnnounces(bs: seq<Byte>, opt: Byte)
    ensures WillsOf(HELLO + FeedAll(FRESH, bs).reply, opt) ==
            if opt != OPT_ECHO && opt != OPT_SGA then 0 else if Requests(bs, opt) then 2 else 1
  {
    hide WillsOf, FeedAll, Requests;
    AnnouncedOnce(FRESH, bs, opt);
    WillsJoin(HELLO, FeedAll(FRESH, bs).reply, opt);
    HelloAnnounces(opt);
    if opt == OPT_ECHO || opt == OPT_SGA {
      SaidOnRequest(FRESH, bs, opt);
    }
  }

  lemma HelloAnnounces(opt: Byte)
    ensures WillsOf(HELLO, opt) == if opt == OPT_ECHO || opt == OPT_SGA then 1 else 0
  {
    assert HELLO[..6] == [IAC, WILL, OPT_ECHO, IAC, WILL, OPT_SGA];
    assert HELLO[..6][..3] == [IAC, WILL, OPT_ECHO];
    assert WillsOf([IAC, WILL, OPT_ECHO], opt) == if opt == OPT_ECHO then 1 else 0;
  }

  lemma {:induction false} WillsJoin(a: seq<Byte>, b: seq<Byte>, opt: Byte)
    requires |b| % 3 == 0
    ensures WillsOf(a + b, opt) == WillsOf(a, opt) + WillsOf(b, opt)
    decreases |b|
  {
    if b == [] {
      assert a + b == a;
    } else {
      var n := |b| - 3;
      WillsJoin(a, b[..n], opt);
      assert (a + b)[..|a| + n] == a + b[..n];
    }
  }

  lemma VerbFed(f: Filter, verb: Byte)
    requires f.mode == Data && WILL <= verb <= DONT
    ensures FeedAll(f, [IAC, verb]) == Quiet(f.(verb := verb, mode := Opt), [])
  {
    hide FeedAll;
    NothingFed(f, []);
    FeedOneMore(f, [], IAC);
    FeedOneMore(f, [IAC], verb);
    assert [] + [IAC] == [IAC] && [IAC] + [verb] == [IAC, verb];
  }

  /** A confirmation is never answered: only WILL and DO are. */
  lemma OnlyRequestsAnswered(f: Filter, verb: Byte, opt: Byte)
    requires f.mode == Data && WILL <= verb <= DONT
    ensures var r := FeedAll(f, [IAC, verb, opt]);
            && r.filter.mode == Data && r.data == []
            && (r.reply != [] ==> (verb == DO || verb == WILL) && |r.reply| == 3 && r.reply[0] == IAC && r.reply[2] == opt)
            && (verb == WONT || verb == DONT ==> r.reply == [])
  {
    hide FeedAll;
    VerbFed(f, verb);
    FeedOneMore(f, [IAC, verb], opt);
    assert [IAC, verb] + [opt] == [IAC, verb, opt];
  }

  /* ---- a whole stream ---- */

  /**
   What the client's stream carries besides commands, by the grammar of RFC 854: 255 doubled is that byte, 251 to 254
   have an option after them, 250 begins a subnegotiation, and any other command is one byte.
   */
  function DataOf(bs: seq<Byte>): seq<Byte>
    decreases |bs|
  {
    if bs == [] then []
    else if bs[0] != 255 then [bs[0]] + DataOf(bs[1..])
    else if |bs| == 1 then []
    else if bs[1] == 255 then [255] + DataOf(bs[2..])
    else if 251 <= bs[1] <= 254 then if |bs| == 2 then [] else DataOf(bs[3..])
    else if bs[1] == 250 then DataOf(AfterSub(bs[2..]))
    else DataOf(bs[2..])
  }

  /**
   The answers to the stream's commands: to DO (253), WILL (251) for options 1 and 3, once each, and WONT (252) for any
   other; to WILL, DO for option 3 and DONT (254) for any other.
   */
  function AnswersTo(bs: seq<Byte>, echo: bool, sga: bool): seq<Byte>
    decreases |bs|
  {
    if |bs| < 2 then []
    else if bs[0] != 255 then AnswersTo(bs[1..], echo, sga)
    else if bs[1] == 250 then AnswersTo(AfterSub(bs[2..]), echo, sga)
    else if !(251 <= bs[1] <= 254) then AnswersTo(bs[2..], echo, sga)
    else if |bs| == 2 then []
    else
      var opt, rest := bs[2], bs[3..];
      if bs[1] == 253 then
        if opt == 1 then (if echo then [] else [255, 251, 1]) + AnswersTo(rest, true, sga)
        else if opt == 3 then (if sga then [] else [255, 251, 3]) + AnswersTo(rest, echo, true)
        else [255, 252, opt] + AnswersTo(rest, echo, sga)
      else if bs[1] == 251 then [255, if opt == 3 then 253 else 254, opt] + AnswersTo(rest, echo, sga)
      else AnswersTo(rest, echo, sga)
  }

  /** One byte and then the rest. */
  function Then(first: Fed, rest: Fed): Fed {
    Fed(rest.filter, first.data + rest.data, first.reply + rest.reply)
  }

  lemma FeedFront(f: Filter, bs: seq<Byte>)
    requires bs != []
    ensures FeedAll(f, bs) == Then(Feed(f, bs[0]), FeedAll(Feed(f, bs[0]).filter, bs[1..]))
  {
    hide Feed, FeedAll;
    FeedInParts(f, [bs[0]], bs[1..]);
    assert [bs[0]] + bs[1..] == bs;
    NothingFed(f, []);
    FeedOneMore(f, [], bs[0]);
    assert [] + [bs[0]] == [bs[0]];
    var r := Feed(f, bs[0]);
    assert [] + r.data == r.data && [] + r.reply == r.reply;
  }

  lemma FeedTwo(f: Filter, bs: seq<Byte>)
    requires |bs| >= 2 && f.mode == Data && bs[0] == 255
    ensures var r := Feed(f.(mode := Command), bs[1]); FeedAll(f, bs) == Then(r, FeedAll(r.filter, bs[2..]))
  {
    hide FeedAll;
    FeedFront(f, bs);
    FeedFront(f.(mode := Command), bs[1..]);
    assert bs[1..][1..] == bs[2..];
    var r := FeedAll(f.(mode := Command), bs[1..]);
    assert [] + r.data == r.data && [] + r.reply == r.reply;
  }

  lemma {:induction false} UnpairedFirst(b: Byte, rest: seq<Byte>, afterCr: bool)
    ensures Unpaired([b] + rest, afterCr) ==
            (if (b == 0 || b == 10) && afterCr then [] else [b]) + Unpaired(rest, b == 13)
    decreases |rest|
  {
    var all := [b] + rest;
    if rest == [] {
      assert all == [b] && [b][..0] == [];
    } else {
      var n := |rest| - 1;
      UnpairedFirst(b, rest[..n], afterCr);
      assert all[..n + 1] == [b] + rest[..n];
      assert EndsPair(all, n + 1, afterCr) <==> EndsPair(rest, n, b == 13);
    }
  }

  lemma {:induction false} SubSkipped(f: Filter, bs: seq<Byte>)
    requires f.mode == Sub
    ensures var r, s := FeedAll(f, bs), FeedAll(f.(mode := Data), AfterSub(bs)); r.data == s.data && r.reply == s.reply
    decreases |bs|
  {
    hide FeedAll;
    NothingFed(f.(mode := Data), []);
    if bs == [] {
      NothingFed(f, bs);
    } else {
      FeedFront(f, bs);
      if |bs| == 1 {
        NothingFed(Feed(f, bs[0]).filter, bs[1..]);
      } else if bs[0] != IAC {
        SubSkipped(f, bs[1..]);
      } else {
        var g := Feed(f, bs[0]).filter;
        FeedFront(g, bs[1..]);
        assert bs[1..][1..] == bs[2..];
        if bs[1] != SE {
          SubSkipped(f, bs[2..]);
        }
      }
    }
  }

  ghost predicate Means(f: Filter, bs: seq<Byte>) {
    && FeedAll(f, bs).data == Unpaired(DataOf(bs), f.sawCr)
    && FeedAll(f, bs).reply == AnswersTo(bs, f.saidEcho, f.saidSga)
  }

  lemma ShortMeans(f: Filter, bs: seq<Byte>)
    requires f.mode == Data && (bs == [] || bs == [IAC])
    ensures Means(f, bs)
  {
    hide FeedAll;
    NonePaired(f.sawCr);
    if bs == [] {
      NothingFed(f, bs);
    } else {
      FeedFront(f, bs);
      NothingFed(f.(mode := Command), bs[1..]);
    }
  }

  lemma DataMeans(f: Filter, bs: seq<Byte>)
    requires f.mode == Data && bs != [] && bs[0] != IAC && Means(Feed(f, bs[0]).filter, bs[1..])
    ensures Means(f, bs)
  {
    hide FeedAll, Unpaired;
    FeedFront(f, bs);
    UnpairedFirst(bs[0], DataOf(bs[1..]), f.sawCr);
    if |bs| == 1 {
      NothingFed(Feed(f, bs[0]).filter, bs[1..]);
    }
    var r := Feed(f, bs[0]);
    assert r.reply + AnswersTo(bs[1..], f.saidEcho, f.saidSga) == AnswersTo(bs[1..], f.saidEcho, f.saidSga);
  }

  lemma CommandMeans(f: Filter, bs: seq<Byte>)
    requires f.mode == Data && |bs| >= 2 && bs[0] == IAC && bs[1] != IAC && !(WILL <= bs[1] <= DONT)
    requires bs[1] == SB ==> Means(f, AfterSub(bs[2..]))
    requires bs[1] != SB ==> Means(f, bs[2..])
    ensures Means(f, bs)
  {
    hide FeedAll, Unpaired;
    FeedTwo(f, bs);
    var g := Feed(f.(mode := Command), bs[1]).filter;
    var r := FeedAll(g, bs[2..]);
    assert [] + r.data == r.data && [] + r.reply == r.reply;
    if bs[1] == SB {
      SubSkipped(g, bs[2..]);
      assert g.(mode := Data) == f;
    } else {
      assert g == f;
    }
  }

  lemma DoubledMeans(f: Filter, bs: seq<Byte>)
    requires f.mode == Data && |bs| >= 2 && bs[0] == IAC && bs[1] == IAC && Means(f.(sawCr := false), bs[2..])
    ensures Means(f, bs)
  {
    hide FeedAll, Unpaired;
    FeedTwo(f, bs);
    UnpairedFirst(255, DataOf(bs[2..]), f.sawCr);
    var r := FeedAll(f.(sawCr := false), bs[2..]);
    assert [] + r.reply == r.reply;
  }

  lemma OptionMeans(f: Filter, bs: seq<Byte>)
    requires f.mode == Data && |bs| >= 2 && bs[0] == IAC && WILL <= bs[1] <= DONT
    requires |bs| >= 3 ==> Means(Feed(f.(mode := Opt, verb := bs[1]), bs[2]).filter, bs[3..])
    ensures Means(f, bs)
  {
    hide FeedAll, Unpaired;
    FeedTwo(f, bs);
    var g := f.(mode := Opt, verb := bs[1]);
    if |bs| == 2 {
      NothingFed(g, bs[2..]);
      NonePaired(f.sawCr);
    } else {
      FeedFront(g, bs[2..]);
      assert bs[2..][1..] == bs[3..];
      var r, s := Feed(g, bs[2]), FeedAll(Feed(g, bs[2]).filter, bs[3..]);
      assert [] + ([] + s.data) == s.data && [] + (r.reply + s.reply) == r.reply + s.reply;
      VerbAndOption(f, bs[1], bs[2]);
    }
  }

  /** What a verb and its option come to. */
  lemma VerbAndOption(f: Filter, verb: Byte, opt: Byte)
    requires f.mode == Data && WILL <= verb <= DONT
    ensures var r := Feed(f.(mode := Opt, verb := verb), opt);
            && r.data == [] && r.filter.mode == Data && r.filter.sawCr == f.sawCr
            && r.filter.saidEcho == (f.saidEcho || (verb == 253 && opt == 1))
            && r.filter.saidSga == (f.saidSga || (verb == 253 && opt == 3))
            && r.reply == if verb == 253 && opt == 1 then (if f.saidEcho then [] else [255, 251, 1])
                          else if verb == 253 && opt == 3 then (if f.saidSga then [] else [255, 251, 3])
                          else if verb == 253 then [255, 252, opt]
                          else if verb == 251 then [255, if opt == 3 then 253 else 254, opt]
                          else []
  {
  }

  /**
   Whatever the client sends, the guest gets exactly the data of the stream less the second half of each CR pair, and
   the client exactly the answers to its commands, in order.
   */
  lemma {:induction false} StreamMeans(f: Filter, bs: seq<Byte>)
    requires f.mode == Data
    ensures FeedAll(f, bs).data == Unpaired(DataOf(bs), f.sawCr)
    ensures FeedAll(f, bs).reply == AnswersTo(bs, f.saidEcho, f.saidSga)
    decreases |bs|
  {
    hide FeedAll, Unpaired, DataOf, AnswersTo;
    if bs == [] || bs == [IAC] {
      ShortMeans(f, bs);
    } else if bs[0] != IAC {
      StreamMeans(Feed(f, bs[0]).filter, bs[1..]);
      DataMeans(f, bs);
    } else if bs[1] == IAC {
      StreamMeans(f.(sawCr := false), bs[2..]);
      DoubledMeans(f, bs);
    } else if WILL <= bs[1] <= DONT {
      if |bs| >= 3 {
        VerbAndOption(f, bs[1], bs[2]);
        StreamMeans(Feed(f.(mode := Opt, verb := bs[1]), bs[2]).filter, bs[3..]);
      }
      OptionMeans(f, bs);
    } else {
      if bs[1] == SB {
        StreamMeans(f, AfterSub(bs[2..]));
      } else {
        StreamMeans(f, bs[2..]);
      }
      CommandMeans(f, bs);
    }
  }

  /* ---- the session ---- */

  function Flat(batches: seq<seq<Byte>>): seq<Byte> {
    if batches == [] then [] else Flat(batches[..|batches| - 1]) + batches[|batches| - 1]
  }

  lemma FlatOneMore(batches: seq<seq<Byte>>, batch: seq<Byte>)
    ensures Flat(batches + [batch]) == Flat(batches) + batch
  {
    assert (batches + [batch])[..|batches|] == batches;
  }

  class Session {
    /** Client to guest, and guest to client. */
    const rx: Ring
    const tx: Ring
    var filter: Filter
    /** Everything handed to the socket. */
    var wire: seq<seq<Byte>>

    constructor ()
      ensures Valid() && fresh(rx) && fresh(tx) && fresh(rx.buf) && fresh(tx.buf)
      ensures rx.Contents() == [] && tx.Contents() == [] && filter == FRESH && wire == []
    {
      rx := new Ring(RX_SIZE);
      tx := new Ring(TX_SIZE);
      filter, wire := FRESH, [];
    }

    ghost predicate Valid()
      reads rx, tx
    {
      && rx.Valid() && tx.Valid() && rx != tx && rx.buf != tx.buf
      && rx.buf.Length == RX_SIZE && tx.buf.Length == TX_SIZE
    }

    /**
     The start of tn_serve: filter and rings as new, and the greeting, after which the guest's shell is made to print
     its prompt. A client that is gone by then gets no session.
     */
    method Start(takes: nat) returns (ok: bool, left: nat)
      requires Valid()
      modifies `filter, `wire, rx.buf, rx`tail, rx`head, tx`tail, tx`head
      ensures Valid() && filter == FRESH && wire == old(wire) + [[255, 251, 1, 255, 251, 3, 255, 253, 3]]
      ensures Flat(wire) == Flat(old(wire)) + HELLO
      ensures ok == (takes > 0) && left == (if ok then takes - 1 else 0)
      ensures tx.Contents() == [] && rx.Contents() == if ok then [13] else []
    {
      hide Window;
      filter := FRESH;
      tx.Reset();
      rx.Reset();
      ok, left := Send(HELLO, takes);
      if ok {
        var _ := rx.Put(CR);
      }
    }

    /** tn_rx_byte: the reply is appended to the rn bytes of reply before it. */
    method RxByte(b: Byte, reply: array<Byte>, rn: nat) returns (n: nat)
      requires Valid() && rn + 3 <= reply.Length && reply != rx.buf
      modifies `filter, rx.buf, rx`tail, reply
      ensures Valid()
      ensures var r := Feed(old(filter), b);
              && filter == r.filter && n == rn + |r.reply| && reply[..n] == old(reply[..rn]) + r.reply
              && rx.Contents() == if |old(rx.Contents())| < rx.buf.Length - 1 then old(rx.Contents()) + r.data
                                  else old(rx.Contents())
    {
      n := rn;
      var f := filter;
      match f.mode {
        case Data =>
          if b == IAC {
            filter := f.(mode := Command);
          } else if f.sawCr && (b == NUL || b == LF) {
            filter := f.(sawCr := false);
          } else {
            filter := f.(sawCr := b == CR);
            var _ := rx.Put(b);
          }
        case Command =>
          if b == IAC {
            filter := f.(mode := Data, sawCr := false);
            var _ := rx.Put(IAC);
          } else if b == WILL || b == WONT || b == DO || b == DONT {
            filter := f.(verb := b, mode := Opt);
          } else if b == SB {
            filter := f.(mode := Sub);
          } else {
            filter := f.(mode := Data);
          }
        case Opt =>
          filter := f.(mode := Data);
          if f.verb == DO {
            if b == OPT_ECHO && !f.saidEcho {
              filter := filter.(saidEcho := true);
              n := Answer(WILL, b, reply, rn);
            } else if b == OPT_SGA && !f.saidSga {
              filter := filter.(saidSga := true);
              n := Answer(WILL, b, reply, rn);
            } else if b != OPT_ECHO && b != OPT_SGA {
              n := Answer(WONT, b, reply, rn);
            }
          } else if f.verb == WILL {
            n := Answer(if b == OPT_SGA then DO else DONT, b, reply, rn);
          }
        case Sub =>
          if b == IAC {
            filter := f.(mode := SubCommand);
          }
        case SubCommand =>
          filter := f.(mode := if b == SE then Data else Sub);
      }
    }

    /** Three bytes more in the reply buffer. */
    method Answer(verb: Byte, opt: Byte, reply: array<Byte>, rn: nat) returns (n: nat)
      requires rn + 3 <= reply.Length
      modifies reply
      ensures n == rn + 3 && reply[..n] == old(reply[..rn]) + [IAC, verb, opt]
    {
      reply[rn], reply[rn + 1], reply[rn + 2] := IAC, verb, opt;
      n := rn + 3;
    }

    /** tn_send_all, with a socket that takes `left` batches more before the client is gone */
    method Send(batch: seq<Byte>, left: nat) returns (ok: bool, rest: nat)
      modifies `wire
      ensures wire == old(wire) + [batch] && Flat(wire) == Flat(old(wire)) + batch
      ensures ok == (left > 0) && rest == (if ok then left - 1 else 0)
    {
      FlatOneMore(wire, batch);
      wire := wire + [batch];
      return left > 0, if left > 0 then left - 1 else 0;
    }

    /** The guest takes up to n bytes of its input. */
    method GuestReads(n: nat) returns (ghost got: seq<Byte>)
      requires Valid()
      modifies rx`head
      ensures Valid() && old(rx.Contents()) == got + rx.Contents()
    {
      hide Window;
      got := [];
      assert rx.Contents() == got + rx.Contents();
      for i := 0 to n
        invariant Valid() && old(rx.Contents()) == got + rx.Contents()
      {
        var b := rx.Get();
        if b.None? {
          return;
        }
        assert got + ([b.value] + rx.Contents()) == got + [b.value] + rx.Contents();
        got := got + [b.value];
      }
    }

    /** The guest prints; what finds the ring full is dropped. */
    method GuestPrints(bs: seq<Byte>) returns (ghost kept: seq<Byte>)
      requires Valid()
      modifies tx.buf, tx`tail
      ensures Valid() && tx.Contents() == old(tx.Contents()) + kept && Thinned(kept, bs)
    {
      hide Window, Thinned;
      kept := [];
      NothingThinned();
      assert tx.Contents() == tx.Contents() + kept && bs[..0] == [];
      for i := 0 to |bs|
        invariant Valid() && tx.Contents() == old(tx.Contents()) + kept && Thinned(kept, bs[..i])
      {
        var ok := tx.Put(bs[i]);
        ThinnedOneMore(kept, bs[..i], bs[i]);
        assert bs[..i + 1] == bs[..i] + [bs[i]];
        if ok {
          assert old(tx.Contents()) + kept + [bs[i]] == old(tx.Contents()) + (kept + [bs[i]]);
          kept := kept + [bs[i]];
        }
      }
      assert bs[..|bs|] == bs;
    }

    /** One turn of the receive loop of tn_serve: answers are sent before their buffer can overrun */
    method ReceiveOne(b: Byte, reply: array<Byte>, rn: nat, left: nat) returns (ok: bool, n: nat, rest: nat)
      requires Valid() && reply.Length == REPLY_SIZE && rn <= REPLY_SIZE - 3 && reply != rx.buf
      modifies `filter, `wire, rx.buf, rx`tail, reply
      ensures Valid() && n <= REPLY_SIZE - 3 && old(wire) <= wire
      ensures |wire| + rest == |old(wire)| + left + (if ok then 0 else 1) && (!ok ==> rest == n == 0)
      ensures var r := Feed(old(filter), b);
              && filter == r.filter && Flat(wire) + reply[..n] == old(Flat(wire) + reply[..rn]) + r.reply
              && rx.Contents() == if |old(rx.Contents())| < rx.buf.Length - 1 then old(rx.Contents()) + r.data
                                  else old(rx.Contents())
    {
      hide Feed, Flat, Window;
      ok, rest := true, left;
      n := RxByte(b, reply, rn);
      if n > REPLY_SIZE - 3 {
        ok, rest := Send(reply[..n], left);
        n := 0;
        assert Flat(wire) + reply[..0] == Flat(wire);
      }
      assert old(Flat(wire)) + (old(reply[..rn]) + Feed(old(filter), b).reply) ==
             old(Flat(wire)) + old(reply[..rn]) + Feed(old(filter), b).reply;
    }

    /**
     The receive part of tn_serve: a segment through the filter while the guest takes guest(i) bytes of its input before
     byte i, and the socket takes `takes` batches more. What was fed is all of the segment unless a send fails; its
     answers were handed to the socket, and its data went to the guest in order, less what found the ring full.
     */
    method Receive(input: seq<Byte>, takes: nat, guest: nat -> nat)
      returns (ok: bool, fed: nat, ghost got: seq<Byte>, ghost kept: seq<Byte>)
      requires Valid()
      modifies `filter, `wire, rx.buf, rx`tail, rx`head
      ensures Valid() && fed <= |input| && (ok ==> fed == |input|)
      ensures filter == FeedAll(old(filter), input[..fed]).filter
      ensures old(wire) <= wire && (if ok then |wire| <= |old(wire)| + takes else |wire| == |old(wire)| + takes + 1)
      ensures Flat(wire) == Flat(old(wire)) + FeedAll(old(filter), input[..fed]).reply
      ensures got + rx.Contents() == old(rx.Contents()) + kept && Thinned(kept, FeedAll(old(filter), input[..fed]).data)
      ensures |old(rx.Contents())| + |FeedAll(old(filter), input[..fed]).data| < rx.buf.Length ==>
                kept == FeedAll(old(filter), input[..fed]).data
    {
      hide FeedAll, Flat, Along;
      var reply := new Byte[REPLY_SIZE];
      var rn: nat, left := 0, takes;
      ghost var f, in0, sent, w0 := filter, rx.Contents(), Flat(wire), wire;
      fed, got, kept, ok := 0, [], [], true;
      StartsAlong(input);
      assert Flat(wire) + reply[..0] == sent + [];
      while fed < |input| && ok
        invariant 0 <= fed <= |input| && rn <= REPLY_SIZE - 3 && w0 <= wire && Along(f, in0, input, fed, got, kept)
        invariant |wire| + left == |w0| + takes + (if ok then 0 else 1) && (!ok ==> left == rn == 0)
        invariant Flat(wire) + reply[..rn] == sent + FeedAll(f, input[..fed]).reply
        decreases |input| - fed
      {
        ok, rn, left, got, kept := ReceiveNext(input, fed, guest(fed), reply, rn, left, f, in0, got, kept, sent);
        fed := fed + 1;
      }
      ok, left := SendRest(ok, reply, rn, left);
      AlongMeans(f, in0, input, fed, got, kept);
    }

    /** The answers still in the buffer */
    method SendRest(fine: bool, reply: array<Byte>, rn: nat, left: nat) returns (ok: bool, rest: nat)
      requires rn <= reply.Length && (!fine ==> left == rn == 0)
      modifies `wire
      ensures old(wire) <= wire && Flat(wire) == Flat(old(wire)) + reply[..rn]
      ensures |wire| + rest == |old(wire)| + left + (if fine && !ok then 1 else 0)
      ensures (ok ==> fine) && (!ok ==> rest == 0)
    {
      hide Flat;
      ok, rest := fine, left;
      if ok && rn != 0 {
        ok, rest := Send(reply[..rn], left);
      } else {
        assert Flat(wire) + reply[..0] == Flat(wire);
      }
    }

    /** How far a segment has gone: what it fed the filter, and what of its data the guest got or will get. */
    ghost predicate Along(f: Filter, in0: seq<Byte>, input: seq<Byte>, fed: nat, got: seq<Byte>, kept: seq<Byte>)
      reads `filter, rx, tx, rx.buf
    {
      && Valid() && fed <= |input| && filter == FeedAll(f, input[..fed]).filter
      && got + rx.Contents() == in0 + kept && Thinned(kept, FeedAll(f, input[..fed]).data)
      && (|in0| + |FeedAll(f, input[..fed]).data| < rx.buf.Length ==> kept == FeedAll(f, input[..fed]).data)
    }

    lemma StartsAlong(input: seq<Byte>)
      requires Valid()
      ensures Along(filter, rx.Contents(), input, 0, [], []) && FeedAll(filter, input[..0]).reply == []
    {
      NothingFed(filter, input[..0]);
      NothingThinned();
      assert [] + rx.Contents() == rx.Contents() + [];
    }

    lemma AlongMeans(f: Filter, in0: seq<Byte>, input: seq<Byte>, fed: nat, got: seq<Byte>, kept: seq<Byte>)
      requires Along(f, in0, input, fed, got, kept)
      ensures Valid() && fed <= |input| && filter == FeedAll(f, input[..fed]).filter
      ensures got + rx.Contents() == in0 + kept && Thinned(kept, FeedAll(f, input[..fed]).data)
      ensures |in0| + |FeedAll(f, input[..fed]).data| < rx.buf.Length ==> kept == FeedAll(f, input[..fed]).data
    {
    }

    /** The guest reads, and then the next byte of the segment is fed. */
    method ReceiveNext(input: seq<Byte>, fed: nat, n: nat, reply: array<Byte>, rn: nat, left: nat, ghost f: Filter,
                       ghost in0: seq<Byte>, ghost got0: seq<Byte>, ghost kept0: seq<Byte>, ghost sent: seq<Byte>)
      returns (ok: bool, end: nat, rest: nat, ghost got: seq<Byte>, ghost kept: seq<Byte>)
      requires fed < |input| && Along(f, in0, input, fed, got0, kept0)
      requires reply.Length == REPLY_SIZE && rn <= REPLY_SIZE - 3 && reply != rx.buf
      requires Flat(wire) + reply[..rn] == sent + FeedAll(f, input[..fed]).reply
      modifies `filter, `wire, rx.buf, rx`tail, rx`head, reply
      ensures Along(f, in0, input, fed + 1, got, kept) && end <= REPLY_SIZE - 3 && old(wire) <= wire
      ensures |wire| + rest == |old(wire)| + left + (if ok then 0 else 1) && (!ok ==> rest == end == 0)
      ensures Flat(wire) + reply[..end] == sent + FeedAll(f, input[..fed + 1]).reply
    {
      hide Feed, FeedAll, Flat, Window, Thinned;
      ghost var more := GuestReads(n);
      assert got0 + (more + rx.Contents()) == got0 + more + rx.Contents();
      got := got0 + more;
      ghost var before, r, held := FeedAll(f, input[..fed]), Feed(filter, input[fed]), rx.Contents();
      FedOneMore(f, input, fed);
      FedAtMostOne(filter, input[fed]);
      ok, end, rest := ReceiveOne(input[fed], reply, rn, left);
      assert sent + before.reply + r.reply == sent + (before.reply + r.reply);
      ThinnedByOne(kept0, before.data, r.data);
      KeptByOne(got, held, in0, kept0, r.data);
      kept := if |held| < rx.buf.Length - 1 then kept0 + r.data else kept0;
    }

    /** The inner loop of tn_flush: a batch that fits its buffer, with room for the second half of a doubled byte */
    method Batch() returns (out: seq<Byte>, ghost taken: seq<Byte>)
      requires Valid()
      modifies tx`head
      ensures Valid() && old(tx.Contents()) == taken + tx.Contents()
      ensures out == Escape(taken) && |out| <= OUT_SIZE && (out == [] ==> tx.Contents() == [])
    {
      hide Window, Escape;
      NothingEscaped();
      out, taken := [], [];
      assert tx.Contents() == taken + tx.Contents();
      while |out| < OUT_SIZE - 1
        invariant Valid() && old(tx.Contents()) == taken + tx.Contents()
        invariant out == Escape(taken) && |taken| <= |out| <= OUT_SIZE
        decreases OUT_SIZE - |out|
      {
        ghost var rest := tx.Contents();
        var c := tx.Get();
        if c.None? {
          break;
        }
        EscapeOneMore(taken, c.value);
        assert taken + ([c.value] + tx.Contents()) == taken + [c.value] + tx.Contents();
        out := out + [c.value];
        if c.value == IAC {
          out := out + [IAC];
        }
        taken := taken + [c.value];
      }
    }

    /**
     tn_flush, with a socket that takes `takes` batches more before the client is gone, while the guest prints: guest(i)
     after batch i. What was handed to the socket, a last batch that failed included, is the escape of what left the
     ring, and that and what is still there are what was there before and what the guest's prints put in.
     */
    method Flush(takes: nat, guest: nat -> seq<Byte>) returns (ok: bool, ghost taken: seq<Byte>, ghost put: seq<Byte>)
      requires Valid()
      modifies tx`head, tx`tail, tx.buf, `wire
      ensures Valid() && old(tx.Contents()) + put == taken + tx.Contents()
      ensures old(wire) <= wire && Flat(wire) == Flat(old(wire)) + Escape(taken)
      ensures ok ==> tx.Contents() == [] && |wire| <= |old(wire)| + takes
      ensures !ok ==> |wire| == |old(wire)| + takes + 1
      ensures Thinned(put, Printed(guest, |wire| - |old(wire)|))
    {
      hide Escape, Flat, Window, Thinned;
      ghost var tx0, w0 := tx.Contents(), wire;
      taken, put := [], [];
      NothingEscaped();
      NothingThinned();
      var left, sends := takes, 0;
      assert Flat(wire) + [] == Flat(wire) && taken + tx.Contents() == tx.Contents() + put;
      while true
        invariant Valid() && tx0 + put == taken + tx.Contents()
        invariant w0 <= wire && Flat(wire) == Flat(w0) + Escape(taken) && |wire| == |w0| + sends && sends + left == takes
        invariant Thinned(put, Printed(guest, sends))
        decreases left
      {
        var out: seq<Byte>;
        ghost var some: seq<Byte>;
        ghost var before := tx.Contents();
        out, some := Batch();
        if out == [] {
          NothingTaken(some);
          assert taken + before == taken + tx.Contents();
          return true, taken, put;
        }
        EscapeJoin(taken, some);
        assert Flat(w0) + Escape(taken) + out == Flat(w0) + (Escape(taken) + out);
        assert taken + (some + tx.Contents()) == taken + some + tx.Contents();
        taken := taken + some;
        ok, left := Send(out, left);
        ghost var kept := GuestPrints(guest(sends));
        assert tx0 + put + kept == tx0 + (put + kept);
        ThinnedJoin(put, Printed(guest, sends), kept, guest(sends));
        put, sends := put + kept, sends + 1;
        if !ok {
          return;
        }
      }
    }
  }

  /** What the guest prints while n batches are sent. */
  function Printed(prints: nat -> seq<Byte>, n: nat): seq<Byte> {
    if n == 0 then [] else Printed(prints, n - 1) + prints(n - 1)
  }

  /** kept is all in order, less some bytes. */
  ghost predicate Thinned(kept: seq<Byte>, all: seq<Byte>) {
    if all == [] then kept == []
    else
      var n, k := |all| - 1, |kept| - 1;
      Thinned(kept, all[..n]) || (kept != [] && kept[k] == all[n] && Thinned(kept[..k], all[..n]))
  }

  lemma NothingThinned()
    ensures Thinned([], [])
  {
  }

  lemma ThinnedOneMore(kept: seq<Byte>, all: seq<Byte>, b: Byte)
    requires Thinned(kept, all)
    ensures Thinned(kept, all + [b]) && Thinned(kept + [b], all + [b])
  {
    assert (all + [b])[..|all|] == all && (kept + [b])[..|kept|] == kept;
  }

  lemma ThinnedByOne(kept: seq<Byte>, all: seq<Byte>, more: seq<Byte>)
    requires Thinned(kept, all) && |more| <= 1
    ensures Thinned(kept, all + more) && Thinned(kept + more, all + more)
  {
    if more == [] {
      assert all + more == all && kept + more == kept;
    } else {
      assert more == [more[0]];
      ThinnedOneMore(kept, all, more[0]);
    }
  }

  lemma KeptByOne(got: seq<Byte>, held: seq<Byte>, in0: seq<Byte>, kept: seq<Byte>, more: seq<Byte>)
    requires got + held == in0 + kept
    ensures got + (held + more) == in0 + (kept + more)
  {
    assert got + (held + more) == got + held + more && in0 + (kept + more) == in0 + kept + more;
  }

  lemma {:induction false} ThinnedJoin(k1: seq<Byte>, a1: seq<Byte>, k2: seq<Byte>, a2: seq<Byte>)
    requires Thinned(k1, a1) && Thinned(k2, a2)
    ensures Thinned(k1 + k2, a1 + a2)
    decreases |a2|
  {
    if a2 == [] {
      assert k1 + k2 == k1 && a1 + a2 == a1;
    } else {
      var n, k := |a2| - 1, |k2| - 1;
      assert a1 + a2 == a1 + a2[..n] + [a2[n]];
      if Thinned(k2, a2[..n]) {
        ThinnedJoin(k1, a1, k2, a2[..n]);
        ThinnedOneMore(k1 + k2, a1 + a2[..n], a2[n]);
      } else {
        ThinnedJoin(k1, a1, k2[..k], a2[..n]);
        ThinnedOneMore(k1 + k2[..k], a1 + a2[..n], a2[n]);
        assert k1 + k2 == k1 + k2[..k] + [a2[n]];
      }
    }
  }

  lemma FedAtMostOne(f: Filter, b: Byte)
    ensures |Feed(f, b).data| <= 1
  {
  }

  lemma NothingFed(f: Filter, bs: seq<Byte>)
    requires bs == []
    ensures FeedAll(f, bs) == Quiet(f, [])
  {
  }

  lemma NothingEscaped()
    ensures Escape([]) == []
  {
  }

  lemma NothingTaken(bs: seq<Byte>)
    requires Escape(bs) == []
    ensures bs == []
  {
  }

  lemma FedOneMore(f: Filter, bs: seq<Byte>, i: nat)
    requires i < |bs|
    ensures var before := FeedAll(f, bs[..i]);
            var r := Feed(before.filter, bs[i]);
            FeedAll(f, bs[..i + 1]) == Fed(r.filter, before.data + r.data, before.reply + r.reply)
  {
    assert bs[..i + 1] == bs[..i] + [bs[i]];
    FeedOneMore(f, bs[..i], bs[i]);
  }
}
