/**
 A framed receiver on a mixed stream: records, each in any tolerable encoding,
 with Telnet commands between them.
 */
module HandlerStream {
  import opened Bytes
  import opened Telnet
  import opened HandlerSpec
  import opened HandlerFraming
  import Agreement
  import Gds

  /** A non-empty record as the tokens a sender chose for its bytes, or a command between records. */
  datatype Item = Record(ts: seq<Token>) | Control(e: Elem)

  /**
   A record must be tolerable; a command must be well-formed, with no 0xFF in a
   subnegotiation, which would open the next record.
   */
  predicate Sendable(item: Item) {
    match item
    case Record(ts) => ts != [] && Tolerable(ts, true)
    case Control(e) => WellFormed(e) && !e.AppByte? && (e.Subnegotiated? ==> IAC !in e.data)
  }

  function ItemWire(item: Item): seq<byte> {
    match item
    case Record(ts) => Wire(ts) + [IAC, EOR]
    case Control(e) => Print(e)
  }

  function ItemBlocks(item: Item): seq<seq<byte>> {
    match item
    case Record(ts) => [Gds.Repair(Data(ts))]
    case Control(_) => []
  }

  /** Framed, with no record in progress. */
  predicate Between(c: Core) {
    Framed(c) && c.record == []
  }

  lemma EmitMute(c: Core, e: Event)
    requires BlockEvent(e) == []
    ensures Blocks(Emit(c, e).trace) == Blocks(c.trace)
  {
    EmitBlocks(c.trace, e);
    assert Blocks(c.trace) + [] == Blocks(c.trace);
  }

  lemma HandleOptionMute(c: Core, cmd: byte, opt: byte)
    requires Framed(c)
    ensures var d := HandleOption(c, cmd, opt);
            Framed(d) && d.record == c.record && Blocks(d.trace) == Blocks(c.trace)
  {
    hide Blocks, Reply, CheckComplete;
    var reply := Reply(cmd, opt);
    EmitMute(c, OnSendBytes([IAC, reply, opt]));
    var d := Send(c, reply, opt);
    CheckCompleteWhenFraming(d.(binary := true));
    CheckCompleteWhenFraming(d.(eor := true));
  }

  lemma HandleSubnegotiationMute(c: Core)
    requires Framed(c)
    ensures var d := HandleSubnegotiation(c);
            Framed(d) && d.record == c.record && Blocks(d.trace) == Blocks(c.trace)
  {
    hide Blocks, CheckComplete, ScanSeed;
    var d := Emit(c, Handled(c.subOpt, c.sub));
    EmitMute(c, Handled(c.subOpt, c.sub));
    EmitMute(d, SentDeviceName);
    CheckCompleteWhenFraming(Emit(d, SentDeviceName).(termSent := true, binary := true));
    var e := if d.sub != [] && d.sub[0] == 0x01 then d.(serverSeed := ScanSeed(d.sub[1..], [])) else d;
    EmitMute(e, SentNewEnviron(e.serverSeed));
  }

  /** A token that carries no data delivers nothing between records. */
  lemma ApplyMute(c: Core, t: Token)
    requires Between(c) && AppOf(t) == []
    ensures var d := Apply(c, t); Between(d) && Blocks(d.trace) == Blocks(c.trace)
  {
    hide Blocks, HandleOption, HandleSubnegotiation;
    var d := Emit(c, Lexed(t));
    EmitMute(c, Lexed(t));
    match t
    case SubByte(b) =>
    case Standalone(cmd) =>
      assert [] + d.record == d.record;
      HandleSubnegotiationMute(d);
    case Option(cmd, opt) => HandleOptionMute(d, cmd, opt);
  }

  /** One token between records. */
  lemma DrainMute(t: Token, rest: seq<byte>, c: Core) returns (d: Core)
    requires Between(c) && AppOf(t) == [] && LexAt(WireOf(t) + rest, c) == Lexeme(t)
    ensures Drain(WireOf(t) + rest, c) == Drain(rest, d)
    ensures Between(d) && Blocks(d.trace) == Blocks(c.trace)
    ensures Agreement.ScannerOf(d) == Agreement.Scan(Agreement.ScannerOf(c), t)
  {
    hide Drain, LexAt, Apply, Between, Blocks;
    DrainToken(t, rest, c);
    ApplyMute(c, t);
    Agreement.ApplyScans(c, t);
    d := Apply(c, t);
  }

  lemma {:induction false} DrainSubBytes(data: seq<byte>, rest: seq<byte>, c: Core) returns (d: Core)
    requires Between(c) && c.inSub && IAC !in data
    ensures Drain(data + rest, c) == Drain(rest, d)
    ensures Between(d) && d.inSub && Blocks(d.trace) == Blocks(c.trace)
    decreases |data|
  {
    hide Drain, Between, Blocks;
    if data == [] {
      d := c;
      assert data + rest == rest;
    } else {
      var t := SubByte(data[0]);
      assert data[0] in data && data + rest == WireOf(t) + (data[1..] + rest);
      assert LexAt(WireOf(t) + (data[1..] + rest), c) == Lexeme(t);
      var e := DrainMute(t, data[1..] + rest, c);
      assert Agreement.ScannerOf(e).inSub;
      d := DrainSubBytes(data[1..], rest, e);
    }
  }

  lemma {:induction false} EscapePlain(data: seq<byte>)
    requires IAC !in data
    ensures Escape(data) == data
  {
    if data != [] {
      assert data[|data| - 1] in data && forall b | b in data[..|data| - 1] :: b in data;
      EscapePlain(data[..|data| - 1]);
    }
  }

  lemma LexSub(opt: byte, rest: seq<byte>, c: Core)
    ensures Between(c) && !c.inSub ==> LexAt(WireOf(Option(SB, opt)) + rest, c) == Lexeme(Option(SB, opt))
    ensures c.inSub ==> LexAt(WireOf(Standalone(SE)) + rest, c) == Lexeme(Standalone(SE))
  {
  }

  lemma DrainSub(opt: byte, data: seq<byte>, rest: seq<byte>, c: Core) returns (d: Core)
    requires Between(c) && !c.inSub && IAC !in data
    ensures Drain(Print(Subnegotiated(opt, data)) + rest, c) == Drain(rest, d)
    ensures Between(d) && !d.inSub && Blocks(d.trace) == Blocks(c.trace)
  {
    hide Drain, LexAt, Between, Blocks, Escape, FlatMap;
    EscapePlain(data);
    var tail := data + ([IAC, SE] + rest);
    assert Print(Subnegotiated(opt, data)) + rest == [IAC, SB, opt] + tail;
    LexSub(opt, tail, c);
    var c1 := DrainMute(Option(SB, opt), tail, c);
    assert Agreement.ScannerOf(c1).inSub;
    var c2 := DrainSubBytes(data, [IAC, SE] + rest, c1);
    LexSub(opt, rest, c2);
    d := DrainMute(Standalone(SE), rest, c2);
    assert !Agreement.ScannerOf(d).inSub;
  }

  lemma LexControl(e: Elem, rest: seq<byte>, c: Core)
    requires Between(c) && !c.inSub && WellFormed(e) && (e.Negotiated? || e.Command?)
    ensures var t := Agreement.ElemToken(e);
            WireOf(t) == Print(e) && AppOf(t) == [] && LexAt(Print(e) + rest, c) == Lexeme(t)
            && Agreement.Scan(Agreement.ScannerOf(c), t).inSub == false
  {
  }

  lemma DrainItem(item: Item, rest: seq<byte>, c: Core) returns (d: Core)
    requires Between(c) && !c.inSub && Sendable(item)
    ensures Drain(ItemWire(item) + rest, c) == Drain(rest, d)
    ensures Between(d) && !d.inSub && Blocks(d.trace) == Blocks(c.trace) + ItemBlocks(item)
  {
    match item
    case Record(ts) =>
      d := DrainRecord(ts, rest, c);
    case Control(e) =>
      hide Drain, LexAt, Between, Blocks, Print;
      if e.Subnegotiated? {
        d := DrainSub(e.opt, e.data, rest, c);
      } else {
        LexControl(e, rest, c);
        d := DrainMute(Agreement.ElemToken(e), rest, c);
        assert !Agreement.ScannerOf(d).inSub;
      }
      assert Blocks(c.trace) + [] == Blocks(c.trace);
  }

  lemma {:induction false} DrainItems(items: seq<Item>, rest: seq<byte>, c: Core) returns (d: Core)
    requires Between(c) && !c.inSub && forall item | item in items :: Sendable(item)
    ensures Drain(FlatMap(ItemWire, items) + rest, c) == Drain(rest, d)
    ensures Between(d) && !d.inSub && Blocks(d.trace) == Blocks(c.trace) + FlatMap(ItemBlocks, items)
  {
    hide Drain, Between, Blocks, ItemWire, ItemBlocks, Sendable;
    if items == [] {
      d := c;
      assert FlatMap(ItemWire, items) + rest == rest && Blocks(c.trace) + [] == Blocks(c.trace);
    } else {
      var front, item := items[..|items| - 1], items[|items| - 1];
      assert item in items && forall i | i in front :: i in items;
      assert FlatMap(ItemWire, items) == FlatMap(ItemWire, front) + ItemWire(item);
      assert FlatMap(ItemBlocks, items) == FlatMap(ItemBlocks, front) + ItemBlocks(item);
      hide FlatMap;
      var e := DrainItems(front, ItemWire(item) + rest, c);
      assert FlatMap(ItemWire, items) + rest == FlatMap(ItemWire, front) + (ItemWire(item) + rest);
      d := DrainItem(item, rest, e);
      assert Blocks(c.trace) + FlatMap(ItemBlocks, front) + ItemBlocks(item)
          == Blocks(c.trace) + (FlatMap(ItemBlocks, front) + ItemBlocks(item));
    }
  }

  /**
   Records survive the commands between them: from any interleaving of
   tolerably encoded records and well-formed commands, cut into reads anywhere,
   a framed receiver delivers exactly the records, repaired, one each and in
   order, and is ready for more.
   */
  lemma RecordsAmongCommands(h: Handler, items: seq<Item>, chunks: seq<seq<byte>>)
    requires h.rx == [] && Ready(h.core) && h.core.record == []
    requires forall item | item in items :: Sendable(item)
    requires Concat(chunks) == FlatMap(ItemWire, items)
    ensures var g := ReceiveAll(h, chunks);
            && Blocks(g.core.trace) == Blocks(h.core.trace) + FlatMap(ItemBlocks, items)
            && g.rx == [] && Ready(g.core) && g.core.record == []
  {
    hide Drain, Blocks, FlatMap, Receive, Sendable;
    ChunkIndependence(h, chunks);
    ReceiveFramed(h, Concat(chunks));
    var d := DrainItems(items, [], h.core);
    assert h.rx + Concat(chunks) == FlatMap(ItemWire, items) + [];
    DrainNothing(d);
  }
}
