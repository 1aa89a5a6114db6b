/**
 The framed receiver: it does not matter how TCP cuts the stream, undoubled
 0xFF bytes are tolerated, and whatever `sendGDS` prints is recovered.
 */
module HandlerFraming {
  import opened Bytes
  import opened Telnet
  import opened HandlerSpec
  import Gds

  function BlockEvent(e: Event): seq<seq<byte>> {
    if e.OnDataReceived? then [e.block] else []
  }

  /** The blocks handed to the application so far. */
  function Blocks(trace: seq<Event>): seq<seq<byte>> {
    FlatMap(BlockEvent, trace)
  }

  /** Every application byte goes to the record buffer. */
  predicate Framed(c: Core) {
    c.Framing() && c.processed == []
  }

  /** Framed, and outside a subnegotiation. */
  predicate Ready(c: Core) {
    Framed(c) && !c.inSub
  }

  /** No complete token is waiting in the receive buffer. */
  predicate Drained(h: Handler) {
    LexAt(h.rx, h.core).Incomplete?
  }

  /** More input never changes the token at the head of the buffer. */
  lemma LexStable(rx: seq<byte>, more: seq<byte>, c: Core)
    requires LexAt(rx, c).Lexeme?
    ensures LexAt(rx + more, c) == LexAt(rx, c)
  {
    assert (rx + more)[..|rx|] == rx;
  }

  /** Draining can be interrupted anywhere. */
  lemma {:induction false} DrainAppend(rx: seq<byte>, more: seq<byte>, c: Core)
    ensures var h := Drain(rx, c); Drain(rx + more, c) == Drain(h.rx + more, h.core)
    decreases |rx|
  {
    hide Drain, LexAt, Apply;
    DrainStep(rx, c);
    if LexAt(rx, c).Lexeme? {
      LexStable(rx, more, c);
      LexBound(rx, c);
      DrainStep(rx + more, c);
      var t := LexAt(rx, c).t;
      var n := |WireOf(t)|;
      DrainAppend(rx[n..], more, Apply(c, t));
      assert (rx + more)[n..] == rx[n..] + more;
    }
  }

  lemma LexBound(rx: seq<byte>, c: Core)
    requires LexAt(rx, c).Lexeme?
    ensures 0 < |WireOf(LexAt(rx, c).t)| <= |rx|
  {
  }

  lemma CheckCompleteWhenFraming(c: Core)
    requires c.complete
    ensures CheckComplete(c) == c
  {
  }

  lemma ApplyKeepsFramed(c: Core, t: Token)
    requires Framed(c)
    ensures Framed(Apply(c, t))
  {
    hide ScanSeed, Gds.Repair;
    match t
    case Plain(b) =>
    case Doubled =>
    case Bare =>
    case SubByte(b) =>
    case Standalone(cmd) => StandaloneKeepsFramed(Emit(c, Lexed(t)), cmd);
    case Option(cmd, opt) =>
  }

  lemma StandaloneKeepsFramed(c: Core, cmd: byte)
    requires Framed(c)
    ensures Framed(HandleStandalone(c, cmd))
  {
    hide ScanSeed, Gds.Repair;
  }

  lemma {:induction false} DrainKeepsFramed(rx: seq<byte>, c: Core)
    requires Framed(c)
    ensures Framed(Drain(rx, c).core)
    decreases |rx|
  {
    hide Drain, LexAt, Apply, Framed;
    DrainStep(rx, c);
    if LexAt(rx, c).Lexeme? {
      LexBound(rx, c);
      ApplyKeepsFramed(c, LexAt(rx, c).t);
      DrainKeepsFramed(rx[|WireOf(LexAt(rx, c).t)|..], Apply(c, LexAt(rx, c).t));
    }
  }

  /** A framed read is nothing but draining. */
  lemma ReceiveFramed(h: Handler, data: seq<byte>)
    requires Framed(h.core)
    ensures Receive(h, data) == Drain(h.rx + data, h.core) && Framed(Receive(h, data).core)
  {
    hide Drain;
    assert h.core.(processed := []) == h.core;
    DrainKeepsFramed(h.rx + data, h.core);
  }

  lemma ReceiveTwo(h: Handler, a: seq<byte>, b: seq<byte>)
    requires Framed(h.core)
    ensures Receive(Receive(h, a), b) == Receive(h, a + b)
  {
    hide Drain, Receive;
    ReceiveFramed(h, a);
    ReceiveFramed(Receive(h, a), b);
    ReceiveFramed(h, a + b);
    DrainAppend(h.rx + a, b, h.core);
    assert h.rx + a + b == h.rx + (a + b);
  }

  /**
   Chunk independence of the framed receiver: every field, the unread tail and
   the whole history come out the same as from one read.
   */
  lemma {:induction false} ChunkIndependence(h: Handler, chunks: seq<seq<byte>>)
    requires Framed(h.core) && Drained(h)
    ensures ReceiveAll(h, chunks) == Receive(h, Concat(chunks))
    ensures Framed(ReceiveAll(h, chunks).core)
  {
    hide Receive;
    ReceiveFramed(h, Concat(chunks));
    if chunks == [] {
      assert h.rx + Concat(chunks) == h.rx;
    } else {
      var front, last := chunks[..|chunks| - 1], chunks[|chunks| - 1];
      ChunkIndependence(h, front);
      ReceiveTwo(h, Concat(front), last);
    }
  }

  /** One step of a drain whose next token is known. */
  lemma DrainToken(t: Token, rest: seq<byte>, c: Core)
    requires LexAt(WireOf(t) + rest, c) == Lexeme(t)
    ensures Drain(WireOf(t) + rest, c) == Drain(rest, Apply(c, t))
  {
    hide Drain, LexAt, Apply, WireOf;
    DrainStep(WireOf(t) + rest, c);
    assert (WireOf(t) + rest)[|WireOf(t)|..] == rest;
  }

  /** The data tokens a sender may use for the bytes of a record. */
  predicate DataToken(t: Token) {
    (t.Plain? && t.b != IAC) || t.Doubled? || t.Bare?
  }

  /**
   A sender may leave a 0xFF undoubled if a plain byte other than IAC EOR's
   second half follows it and, at the start of a record, a byte below it.
   */
  predicate TolerableAt(ts: seq<Token>, k: nat, atStart: bool)
    requires k < |ts|
  {
    DataToken(ts[k]) &&
    (ts[k].Bare? ==>
       k + 1 < |ts| && ts[k + 1].Plain? && ts[k + 1].b != EOR && (k == 0 && atStart ==> ts[k + 1].b < EOR))
  }

  predicate Tolerable(ts: seq<Token>, atStart: bool) {
    forall k :: 0 <= k < |ts| ==> TolerableAt(ts, k, atStart)
  }

  lemma TolerableTail(ts: seq<Token>, atStart: bool)
    requires ts != [] && Tolerable(ts, atStart)
    ensures Tolerable(ts[1..], false)
  {
    forall k | 0 <= k < |ts| - 1
      ensures TolerableAt(ts[1..], k, false)
    {
      assert TolerableAt(ts, k + 1, atStart);
    }
  }

  function Wire(ts: seq<Token>): seq<byte> {
    FlatMap(WireOf, ts)
  }

  function Data(ts: seq<Token>): seq<byte> {
    FlatMap(AppOf, ts)
  }

  lemma WireCons(ts: seq<Token>)
    requires ts != []
    ensures Wire(ts) == WireOf(ts[0]) + Wire(ts[1..])
    ensures Data(ts) == AppOf(ts[0]) + Data(ts[1..])
  {
    hide FlatMap;
    FlatMapCons(WireOf, ts);
    FlatMapCons(AppOf, ts);
  }

  lemma LexData(ts: seq<Token>, rest: seq<byte>, c: Core)
    requires Ready(c) && ts != [] && TolerableAt(ts, 0, c.record == []) && (ts[0].Bare? ==> DataToken(ts[1]))
    ensures LexAt(WireOf(ts[0]) + (Wire(ts[1..]) + rest), c) == Lexeme(ts[0])
  {
    hide FlatMap;
    if ts[0].Bare? {
      WireCons(ts[1..]);
    }
  }

  lemma EmitBlocks(trace: seq<Event>, e: Event)
    ensures Blocks(trace + [e]) == Blocks(trace) + BlockEvent(e)
  {
    FlatMapSnoc(BlockEvent, trace, e);
  }

  lemma ApplyData(c: Core, t: Token)
    requires Ready(c) && DataToken(t)
    ensures var d := Apply(c, t);
            Ready(d) && d.record == c.record + AppOf(t) && Blocks(d.trace) == Blocks(c.trace)
  {
    hide Blocks;
    EmitBlocks(c.trace, Lexed(t));
    EmitBlocks(c.trace + [Lexed(t)], OnLog);
    assert c.record + [] == c.record;
  }

  /** One byte of a record, tolerably encoded. */
  lemma DrainDatum(ts: seq<Token>, rest: seq<byte>, c: Core)
    requires Ready(c) && ts != [] && TolerableAt(ts, 0, c.record == []) && (ts[0].Bare? ==> DataToken(ts[1]))
    ensures var d := Apply(c, ts[0]);
            && Drain(Wire(ts) + rest, c) == Drain(Wire(ts[1..]) + rest, d)
            && Ready(d) && d.record == c.record + AppOf(ts[0]) && |AppOf(ts[0])| == 1
            && Blocks(d.trace) == Blocks(c.trace)
  {
    LexData(ts, rest, c);
    ApplyData(c, ts[0]);
    assert |AppOf(ts[0])| == 1;
    hide Drain, LexAt, Apply, Blocks, Wire, Ready, Tolerable, WireOf, AppOf;
    WireCons(ts);
    assert Wire(ts) + rest == WireOf(ts[0]) + (Wire(ts[1..]) + rest);
    DrainToken(ts[0], Wire(ts[1..]) + rest, c);
  }

  /** Tolerable data is collected byte for byte. */
  lemma {:induction false} DrainData(ts: seq<Token>, rest: seq<byte>, c: Core) returns (d: Core)
    requires Ready(c) && Tolerable(ts, c.record == [])
    ensures Drain(Wire(ts) + rest, c) == Drain(rest, d)
    ensures Ready(d) && d.record == c.record + Data(ts) && Blocks(d.trace) == Blocks(c.trace)
    decreases |ts|
  {
    hide Drain, Apply, Blocks, Ready;
    if ts == [] {
      d := c;
      assert Wire(ts) + rest == rest && c.record + Data(ts) == c.record;
    } else {
      hide Wire, Data, AppOf, FlatMap;
      assert TolerableAt(ts, 0, c.record == []) && (ts[0].Bare? ==> TolerableAt(ts, 1, c.record == []));
      TolerableTail(ts, c.record == []);
      DrainDatum(ts, rest, c);
      d := DrainData(ts[1..], rest, Apply(c, ts[0]));
      WireCons(ts);
      assert c.record + AppOf(ts[0]) + Data(ts[1..]) == c.record + (AppOf(ts[0]) + Data(ts[1..]));
    }
  }

  lemma FlushBlocks(c: Core)
    requires c.record != []
    ensures var d := FlushRecord(c);
            && d == c.(record := [], trace := d.trace)
            && Blocks(d.trace) == Blocks(c.trace) + [Gds.Repair(c.record)]
  {
    hide Blocks, Gds.Repair;
    var block := Gds.Repair(c.record);
    EmitBlocks(c.trace, OnLog);
    EmitBlocks(c.trace + [OnLog], OnDataReceived(c.record, block));
    EmitBlocks(c.trace, OnDataReceived(c.record, block));
  }

  lemma ApplyEor(c: Core)
    requires Ready(c) && c.record != []
    ensures var d := Apply(c, Standalone(EOR));
            Ready(d) && d.record == [] && Blocks(d.trace) == Blocks(c.trace) + [Gds.Repair(c.record)]
  {
    hide Blocks, Gds.Repair, FlushRecord;
    var c1 := Emit(c, Lexed(Standalone(EOR)));
    EmitBlocks(c.trace, Lexed(Standalone(EOR)));
    assert [] + c.record == c.record;
    FlushBlocks(c1.(record := c.record, processed := []));
  }

  lemma LexEor(rest: seq<byte>, c: Core)
    requires Ready(c)
    ensures LexAt([IAC, EOR] + rest, c) == Lexeme(Standalone(EOR))
  {
  }

  /** One record and its IAC EOR become one delivery. */
  lemma DrainRecord(ts: seq<Token>, rest: seq<byte>, c: Core) returns (d: Core)
    requires Ready(c) && c.record == [] && ts != [] && Tolerable(ts, true)
    ensures Drain(Wire(ts) + [IAC, EOR] + rest, c) == Drain(rest, d)
    ensures Ready(d) && d.record == [] && Blocks(d.trace) == Blocks(c.trace) + [Gds.Repair(Data(ts))]
  {
    hide Drain, LexAt, Apply, Blocks, FlatMap, Ready;
    var e := DrainData(ts, [IAC, EOR] + rest, c);
    assert Wire(ts) + ([IAC, EOR] + rest) == Wire(ts) + [IAC, EOR] + rest;
    assert [] + Data(ts) == Data(ts);
    WireCons(ts);
    assert TolerableAt(ts, 0, true);
    assert WireOf(Standalone(EOR)) == [IAC, EOR];
    LexEor(rest, e);
    DrainToken(Standalone(EOR), rest, e);
    ApplyEor(e);
    d := Apply(e, Standalone(EOR));
  }

  lemma DrainNothing(c: Core)
    ensures Drain([], c) == Handler([], c)
  {
  }

  /**
   Tolerance of hosts that do not double 0xFF: a non-empty record is recovered
   from any tolerable encoding of it, however it is cut into reads, as one
   delivery of its repaired form.
   */
  lemma BareTolerance(h: Handler, ts: seq<Token>, chunks: seq<seq<byte>>)
    requires h.rx == [] && Ready(h.core) && h.core.record == []
    requires ts != [] && Tolerable(ts, true)
    requires Concat(chunks) == Wire(ts) + [IAC, EOR]
    ensures var g := ReceiveAll(h, chunks);
            && Blocks(g.core.trace) == Blocks(h.core.trace) + [Gds.Repair(Data(ts))]
            && g.rx == [] && Ready(g.core) && g.core.record == []
  {
    hide Drain, Blocks, FlatMap, Receive;
    ChunkIndependence(h, chunks);
    ReceiveFramed(h, Concat(chunks));
    var d := DrainRecord(ts, [], h.core);
    assert h.rx + Concat(chunks) == Wire(ts) + [IAC, EOR] + [];
    DrainNothing(d);
  }

  function DoubledToken(b: byte): seq<Token> {
    [if b == IAC then Doubled else Plain(b)]
  }

  /** The tokens of a record whose every 0xFF is doubled. */
  function Tokens(record: seq<byte>): seq<Token> {
    FlatMap(DoubledToken, record)
  }

  lemma {:induction false} TokensEncode(record: seq<byte>)
    ensures var ts := Tokens(record);
            && |ts| == |record| && Tolerable(ts, true) && (forall k :: 0 <= k < |ts| ==> !ts[k].Bare?)
            && Wire(ts) == Escape(record) && Data(ts) == record
  {
    if record != [] {
      var front, b := record[..|record| - 1], record[|record| - 1];
      TokensEncode(front);
      var ts, t := Tokens(front), DoubledToken(b)[0];
      assert Tokens(record) == ts + [t];
      FlatMapSnoc(WireOf, ts, t);
      FlatMapSnoc(AppOf, ts, t);
      forall k | 0 <= k < |ts + [t]|
        ensures TolerableAt(ts + [t], k, true) && !(ts + [t])[k].Bare?
      {
        if k < |ts| {
          assert (ts + [t])[k] == ts[k] && TolerableAt(ts, k, true);
        }
      }
    }
  }

  /** Records framed by a sender that doubles every 0xFF. */
  function Frames(records: seq<seq<byte>>): seq<byte> {
    FlatMap(Frame, records)
  }

  function Repaired(record: seq<byte>): seq<seq<byte>> {
    [Gds.Repair(record)]
  }

  lemma {:induction false} DrainFrames(records: seq<seq<byte>>, c: Core) returns (d: Core)
    requires Ready(c) && c.record == [] && [] !in records
    ensures Drain(Frames(records), c) == Handler([], d)
    ensures Ready(d) && d.record == [] && Blocks(d.trace) == Blocks(c.trace) + FlatMap(Repaired, records)
  {
    hide Drain, Blocks, Ready, Tolerable;
    if records == [] {
      d := c;
      DrainNothing(c);
      assert Blocks(c.trace) + [] == Blocks(c.trace);
    } else {
      var front, last := records[..|records| - 1], records[|records| - 1];
      var e := DrainFrames(front, c);
      DrainAppend(Frames(front), Frame(last), c);
      TokensEncode(last);
      d := DrainRecord(Tokens(last), [], e);
      assert [] + Frame(last) == Wire(Tokens(last)) + [IAC, EOR] + [];
      DrainNothing(d);
    }
  }

  /** What a handler puts on the wire. */
  function SentEvent(e: Event): seq<byte> {
    if e.OnSendBytes? then e.bytes else []
  }

  /** One `sendGDS` call. */
  datatype Message = Message(flagsHi: byte, opcode: byte, payload: seq<byte>) {
    predicate Fits() {
      |payload| <= Gds.MAX_RECORD_LEN - Gds.HEADER_SIZE
    }
  }

  function SendAll(h: Handler, ms: seq<Message>): Handler {
    if ms == [] then h
    else
      var m := ms[|ms| - 1];
      Do(SendAll(h, ms[..|ms| - 1]), SendGds(m.flagsHi, m.opcode, m.payload))
  }

  function RecordOf(m: Message): seq<seq<byte>> {
    [Gds.Record(m.flagsHi, m.opcode, m.payload)]
  }

  function Records(ms: seq<Message>): seq<seq<byte>> {
    FlatMap(RecordOf, ms)
  }

  lemma SendOneSends(h: Handler, m: Message)
    ensures FlatMap(SentEvent, Do(h, SendGds(m.flagsHi, m.opcode, m.payload)).core.trace)
         == FlatMap(SentEvent, h.core.trace) + Frame(RecordOf(m)[0])
  {
    hide FlatMap, Frame, Gds.Record;
    FlatMapSnoc(SentEvent, h.core.trace, OnSendBytes(Frame(RecordOf(m)[0])));
  }

  lemma {:induction false} SendAllSends(h: Handler, ms: seq<Message>)
    ensures FlatMap(SentEvent, SendAll(h, ms).core.trace) == FlatMap(SentEvent, h.core.trace) + Frames(Records(ms))
  {
    hide Frame, Gds.Record, Do;
    if ms == [] {
      assert FlatMap(SentEvent, h.core.trace) + Frames([]) == FlatMap(SentEvent, h.core.trace);
    } else {
      hide FlatMap;
      var front, m := ms[..|ms| - 1], ms[|ms| - 1];
      var record, sent := RecordOf(m)[0], FlatMap(SentEvent, h.core.trace);
      assert ms == front + [m];
      SendAllSends(h, front);
      SendOneSends(SendAll(h, front), m);
      FlatMapSnoc(RecordOf, front, m);
      FlatMapSnoc(Frame, Records(front), record);
      assert sent + Frames(Records(front)) + Frame(record) == sent + (Frames(Records(front)) + Frame(record));
    }
  }

  lemma {:induction false} RecordsTile(ms: seq<Message>)
    requires forall m | m in ms :: m.Fits()
    ensures [] !in Records(ms) && FlatMap(Repaired, Records(ms)) == Records(ms)
  {
    if ms != [] {
      var front, m := ms[..|ms| - 1], ms[|ms| - 1];
      assert m in ms && forall n | n in front :: n in ms;
      RecordsTile(front);
      Gds.RecordTiles(m.flagsHi, m.opcode, m.payload);
      FlatMapSnoc(Repaired, Records(front), RecordOf(m)[0]);
    }
  }

  /**
   Sender/receiver round trip: what any handler sends for a list of `sendGDS`
   calls, cut into reads anywhere, reaches a framed handler as exactly the
   records built, one delivery each, unrepaired.
   */
  lemma SenderReceiver(sender: Handler, ms: seq<Message>, h: Handler, chunks: seq<seq<byte>>)
    requires forall m | m in ms :: m.Fits()
    requires h.rx == [] && Ready(h.core) && h.core.record == []
    requires FlatMap(SentEvent, sender.core.trace) + Concat(chunks)
          == FlatMap(SentEvent, SendAll(sender, ms).core.trace)
    ensures var g := ReceiveAll(h, chunks);
            && Blocks(g.core.trace) == Blocks(h.core.trace) + Records(ms)
            && g.rx == [] && Ready(g.core) && g.core.record == []
  {
    hide Drain, Blocks, FlatMap, Receive, SendAll;
    SendAllSends(sender, ms);
    var before := FlatMap(SentEvent, sender.core.trace);
    assert Concat(chunks) == (before + Concat(chunks))[|before|..] == (before + Frames(Records(ms)))[|before|..];
    RecordsTile(ms);
    ChunkIndependence(h, chunks);
    ReceiveFramed(h, Concat(chunks));
    assert h.rx + Concat(chunks) == Concat(chunks);
    var d := DrainFrames(Records(ms), h.core);
  }

  function AskType(): seq<byte> {
    [IAC, SB, TERMINAL_TYPE, 0x01, IAC, SE]
  }

  /** A host that offers END-OF-RECORD and then asks for the terminal type. */
  function Negotiation(): seq<byte> {
    [IAC, WILL, END_OF_RECORD] + AskType()
  }

  lemma LexNegotiation(c: Core, s: Core)
    requires !c.inSub && !c.MidRecord() && s.inSub
    ensures LexAt(Negotiation(), c) == Lexeme(Option(WILL, END_OF_RECORD))
    ensures LexAt(AskType(), c) == Lexeme(Option(SB, TERMINAL_TYPE))
    ensures LexAt(AskType()[3..], s) == Lexeme(SubByte(0x01))
    ensures LexAt(AskType()[4..], s) == Lexeme(Standalone(SE))
    ensures Negotiation()[3..] == AskType() && AskType()[3..][1..] == AskType()[4..] && AskType()[4..][2..] == []
  {
  }

  lemma EorOffered(c: Core)
    requires !c.inSub && c.record == [] && c.processed == []
    ensures var d := Apply(c, Option(WILL, END_OF_RECORD));
            !d.inSub && d.record == [] && d.processed == [] && d.eor
  {
  }

  lemma TypeAsked(c: Core)
    requires !c.inSub && c.record == [] && c.processed == [] && c.eor
    ensures var d := Apply(c, Option(SB, TERMINAL_TYPE));
            && d.inSub && d.subOpt == TERMINAL_TYPE && d.record == [] && d.processed == [] && d.eor
            && Apply(d, SubByte(0x01)) == Emit(d, Lexed(SubByte(0x01))).(sub := d.sub + [0x01])
  {
  }

  lemma TypeSent(c: Core)
    requires c.inSub && c.subOpt == TERMINAL_TYPE && c.record == [] && c.processed == [] && c.eor
    ensures var d := Apply(c, Standalone(SE)); Ready(d) && d.record == []
  {
    hide ScanSeed, Gds.Repair;
  }

  lemma DrainsType(c: Core) returns (d: Core)
    requires !c.inSub && c.record == [] && c.processed == [] && c.eor
    ensures Drain(AskType(), c) == Handler([], d) && Ready(d) && d.record == []
  {
    hide Apply, LexAt, Drain;
    var c2 := Apply(c, Option(SB, TERMINAL_TYPE));
    var c3 := Apply(c2, SubByte(0x01));
    TypeAsked(c);
    LexNegotiation(c, c2);
    LexNegotiation(c, c3);
    DrainStep(AskType(), c);
    DrainStep(AskType()[3..], c2);
    DrainStep(AskType()[4..], c3);
    TypeSent(c3);
    d := Apply(c3, Standalone(SE));
    DrainNothing(d);
  }

  lemma DrainsNegotiation(c: Core) returns (d: Core)
    requires !c.inSub && c.record == [] && c.processed == []
    ensures Drain(Negotiation(), c) == Handler([], d) && Ready(d) && d.record == []
  {
    hide Apply, LexAt, Drain, Ready;
    LexNegotiation(c, c.(inSub := true));
    DrainStep(Negotiation(), c);
    EorOffered(c);
    d := DrainsType(Apply(c, Option(WILL, END_OF_RECORD)));
  }

  /** That negotiation makes any handler with clean buffers a framed receiver, ready for records. */
  lemma NegotiationFrames(h: Handler)
    requires h.rx == [] && !h.core.inSub && h.core.record == [] && h.core.processed == []
    ensures var g := Receive(h, Negotiation()); g.rx == [] && Ready(g.core) && g.core.record == []
  {
    hide Drain, Negotiation;
    var d := DrainsNegotiation(h.core);
    assert h.rx + Negotiation() == Negotiation() && h.core.(processed := []) == h.core;
  }
}
