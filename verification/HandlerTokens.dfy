/**
 How the handler divides any stream while END-OF-RECORD is not negotiated,
 malformed commands included, told from the bytes, and what each read delivers.
 */
module HandlerTokens {
  import opened Bytes
  import opened Telnet
  import opened HandlerSpec
  import opened Agreement
  import HandlerFraming
  import HandlerReplies
  import HandlerRuns
  import Gds

  /** In front of `rest`, `t` is the next token: a 0xFF before a byte below 0xEF is data outside a subnegotiation. */
  predicate Next(t: Token, inSub: bool, rest: seq<byte>) {
    match t
    case Plain(b) => !inSub && b != 0xFF
    case SubByte(b) => inSub && b != 0xFF
    case Doubled => true
    case Bare => !inSub && rest != [] && rest[0] < 0xEF
    case Standalone(c) => 0xEF <= c <= 0xF9
    case Option(cmd, _) => cmd != 0xFF && !(0xEF <= cmd <= 0xF9) && (!inSub ==> cmd >= 0xFA)
  }

  /** 0xFA opens a subnegotiation, also inside one, and 0xF0 closes it. */
  predicate InSubAfter(inSub: bool, t: Token) {
    (t.Option? && t.cmd == 0xFA) || (inSub && t != Standalone(0xF0))
  }

  predicate Divides(ts: seq<Token>, inSub: bool, rest: seq<byte>) {
    ts == [] ||
    (Next(ts[0], inSub, HandlerFraming.Wire(ts[1..]) + rest) && Divides(ts[1..], InSubAfter(inSub, ts[0]), rest))
  }

  predicate InSubThen(inSub: bool, ts: seq<Token>)
    decreases |ts|
  {
    if ts == [] then inSub else InSubThen(InSubAfter(inSub, ts[0]), ts[1..])
  }

  /** Text that is not yet a token. */
  predicate Unfinished(s: seq<byte>, inSub: bool) {
    s == [] || s == [0xFF] ||
    (|s| == 2 && s[0] == 0xFF && s[1] != 0xFF && !(0xEF <= s[1] <= 0xF9) && (!inSub ==> s[1] >= 0xFA))
  }

  predicate OffersEor(t: Token) {
    t.Option? && (t.cmd == 0xFB || t.cmd == 0xFD) && t.opt == 0x19
  }

  function ScanAll(s: Scanner, ts: seq<Token>): Scanner
    decreases |ts|
  {
    if ts == [] then s else ScanAll(Scan(s, ts[0]), ts[1..])
  }

  function SaysAll(s: Scanner, ts: seq<Token>): seq<Elem>
    decreases |ts|
  {
    if ts == [] then [] else TokenSays(s, ts[0]) + SaysAll(Scan(s, ts[0]), ts[1..])
  }

  lemma LexNext(t: Token, rest: seq<byte>, c: Core)
    requires !c.MidRecord() && Next(t, c.inSub, rest)
    ensures LexAt(WireOf(t) + rest, c) == Lexeme(t)
  {
  }

  lemma {:induction false} DrainDivided(ts: seq<Token>, rest: seq<byte>, c: Core) returns (d: Core)
    requires !c.eor && Divides(ts, c.inSub, rest) && forall t | t in ts :: !OffersEor(t)
    ensures Drain(HandlerFraming.Wire(ts) + rest, c) == Drain(rest, d)
    ensures Said(d) == Said(c) + SaysAll(ScannerOf(c), ts) && ScannerOf(d) == ScanAll(ScannerOf(c), ts)
    decreases |ts|
  {
    hide Drain, LexAt, Said, Next, TokenSays;
    if ts == [] {
      d := c;
      assert HandlerFraming.Wire(ts) + rest == rest && Said(c) + [] == Said(c);
    } else {
      var t, more := ts[0], HandlerFraming.Wire(ts[1..]) + rest;
      assert t in ts && forall u | u in ts[1..] :: u in ts;
      HandlerFraming.WireCons(ts);
      hide FlatMap;
      assert HandlerFraming.Wire(ts) + rest == WireOf(t) + more;
      LexNext(t, more, c);
      var e := DrainSaid(t, more, c);
      assert ScannerOf(e).inSub == InSubAfter(c.inSub, t) && !ScannerOf(e).eor;
      d := DrainDivided(ts[1..], rest, e);
      assert Said(c) + TokenSays(ScannerOf(c), t) + SaysAll(ScannerOf(e), ts[1..])
          == Said(c) + (TokenSays(ScannerOf(c), t) + SaysAll(ScannerOf(e), ts[1..]));
    }
  }

  lemma UnfinishedWaits(s: seq<byte>, c: Core)
    requires !c.MidRecord() && Unfinished(s, c.inSub)
    ensures LexAt(s, c).Incomplete?
  {
  }

  /**
   Any stream without an offer of END-OF-RECORD, in any reads: the handler reads
   the tokens into which the bytes divide, and leaves an unfinished one waiting.
   */
  lemma StreamDivided(h: Handler, ts: seq<Token>, tail: seq<byte>, chunks: seq<seq<byte>>)
    requires h.rx == [] && !h.core.eor && (forall t | t in ts :: !OffersEor(t))
    requires Divides(ts, h.core.inSub, tail) && Unfinished(tail, InSubThen(h.core.inSub, ts))
    requires Concat(chunks) == HandlerFraming.Wire(ts) + tail
    ensures var g, s := ReceiveAll(h, chunks), ScannerOf(h.core);
            && g.rx == tail && ScannerOf(g.core) == ScanAll(s, ts)
            && Said(g.core) == Said(h.core) + SaysAll(s, ts)
  {
    hide Drain, Said, FlatMap, ReceiveAll, LexAt, Divides, Unfinished, SaysAll;
    var d := DrainDivided(ts, tail, h.core);
    EorNever(ScannerOf(h.core), ts);
    assert !ScannerOf(d).eor && ScannerOf(d).inSub == d.inSub;
    UnfinishedWaits(tail, d);
    DrainStep(tail, d);
    assert h.rx + Concat(chunks) == HandlerFraming.Wire(ts) + tail;
    assert LexAt([], h.core).Incomplete? by { UnfinishedWaits([], h.core); EmptyUnfinished(h.core.inSub); }
    ChunkIndependence(h, chunks);
  }

  lemma EmptyUnfinished(inSub: bool)
    ensures Unfinished([], inSub)
  {
  }

  lemma {:induction false} EorNever(s: Scanner, ts: seq<Token>)
    requires !s.eor && forall t | t in ts :: !OffersEor(t)
    ensures !ScanAll(s, ts).eor && ScanAll(s, ts).inSub == InSubThen(s.inSub, ts)
    decreases |ts|
  {
    if ts != [] {
      assert ts[0] in ts && forall u | u in ts[1..] :: u in ts;
      EorNever(Scan(s, ts[0]), ts[1..]);
    }
  }

  function FirstToken(s: seq<byte>, inSub: bool): Token
    requires !Unfinished(s, inSub)
  {
    if s[0] != 0xFF then if inSub then SubByte(s[0]) else Plain(s[0])
    else if s[1] == 0xFF then Doubled
    else if 0xEF <= s[1] <= 0xF9 then Standalone(s[1])
    else if !inSub && s[1] < 0xEF then Bare
    else Option(s[1], s[2])
  }

  lemma DividesCons(t: Token, ts: seq<Token>, inSub: bool, rest: seq<byte>)
    requires Next(t, inSub, HandlerFraming.Wire(ts) + rest) && Divides(ts, InSubAfter(inSub, t), rest)
    ensures Divides([t] + ts, inSub, rest)
    ensures HandlerFraming.Wire([t] + ts) == WireOf(t) + HandlerFraming.Wire(ts)
  {
    hide Next;
    HandlerFraming.WireCons([t] + ts);
    assert ([t] + ts)[1..] == ts;
  }

  lemma FirstTokenNext(s: seq<byte>, inSub: bool)
    requires !Unfinished(s, inSub)
    ensures var t := FirstToken(s, inSub);
            |WireOf(t)| <= |s| && WireOf(t) != [] && s == WireOf(t) + s[|WireOf(t)|..] && Next(t, inSub, s[|WireOf(t)|..])
  {
  }

  /** Every stream divides so. */
  lemma {:induction false} EveryStream(s: seq<byte>, inSub: bool) returns (ts: seq<Token>, tail: seq<byte>)
    ensures s == HandlerFraming.Wire(ts) + tail && Divides(ts, inSub, tail) && Unfinished(tail, InSubThen(inSub, ts))
    decreases |s|
  {
    if Unfinished(s, inSub) {
      ts, tail := [], s;
      assert HandlerFraming.Wire([]) + s == s;
    } else {
      hide Unfinished, Next, InSubAfter;
      var t := FirstToken(s, inSub);
      FirstTokenNext(s, inSub);
      var n := |WireOf(t)|;
      ts, tail := EveryStream(s[n..], InSubAfter(inSub, t));
      DividesCons(t, ts, inSub, tail);
      assert ([t] + ts)[1..] == ts;
      assert WireOf(t) + HandlerFraming.Wire(ts) + tail == WireOf(t) + (HandlerFraming.Wire(ts) + tail);
      ts := [t] + ts;
    }
  }

  // ----- one delivery per read

  /** Neither framing nor a record in progress. */
  predicate Loose(c: Core) {
    !c.eor && c.record == []
  }

  lemma BlocksOfTrace(c: Core, d: Core)
    requires c.trace == d.trace
    ensures HandlerFraming.Blocks(c.trace) == HandlerFraming.Blocks(d.trace)
  {
  }

  lemma EmitNoBlock(c: Core, e: Event)
    requires !e.OnDataReceived?
    ensures HandlerFraming.Blocks(Emit(c, e).trace) == HandlerFraming.Blocks(c.trace)
  {
    HandlerFraming.EmitBlocks(c.trace, e);
    assert HandlerFraming.Blocks(c.trace) + [] == HandlerFraming.Blocks(c.trace);
  }

  lemma ConnectNoBlock(c: Core)
    ensures HandlerFraming.Blocks(Connect(c).trace) == HandlerFraming.Blocks(c.trace)
  {
    hide HandlerFraming.Blocks;
    EmitNoBlock(c.(complete := true, state := Connected), OnStateChanged(Connected));
    EmitNoBlock(SetState(c.(complete := true), Connected), OnConnected);
  }

  lemma CheckCompleteNoBlock(c: Core)
    requires c.handshake == []
    ensures HandlerFraming.Blocks(CheckComplete(c).trace) == HandlerFraming.Blocks(c.trace)
    ensures CheckComplete(c).handshake == [] && CheckComplete(c).processed == c.processed
    ensures CheckComplete(c).record == c.record && CheckComplete(c).eor == c.eor
  {
    hide HandlerFraming.Blocks;
    ConnectNoBlock(c);
  }

  /** Before the end of a read nothing is delivered, and data is kept for it. */
  predicate Held(c: Core, d: Core, data: seq<byte>) {
    && HandlerFraming.Blocks(d.trace) == HandlerFraming.Blocks(c.trace)
    && d.processed == c.processed + data && d.handshake == [] && d.record == []
  }

  lemma OptionHeld(c: Core, cmd: byte, opt: byte)
    requires Loose(c) && c.handshake == []
    ensures Held(c, HandleOption(c, cmd, opt), [])
  {
    hide HandlerFraming.Blocks, CheckComplete, Reply;
    var d := Send(c, Reply(cmd, opt), opt);
    EmitNoBlock(c, OnSendBytes([IAC, Reply(cmd, opt), opt]));
    CheckCompleteNoBlock(d.(binary := true));
    CheckCompleteNoBlock(d.(eor := true));
    assert c.processed + [] == c.processed;
  }

  lemma SubnegotiationHeld(c: Core)
    requires Loose(c) && c.handshake == []
    ensures Held(c, HandleSubnegotiation(c), [])
  {
    hide HandlerFraming.Blocks, CheckComplete, ScanSeed;
    var d := Emit(c, Handled(c.subOpt, c.sub));
    EmitNoBlock(c, Handled(c.subOpt, c.sub));
    EmitNoBlock(d, SentDeviceName);
    CheckCompleteNoBlock(Emit(d, SentDeviceName).(termSent := true, binary := true));
    var e := HandleSubnegotiation(c).serverSeed;
    EmitNoBlock(d.(serverSeed := e), SentNewEnviron(e));
    assert c.processed + [] == c.processed;
  }

  lemma ApplyHeld(c: Core, t: Token)
    requires Loose(c) && c.handshake == []
    ensures Held(c, Apply(c, t), AppOf(t))
  {
    hide HandlerFraming.Blocks, HandleOption, HandleSubnegotiation;
    var c1 := Emit(c, Lexed(t));
    EmitNoBlock(c, Lexed(t));
    EmitNoBlock(c1, OnLog);
    assert c.processed + [] == c.processed;
    match t
    case Option(cmd, opt) => OptionHeld(c1, cmd, opt);
    case Standalone(_) => SubnegotiationHeld(c1);
    case _ =>
  }

  lemma {:induction false} DrainHeld(rx: seq<byte>, c: Core)
    requires Loose(c) && c.handshake == [] && !Drain(rx, c).core.eor
    ensures var d := Drain(rx, c).core;
            && Said(c) <= Said(d)
            && Held(c, d, BytesIn(Said(d)[|Said(c)|..]))
    decreases |rx|
  {
    hide Drain, LexAt, Apply, Said, HandlerFraming.Blocks, BytesIn, TokenSays;
    DrainStep(rx, c);
    if LexAt(rx, c).Incomplete? {
      assert Said(c)[|Said(c)|..] == [];
      assert BytesIn([]) == [] by { NoBytes(); }
      assert c.processed + [] == c.processed;
    } else {
      var t := LexAt(rx, c).t;
      var d, says := Apply(c, t), TokenSays(ScannerOf(c), t);
      HandlerFraming.LexBound(rx, c);
      ApplyHeld(c, t);
      ApplyScans(c, t);
      if d.eor {
        EorStays(rx[|WireOf(t)|..], d);
      }
      DrainHeld(rx[|WireOf(t)|..], d);
      var e := Drain(rx, c).core;
      HandlerReplies.SaysBytes(ScannerOf(c), t);
      assert Said(e)[|Said(c)|..] == says + Said(e)[|Said(d)|..];
      InAppend(says, Said(e)[|Said(d)|..]);
      assert c.processed + AppOf(t) + BytesIn(Said(e)[|Said(d)|..])
          == c.processed + (AppOf(t) + BytesIn(Said(e)[|Said(d)|..]));
    }
  }

  lemma NoBytes()
    ensures BytesIn([]) == []
  {
  }

  lemma EndReadDelivers(c: Core)
    requires c.handshake == []
    ensures HandlerFraming.Blocks(EndRead(c).trace) ==
      HandlerFraming.Blocks(c.trace) + if c.processed == [] then [] else [c.processed]
  {
    hide HandlerFraming.Blocks;
    var blocks := HandlerFraming.Blocks(c.trace);
    assert blocks + [] == blocks && c.handshake + c.processed == c.processed;
    HandlerFraming.EmitBlocks(c.trace, OnDataReceived(c.processed, c.processed));
    var d := Connect(c.(handshake := c.processed, processed := [], binary := true));
    ConnectNoBlock(c.(handshake := c.processed, processed := [], binary := true));
    HandlerFraming.EmitBlocks(d.trace, OnDataReceived(c.processed, c.processed));
  }

  /**
   Without framing, a read delivers the application bytes it brought as one
   block, whether the handshake was complete before it or completes with it.
   */
  lemma OneBlockPerRead(h: Handler, data: seq<byte>)
    requires HandlerRuns.Inv(h.core) && h.core.processed == []
    requires !Receive(h, data).core.eor
    ensures var g := Receive(h, data);
            Said(h.core) <= Said(g.core) &&
            var bytes := BytesIn(Said(g.core)[|Said(h.core)|..]);
            HandlerFraming.Blocks(g.core.trace) ==
              HandlerFraming.Blocks(h.core.trace) + if bytes == [] then [] else [bytes]
  {
    hide Drain, Said, HandlerFraming.Blocks, BytesIn;
    var c := h.core;
    assert c.(processed := []) == c;
    ReceiveSame(h, data);
    var d := Drain(h.rx + data, c).core;
    assert ScannerOf(Receive(h, data).core).eor == d.eor;
    if c.eor {
      EorStays(h.rx + data, c);
    }
    assert Loose(c) by { UnframedLoose(c); }
    hide EndRead, HandlerRuns.Inv;
    DrainHeld(h.rx + data, c);
    EndReadDelivers(d);
    var bytes := BytesIn(Said(d)[|Said(c)|..]);
    assert [] + bytes == bytes;
  }

  lemma UnframedLoose(c: Core)
    requires HandlerRuns.Inv(c) && !c.eor
    ensures Loose(c) && c.handshake == []
  {
    hide HandlerRuns.Appended, HandlerRuns.Delivered, HandlerRuns.HandshakeSafe;
  }
}
