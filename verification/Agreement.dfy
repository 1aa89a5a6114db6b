/**
 The two Telnet parsers of the repository agree. While END-OF-RECORD is not
 negotiated, the protocol handler reports the same elements of a stream however
 the stream is cut, and on every well-formed stream those are the elements
 that the Telnet client reports.
 */
module Agreement {
  import opened Bytes
  import opened Telnet
  import opened HandlerSpec
  import HandlerFraming
  import HandlerRuns
  import TelnetClient
  import TelnetClientProofs

  /** The elements a token stands for; a subnegotiation is reported when it is handled. */
  function TokenElems(t: Token): seq<Elem> {
    match t
    case Plain(b) => [AppByte(b)]
    case Doubled => [AppByte(IAC)]
    case Bare => [AppByte(IAC)]
    case SubByte(_) => []
    case Standalone(c) => if c == SE then [] else [Command(c)]
    case Option(cmd, opt) => if cmd == SB then [] else [Negotiated(cmd, opt)]
  }

  function EventElems(e: Event): seq<Elem> {
    match e
    case Lexed(t) => TokenElems(t)
    case Handled(opt, sub) => [Subnegotiated(opt, sub)]
    case _ => []
  }

  /** What the handler has made of the stream so far. */
  function Said(c: Core): seq<Elem> {
    FlatMap(EventElems, c.trace)
  }

  /** What matters to the lexer, and what subnegotiations leave behind. */
  datatype Scanner = Scanner(inSub: bool, subOpt: byte, sub: seq<byte>, eor: bool, seed: seq<byte>)

  function ScannerOf(c: Core): Scanner {
    Scanner(c.inSub, c.subOpt, c.sub, c.eor, c.serverSeed)
  }

  /** The server seed once the subnegotiation in progress has been handled. */
  function SeedAfter(s: Scanner): seq<byte> {
    if s.subOpt == NEW_ENVIRON && s.sub != [] && s.sub[0] == 0x01 then ScanSeed(s.sub[1..], []) else s.seed
  }

  /** One token's effect on the scanner. */
  function Scan(s: Scanner, t: Token): Scanner {
    match t
    case SubByte(b) => s.(sub := s.sub + [b])
    case Standalone(c) => if c == SE && s.inSub then s.(inSub := false, sub := [], seed := SeedAfter(s)) else s
    case Option(cmd, opt) =>
      if cmd == SB then s.(inSub := true, subOpt := opt, sub := [])
      else if (cmd == WILL || cmd == DO) && opt == END_OF_RECORD then s.(eor := true)
      else s
    case _ => s
  }

  /** What one token adds to what has been said. */
  function TokenSays(s: Scanner, t: Token): seq<Elem> {
    TokenElems(t) + (if t == Standalone(SE) && s.inSub then [Subnegotiated(s.subOpt, s.sub)] else [])
  }

  lemma EmitSays(c: Core, e: Event)
    ensures Said(Emit(c, e)) == Said(c) + EventElems(e) && ScannerOf(Emit(c, e)) == ScannerOf(c)
  {
    FlatMapSnoc(EventElems, c.trace, e);
  }

  /** `d` is `c` as far as scanning goes. */
  predicate Same(c: Core, d: Core) {
    Said(c) == Said(d) && ScannerOf(c) == ScannerOf(d)
  }

  lemma EmitSame(c: Core, e: Event)
    requires EventElems(e) == []
    ensures Same(c, Emit(c, e))
  {
    EmitSays(c, e);
    assert Said(c) + [] == Said(c);
  }

  lemma ConnectSame(c: Core)
    ensures Same(c, Connect(c))
  {
    hide Said;
    var c0 := c.(complete := true, state := Connected);
    assert Said(c0) == Said(c) by { SaidOfTrace(c0, c); }
    EmitSame(c0, OnStateChanged(Connected));
    EmitSame(Emit(c0, OnStateChanged(Connected)), OnConnected);
    EmitSame(c0, OnConnected);
  }

  lemma SaidOfTrace(c: Core, d: Core)
    requires c.trace == d.trace
    ensures Said(c) == Said(d)
  {
  }

  lemma CheckCompleteSame(c: Core)
    ensures Same(c, CheckComplete(c))
  {
    hide Said, Connect;
    var d := Connect(c);
    ConnectSame(c);
    SaidOfTrace(d, d.(handshake := []));
    EmitSame(d.(handshake := []), OnDataReceived(d.handshake, d.handshake));
  }

  lemma HandleOptionScans(c: Core, cmd: byte, opt: byte)
    ensures var d := HandleOption(c, cmd, opt);
            Said(d) == Said(c) && ScannerOf(d) == Scan(ScannerOf(c), Option(cmd, opt))
  {
    hide Said, CheckComplete;
    if cmd == WILL || cmd == DO {
      var d := Send(c, Reply(cmd, opt), opt);
      EmitSame(c, OnSendBytes([IAC, Reply(cmd, opt), opt]));
      SaidOfTrace(d, d.(binary := true));
      SaidOfTrace(d, d.(eor := true));
      CheckCompleteSame(d.(binary := true));
      CheckCompleteSame(d.(eor := true));
    } else {
      SaidOfTrace(c, HandleOption(c, cmd, opt));
    }
  }

  lemma HandleSubnegotiationScans(c: Core)
    ensures var d := HandleSubnegotiation(c);
            && Said(d) == Said(c) + [Subnegotiated(c.subOpt, c.sub)]
            && ScannerOf(d) == ScannerOf(c).(seed := SeedAfter(ScannerOf(c)))
  {
    hide Said, CheckComplete, ScanSeed;
    var d := Emit(c, Handled(c.subOpt, c.sub));
    EmitSays(c, Handled(c.subOpt, c.sub));
    if d.subOpt == TERMINAL_TYPE {
      var e := Emit(d, SentDeviceName);
      EmitSame(d, SentDeviceName);
      SaidOfTrace(e, e.(termSent := true, binary := true));
      CheckCompleteSame(e.(termSent := true, binary := true));
    } else if d.subOpt == NEW_ENVIRON {
      var seed := HandleSubnegotiation(c).serverSeed;
      SaidOfTrace(d, d.(serverSeed := seed));
      EmitSame(d.(serverSeed := seed), SentNewEnviron(seed));
    }
  }

  lemma FlushRecordSame(c: Core)
    ensures Same(c, FlushRecord(c))
  {
    if c.record != [] {
      hide Said, Gds.Repair;
      var block := Gds.Repair(c.record);
      var d := if block != c.record then Emit(c, OnLog) else c;
      EmitSame(c, OnLog);
      SaidOfTrace(d, d.(record := []));
      EmitSame(d.(record := []), OnDataReceived(c.record, block));
    }
  }

  lemma HandleStandaloneScans(c: Core, cmd: byte)
    ensures var d := HandleStandalone(c, cmd);
            && Said(d) == Said(c) + (if cmd == SE && c.inSub then [Subnegotiated(c.subOpt, c.sub)] else [])
            && ScannerOf(d) == Scan(ScannerOf(c), Standalone(cmd))
  {
    hide Said, FlushRecord, HandleSubnegotiation;
    assert Said(c) + [] == Said(c);
    if cmd == SE && c.inSub {
      HandleSubnegotiationScans(c);
      var d := HandleSubnegotiation(c);
      SaidOfTrace(d, d.(sub := [], inSub := false));
    } else if cmd == EOR && c.Framing() {
      var d := c.(record := c.processed + c.record, processed := []);
      SaidOfTrace(c, d);
      FlushRecordSame(d);
    }
  }

  /** The scanner and what is said depend on nothing but the scanner and the token. */
  lemma ApplyScans(c: Core, t: Token)
    ensures var d := Apply(c, t);
            Said(d) == Said(c) + TokenSays(ScannerOf(c), t) && ScannerOf(d) == Scan(ScannerOf(c), t)
  {
    hide Said, HandleOption, HandleStandalone;
    var c1 := Emit(c, Lexed(t));
    EmitSays(c, Lexed(t));
    assert TokenElems(t) + [] == TokenElems(t);
    match t
    case Plain(b) => SaidOfTrace(c1, AppendData(c1, b));
    case Doubled => SaidOfTrace(c1, AppendData(c1, IAC));
    case Bare =>
      EmitSame(c1, OnLog);
      SaidOfTrace(Emit(c1, OnLog), AppendData(Emit(c1, OnLog), IAC));
    case SubByte(b) => SaidOfTrace(c1, c1.(sub := c1.sub + [b]));
    case Standalone(cmd) =>
      HandleStandaloneScans(c1, cmd);
      assert Said(c) + TokenElems(t) + [Subnegotiated(c.subOpt, c.sub)]
          == Said(c) + (TokenElems(t) + [Subnegotiated(c.subOpt, c.sub)]);
    case Option(cmd, opt) => HandleOptionScans(c1, cmd, opt);
  }

  lemma EndReadSame(c: Core)
    ensures Same(c, EndRead(c))
  {
    hide Said, CheckComplete;
    if c.processed != [] {
      if c.complete {
        var d := Emit(c, OnDataReceived(c.processed, c.processed));
        EmitSame(c, OnDataReceived(c.processed, c.processed));
        SaidOfTrace(d, d.(processed := []));
      } else {
        var d := c.(handshake := c.handshake + c.processed, processed := [], binary := true);
        SaidOfTrace(c, d);
        CheckCompleteSame(d);
      }
    }
  }

  /** END-OF-RECORD, once negotiated, stays negotiated. */
  lemma {:induction false} EorStays(rx: seq<byte>, c: Core)
    requires c.eor
    ensures Drain(rx, c).core.eor
    decreases |rx|
  {
    hide Drain, LexAt, Apply;
    DrainStep(rx, c);
    if LexAt(rx, c).Lexeme? {
      HandlerFraming.LexBound(rx, c);
      ApplyScans(c, LexAt(rx, c).t);
      EorStays(rx[|WireOf(LexAt(rx, c).t)|..], Apply(c, LexAt(rx, c).t));
    }
  }

  lemma SameLex(rx: seq<byte>, c: Core, d: Core)
    requires ScannerOf(c) == ScannerOf(d) && !c.eor
    ensures LexAt(rx, c) == LexAt(rx, d)
  {
  }

  /** Two handlers that agree on the scanner go on to say the same. */
  lemma {:induction false} DrainSame(rx: seq<byte>, c: Core, d: Core)
    requires Same(c, d) && !Drain(rx, c).core.eor
    ensures Drain(rx, c).rx == Drain(rx, d).rx && Same(Drain(rx, c).core, Drain(rx, d).core)
    decreases |rx|
  {
    hide Drain, LexAt, Apply, Said;
    if c.eor {
      EorStays(rx, c);
    }
    SameLex(rx, c, d);
    DrainStep(rx, c);
    DrainStep(rx, d);
    if LexAt(rx, c).Lexeme? {
      var t := LexAt(rx, c).t;
      HandlerFraming.LexBound(rx, c);
      ApplyScans(c, t);
      ApplyScans(d, t);
      DrainSame(rx[|WireOf(t)|..], Apply(c, t), Apply(d, t));
    }
  }

  lemma ReceiveSame(h: Handler, data: seq<byte>)
    ensures var d := Drain(h.rx + data, h.core.(processed := []));
            Receive(h, data).rx == d.rx && Same(Receive(h, data).core, d.core)
  {
    hide Drain, Said, EndRead;
    EndReadSame(Drain(h.rx + data, h.core.(processed := [])).core);
  }

  lemma ClearedSame(c: Core)
    ensures Same(c, c.(processed := []))
  {
  }

  /**
   Chunk independence of the unframed receiver: if END-OF-RECORD has not been
   negotiated by the end of the stream, what the handler makes of the stream,
   the unread tail and the subnegotiation in progress do not depend on the
   reads. The handshake may complete anywhere on the way.
   */
  lemma {:induction false} ChunkIndependence(h: Handler, chunks: seq<seq<byte>>)
    requires HandlerFraming.Drained(h)
    requires !Drain(h.rx + Concat(chunks), h.core).core.eor
    ensures var one := Drain(h.rx + Concat(chunks), h.core);
            var g := ReceiveAll(h, chunks);
            g.rx == one.rx && Same(g.core, one.core)
  {
    hide Drain, Said, Receive, LexAt;
    if chunks == [] {
      assert h.rx + Concat(chunks) == h.rx;
      DrainStep(h.rx, h.core);
    } else {
      var front, last := chunks[..|chunks| - 1], chunks[|chunks| - 1];
      var one := Drain(h.rx + Concat(front), h.core);
      HandlerFraming.DrainAppend(h.rx + Concat(front), last, h.core);
      assert h.rx + Concat(chunks) == h.rx + Concat(front) + last;
      if one.core.eor {
        EorStays(one.rx + last, one.core);
      }
      ChunkIndependence(h, front);
      var g := ReceiveAll(h, front);
      ReceiveSame(g, last);
      ClearedSame(g.core);
      DrainSame(one.rx + last, one.core, g.core.(processed := []));
    }
  }

  /** Outside a subnegotiation, END-OF-RECORD not negotiated. */
  predicate Unframed(c: Core) {
    !c.inSub && !c.eor
  }

  predicate NegotiatesEor(e: Elem) {
    e.Negotiated? && (e.cmd == WILL || e.cmd == DO) && e.opt == END_OF_RECORD
  }

  function Stray(b: byte): seq<Elem> {
    if b == IAC then [AppByte(IAC)] else []
  }

  function Kept(b: byte): seq<byte> {
    if b == IAC then [] else [b]
  }

  /**
   What the handler makes of a printed element. A 0xFF inside a subnegotiation
   comes out as application data and is missing from the subnegotiation.
   */
  function HandlerView(e: Elem): seq<Elem> {
    match e
    case Subnegotiated(opt, data) => FlatMap(Stray, data) + [Subnegotiated(opt, FlatMap(Kept, data))]
    case _ => [e]
  }

  /** Consuming a known token, as scanning sees it. */
  lemma DrainSaid(t: Token, rest: seq<byte>, c: Core) returns (d: Core)
    requires LexAt(WireOf(t) + rest, c) == Lexeme(t)
    ensures Drain(WireOf(t) + rest, c) == Drain(rest, d)
    ensures Said(d) == Said(c) + TokenSays(ScannerOf(c), t) && ScannerOf(d) == Scan(ScannerOf(c), t)
  {
    hide Drain, LexAt, Apply, Said;
    HandlerFraming.DrainToken(t, rest, c);
    ApplyScans(c, t);
    d := Apply(c, t);
  }

  lemma LexSubByte(b: byte, rest: seq<byte>, c: Core)
    requires c.inSub
    ensures var t := if b == IAC then Doubled else SubByte(b);
            WireOf(t) == Double(b) && LexAt(Double(b) + rest, c) == Lexeme(t)
  {
  }

  /** The body of a subnegotiation, byte by byte. */
  lemma {:induction false} DrainSubData(data: seq<byte>, rest: seq<byte>, c: Core) returns (d: Core)
    requires c.inSub
    ensures Drain(Escape(data) + rest, c) == Drain(rest, d)
    ensures Said(d) == Said(c) + FlatMap(Stray, data)
    ensures ScannerOf(d) == ScannerOf(c).(sub := c.sub + FlatMap(Kept, data))
  {
    hide Drain, LexAt, Said;
    if data == [] {
      d := c;
      assert Escape(data) + rest == rest && c.sub + [] == c.sub && Said(c) + [] == Said(c);
    } else {
      var front, b := data[..|data| - 1], data[|data| - 1];
      var t := if b == IAC then Doubled else SubByte(b);
      assert Escape(data) == Escape(front) + Double(b);
      assert FlatMap(Stray, data) == FlatMap(Stray, front) + Stray(b);
      assert FlatMap(Kept, data) == FlatMap(Kept, front) + Kept(b);
      hide FlatMap;
      var e := DrainSubData(front, Double(b) + rest, c);
      assert Escape(data) + rest == Escape(front) + (Double(b) + rest);
      LexSubByte(b, rest, e);
      d := DrainSaid(t, rest, e);
      assert TokenSays(ScannerOf(e), t) == Stray(b);
      assert Said(c) + FlatMap(Stray, front) + Stray(b) == Said(c) + (FlatMap(Stray, front) + Stray(b));
      assert c.sub + FlatMap(Kept, front) + Kept(b) == c.sub + (FlatMap(Kept, front) + Kept(b));
    }
  }

  lemma LexCommands(rest: seq<byte>, c: Core)
    requires c.inSub || !c.MidRecord()
    ensures forall opt :: LexAt([IAC, SB, opt] + rest, c) == Lexeme(Option(SB, opt))
    ensures LexAt([IAC, SE] + rest, c) == Lexeme(Standalone(SE))
  {
  }

  /** A printed subnegotiation outside any record, as scanning sees it. */
  lemma DrainSubnegotiation(opt: byte, data: seq<byte>, rest: seq<byte>, c: Core) returns (d: Core)
    requires !c.inSub && !c.MidRecord()
    ensures Drain(Print(Subnegotiated(opt, data)) + rest, c) == Drain(rest, d)
    ensures Said(d) == Said(c) + HandlerView(Subnegotiated(opt, data))
    ensures ScannerOf(d) ==
      Scan(Scanner(true, opt, FlatMap(Kept, data), c.eor, c.serverSeed), Standalone(SE))
  {
    hide Drain, LexAt, Said, FlatMap;
    var body := Escape(data) + ([IAC, SE] + rest);
    assert Print(Subnegotiated(opt, data)) + rest == [IAC, SB, opt] + body;
    LexCommands(body, c);
    assert WireOf(Option(SB, opt)) == [IAC, SB, opt] && WireOf(Standalone(SE)) == [IAC, SE];
    var c1 := DrainSaid(Option(SB, opt), body, c);
    assert Said(c) + [] == Said(c);
    var c2 := DrainSubData(data, [IAC, SE] + rest, c1);
    assert [] + FlatMap(Kept, data) == FlatMap(Kept, data);
    LexCommands(rest, c2);
    d := DrainSaid(Standalone(SE), rest, c2);
    assert [] + [Subnegotiated(opt, FlatMap(Kept, data))] == [Subnegotiated(opt, FlatMap(Kept, data))];
    assert Said(c) + FlatMap(Stray, data) + [Subnegotiated(opt, FlatMap(Kept, data))]
        == Said(c) + HandlerView(Subnegotiated(opt, data));
  }

  /** The one token of an element that is not a subnegotiation. */
  function ElemToken(e: Elem): Token
    requires !e.Subnegotiated?
  {
    match e
    case AppByte(b) => if b == IAC then Doubled else Plain(b)
    case Negotiated(cmd, opt) => Option(cmd, opt)
    case Command(c) => Standalone(c)
  }

  lemma LexElem(e: Elem, rest: seq<byte>, c: Core)
    requires !e.Subnegotiated? && WellFormed(e) && !c.inSub && !c.MidRecord()
    ensures WireOf(ElemToken(e)) == Print(e) && TokenElems(ElemToken(e)) == [e]
    ensures LexAt(Print(e) + rest, c) == Lexeme(ElemToken(e))
  {
  }

  /** One printed element, as the handler takes it. */
  lemma DrainElem(e: Elem, rest: seq<byte>, c: Core) returns (d: Core)
    requires Unframed(c) && WellFormed(e) && !NegotiatesEor(e)
    ensures Drain(Print(e) + rest, c) == Drain(rest, d)
    ensures Said(d) == Said(c) + HandlerView(e) && Unframed(d)
  {
    hide Drain, LexAt, Said, FlatMap;
    if e.Subnegotiated? {
      d := DrainSubnegotiation(e.opt, e.data, rest, c);
    } else {
      LexElem(e, rest, c);
      d := DrainSaid(ElemToken(e), rest, c);
      assert [e] + [] == [e];
    }
  }

  lemma {:induction false} DrainElems(es: seq<Elem>, rest: seq<byte>, c: Core) returns (d: Core)
    requires Unframed(c) && forall e | e in es :: WellFormed(e) && !NegotiatesEor(e)
    ensures Drain(PrintAll(es) + rest, c) == Drain(rest, d)
    ensures Said(d) == Said(c) + FlatMap(HandlerView, es) && Unframed(d)
  {
    hide Drain, Said, WellFormed, NegotiatesEor, Print, HandlerView;
    if es == [] {
      d := c;
      assert PrintAll(es) + rest == rest && Said(c) + [] == Said(c);
    } else {
      var front, e := es[..|es| - 1], es[|es| - 1];
      assert e in es && forall f | f in front :: f in es;
      assert PrintAll(es) == PrintAll(front) + Print(e);
      assert FlatMap(HandlerView, es) == FlatMap(HandlerView, front) + HandlerView(e);
      hide FlatMap;
      var c1 := DrainElems(front, Print(e) + rest, c);
      assert PrintAll(es) + rest == PrintAll(front) + (Print(e) + rest);
      d := DrainElem(e, rest, c1);
      assert Said(c) + FlatMap(HandlerView, front) + HandlerView(e)
          == Said(c) + (FlatMap(HandlerView, front) + HandlerView(e));
    }
  }

  /** What the handler makes of a whole well-formed stream, however it is cut. */
  lemma HandlerOnStream(h: Handler, es: seq<Elem>, chunks: seq<seq<byte>>)
    requires h.rx == [] && Unframed(h.core)
    requires forall e | e in es :: WellFormed(e) && !NegotiatesEor(e)
    requires Concat(chunks) == PrintAll(es)
    ensures var g := ReceiveAll(h, chunks);
            Said(g.core) == Said(h.core) + FlatMap(HandlerView, es) && g.rx == [] && Unframed(g.core)
  {
    hide Drain, Said, FlatMap, ReceiveAll, WellFormed, NegotiatesEor;
    var d := DrainElems(es, [], h.core);
    assert h.rx + Concat(chunks) == PrintAll(es) + [];
    HandlerFraming.DrainNothing(d);
    ChunkIndependence(h, chunks);
  }

  /** The handler's view of an element is the element itself, or something longer. */
  lemma HandlerViewSize(e: Elem)
    ensures |HandlerView(e)| >= 1
    ensures |HandlerView(e)| == 1 <==> !(e.Subnegotiated? && IAC in e.data)
    ensures |HandlerView(e)| == 1 ==> HandlerView(e) == [e]
  {
    if e.Subnegotiated? {
      StraySize(e.data);
    }
  }

  lemma {:induction false} StraySize(data: seq<byte>)
    ensures IAC !in data ==> FlatMap(Stray, data) == [] && FlatMap(Kept, data) == data
    ensures IAC in data ==> FlatMap(Stray, data) != []
  {
    if data != [] {
      StraySize(data[..|data| - 1]);
      assert data == data[..|data| - 1] + [data[|data| - 1]];
    }
  }

  lemma {:induction false} ViewsAgreeExactly(es: seq<Elem>)
    ensures |FlatMap(HandlerView, es)| >= |es|
    ensures FlatMap(HandlerView, es) == es <==> forall e | e in es :: !(e.Subnegotiated? && IAC in e.data)
  {
    hide HandlerView;
    if es != [] {
      var front, e := es[..|es| - 1], es[|es| - 1];
      ViewsAgreeExactly(front);
      HandlerViewSize(e);
      assert es == front + [e];
      var fs := FlatMap(HandlerView, front);
      assert FlatMap(HandlerView, es) == fs + HandlerView(e);
      if fs + HandlerView(e) == es {
        assert |HandlerView(e)| == 1 && |fs| == |front|;
        assert fs == (fs + HandlerView(e))[..|front|] == front;
      }
    }
  }

  /**
   Two-parser agreement: on a well-formed stream that does not negotiate
   END-OF-RECORD, cut into reads in any two ways, the handler lexes and handles
   the elements the client reports, in the same order, exactly when no
   subnegotiation carries a 0xFF.
   */
  lemma ParsersAgree(h: Handler, p: TelnetClient.Parser, es: seq<Elem>,
                     handlerReads: seq<seq<byte>>, clientReads: seq<seq<byte>>)
    requires h.rx == [] && Unframed(h.core)
    requires p.state == TelnetClient.Data && p.app == []
    requires forall e | e in es :: WellFormed(e) && !NegotiatesEor(e)
    requires Concat(handlerReads) == PrintAll(es) && Concat(clientReads) == PrintAll(es)
    ensures var g, q := ReceiveAll(h, handlerReads), TelnetClient.FeedAll(p, clientReads);
            && Said(g.core) == Said(h.core) + FlatMap(HandlerView, es)
            && TelnetClient.Reported(q) == TelnetClient.Reported(p) + es
            && (Said(g.core) == Said(h.core) + es <==> forall e | e in es :: !(e.Subnegotiated? && IAC in e.data))
  {
    hide Said, FlatMap, ReceiveAll, TelnetClient.FeedAll, TelnetClient.Reported, HandlerView;
    HandlerOnStream(h, es, handlerReads);
    forall e | e in es
      ensures TelnetClientProofs.Printable(e)
    {
      assert WellFormed(e);
    }
    TelnetClientProofs.PrintParse(p, es, clientReads);
    ViewsAgreeExactly(es);
    var before, views := Said(h.core), FlatMap(HandlerView, es);
    assert views == (before + views)[|before|..] && es == (before + es)[|before|..];
  }

  // ----- agreement of the callbacks

  function ElemBytes(e: Elem): seq<byte> {
    if e.AppByte? then [e.b] else []
  }

  function ElemSub(e: Elem): seq<Elem> {
    if e.Subnegotiated? then [e] else []
  }

  /** The application bytes of a stream. */
  function BytesIn(es: seq<Elem>): seq<byte> {
    FlatMap(ElemBytes, es)
  }

  /** The subnegotiations of a stream. */
  function SubsIn(es: seq<Elem>): seq<Elem> {
    FlatMap(ElemSub, es)
  }

  function HandledSub(e: Event): seq<Elem> {
    if e.Handled? then [Subnegotiated(e.subOpt, e.sub)] else []
  }

  /** The calls of `handleSubnegotiation` so far. */
  function HandledSubs(c: Core): seq<Elem> {
    FlatMap(HandledSub, c.trace)
  }

  function ClientBytes(e: TelnetClient.Event): seq<byte> {
    if e.OnAppData? then e.data else []
  }

  function ClientSub(e: TelnetClient.Event): seq<Elem> {
    if e.OnSubnegotiation? then [Subnegotiated(e.opt, e.data)] else []
  }

  /** The application data the client has reported. */
  function ClientData(p: TelnetClient.Parser): seq<byte> {
    FlatMap(ClientBytes, p.trace)
  }

  /** The subnegotiations the client has reported. */
  function ClientSubs(p: TelnetClient.Parser): seq<Elem> {
    FlatMap(ClientSub, p.trace)
  }

  lemma InAppend(a: seq<Elem>, b: seq<Elem>)
    ensures BytesIn(a + b) == BytesIn(a) + BytesIn(b) && SubsIn(a + b) == SubsIn(a) + SubsIn(b)
  {
    FlatMapAppend(ElemBytes, a, b);
    FlatMapAppend(ElemSub, a, b);
  }

  lemma EventIn(e: Event)
    ensures BytesIn(EventElems(e)) == HandlerRuns.AppEvent(e) && SubsIn(EventElems(e)) == HandledSub(e)
  {
    var es := EventElems(e);
    if es != [] {
      assert es == [es[0]];
      FlatMapOne(ElemBytes, es[0]);
      FlatMapOne(ElemSub, es[0]);
    }
  }

  lemma {:induction false} TraceIn(trace: seq<Event>)
    ensures BytesIn(FlatMap(EventElems, trace)) == HandlerRuns.Appended(trace)
    ensures SubsIn(FlatMap(EventElems, trace)) == FlatMap(HandledSub, trace)
  {
    if trace != [] {
      var front, e := trace[..|trace| - 1], trace[|trace| - 1];
      TraceIn(front);
      InAppend(FlatMap(EventElems, front), EventElems(e));
      EventIn(e);
    }
  }

  lemma {:induction false} AppBytesIn(data: seq<byte>)
    ensures BytesIn(AppBytes(data)) == data && SubsIn(AppBytes(data)) == []
  {
    if data != [] {
      var front, b := data[..|data| - 1], data[|data| - 1];
      AppBytesIn(front);
      FlatMapSnoc(ElemBytes, AppBytes(front), AppByte(b));
      FlatMapSnoc(ElemSub, AppBytes(front), AppByte(b));
      assert AppBytes(data) == AppBytes(front) + [AppByte(b)];
    }
  }

  lemma ClientEventIn(e: TelnetClient.Event)
    ensures BytesIn(TelnetClient.ElemsOf(e)) == ClientBytes(e) && SubsIn(TelnetClient.ElemsOf(e)) == ClientSub(e)
  {
    if e.OnAppData? {
      AppBytesIn(e.data);
    } else {
      FlatMapOne(ElemBytes, TelnetClient.ElemsOf(e)[0]);
      FlatMapOne(ElemSub, TelnetClient.ElemsOf(e)[0]);
    }
  }

  lemma {:induction false} ClientTraceIn(trace: seq<TelnetClient.Event>)
    ensures BytesIn(FlatMap(TelnetClient.ElemsOf, trace)) == FlatMap(ClientBytes, trace)
    ensures SubsIn(FlatMap(TelnetClient.ElemsOf, trace)) == FlatMap(ClientSub, trace)
  {
    if trace != [] {
      var front, e := trace[..|trace| - 1], trace[|trace| - 1];
      ClientTraceIn(front);
      InAppend(FlatMap(TelnetClient.ElemsOf, front), TelnetClient.ElemsOf(e));
      ClientEventIn(e);
    }
  }

  /** Between calls and unframed, everything said has been delivered. */
  lemma DeliveredIsSaid(c: Core)
    requires HandlerRuns.Inv(c) && c.processed == [] && !c.eor
    ensures HandlerRuns.Delivered(c.trace) == BytesIn(Said(c)) && HandledSubs(c) == SubsIn(Said(c))
  {
    hide HandlerRuns.Appended, HandlerRuns.Delivered, HandlerRuns.HandshakeSafe, FlatMap, BytesIn, SubsIn;
    TraceIn(c.trace);
    var d := HandlerRuns.Delivered(c.trace);
    assert d + [] + [] + [] + [] == d;
  }

  lemma {:induction false} ReceiveAllKeeps(h: Handler, chunks: seq<seq<byte>>)
    requires HandlerRuns.Inv(h.core) && h.core.processed == []
    ensures var g := ReceiveAll(h, chunks); HandlerRuns.Inv(g.core) && g.core.processed == []
  {
    if chunks != [] {
      hide HandlerRuns.Inv, Receive;
      ReceiveAllKeeps(h, chunks[..|chunks| - 1]);
      HandlerRuns.ReceiveKeeps(ReceiveAll(h, chunks[..|chunks| - 1]), chunks[|chunks| - 1]);
    }
  }

  lemma {:induction false} StrayBytes(data: seq<byte>)
    ensures |BytesIn(FlatMap(Stray, data))| == |FlatMap(Stray, data)|
  {
    if data != [] {
      StrayBytes(data[..|data| - 1]);
      InAppend(FlatMap(Stray, data[..|data| - 1]), Stray(data[|data| - 1]));
      if data[|data| - 1] == IAC {
        FlatMapOne(ElemBytes, AppByte(IAC));
      }
    }
  }

  lemma ViewBytesOne(e: Elem)
    ensures |BytesIn(HandlerView(e))| >= |ElemBytes(e)|
    ensures |BytesIn(HandlerView(e))| == |ElemBytes(e)| <==> !(e.Subnegotiated? && IAC in e.data)
  {
    if e.Subnegotiated? {
      var sub := Subnegotiated(e.opt, FlatMap(Kept, e.data));
      InAppend(FlatMap(Stray, e.data), [sub]);
      FlatMapOne(ElemBytes, sub);
      StrayBytes(e.data);
      StraySize(e.data);
    } else {
      FlatMapOne(ElemBytes, e);
    }
  }

  /** A 0xFF inside a subnegotiation is one application byte too many. */
  lemma {:induction false} ViewBytes(es: seq<Elem>)
    ensures |BytesIn(FlatMap(HandlerView, es))| >= |BytesIn(es)|
    ensures |BytesIn(FlatMap(HandlerView, es))| == |BytesIn(es)| <==>
              forall e | e in es :: !(e.Subnegotiated? && IAC in e.data)
  {
    hide HandlerView;
    if es != [] {
      var front, e := es[..|es| - 1], es[|es| - 1];
      ViewBytes(front);
      ViewBytesOne(e);
      assert es == front + [e];
      InAppend(FlatMap(HandlerView, front), HandlerView(e));
    }
  }

  /**
   The same agreement as the applications see it: between calls, the data the
   handler has delivered and the subnegotiations it has acted on are those of
   its view of the stream, the client's are those of the stream, and the two
   deliver the same bytes exactly when no subnegotiation carries a 0xFF; they
   then also see the same subnegotiations.
   */
  lemma CallbacksAgree(h: Handler, p: TelnetClient.Parser, es: seq<Elem>,
                       handlerReads: seq<seq<byte>>, clientReads: seq<seq<byte>>)
    requires h.rx == [] && Unframed(h.core) && HandlerRuns.Inv(h.core) && h.core.processed == []
    requires p.state == TelnetClient.Data && p.app == []
    requires forall e | e in es :: WellFormed(e) && !NegotiatesEor(e)
    requires Concat(handlerReads) == PrintAll(es) && Concat(clientReads) == PrintAll(es)
    ensures var g, q := ReceiveAll(h, handlerReads), TelnetClient.FeedAll(p, clientReads);
            var before, after := HandlerRuns.Delivered(h.core.trace), HandlerRuns.Delivered(g.core.trace);
            var clean := forall e | e in es :: !(e.Subnegotiated? && IAC in e.data);
            && after == before + BytesIn(FlatMap(HandlerView, es))
            && HandledSubs(g.core) == HandledSubs(h.core) + SubsIn(FlatMap(HandlerView, es))
            && ClientData(q) == ClientData(p) + BytesIn(es) && ClientSubs(q) == ClientSubs(p) + SubsIn(es)
            && (after == before + BytesIn(es) <==> clean)
            && (clean ==> HandledSubs(g.core) == HandledSubs(h.core) + SubsIn(es))
  {
    hide Said, FlatMap, ReceiveAll, TelnetClient.FeedAll, HandlerView, BytesIn, SubsIn;
    hide HandlerRuns.Inv, HandlerRuns.Delivered, HandledSubs;
    var g, q := ReceiveAll(h, handlerReads), TelnetClient.FeedAll(p, clientReads);
    ParsersAgree(h, p, es, handlerReads, clientReads);
    HandlerOnStream(h, es, handlerReads);
    ReceiveAllKeeps(h, handlerReads);
    DeliveredIsSaid(h.core);
    DeliveredIsSaid(g.core);
    InAppend(Said(h.core), FlatMap(HandlerView, es));
    ClientTraceIn(p.trace);
    ClientTraceIn(q.trace);
    InAppend(TelnetClient.Reported(p), es);
    ViewBytes(es);
    ViewsAgreeExactly(es);
  }
}
