/**
 When the way TCP cuts the stream matters: never once the handshake is
 complete, the switch to framing included, and always possibly before.
 */
module HandlerCuts {
  import opened Bytes
  import opened Telnet
  import opened HandlerSpec
  import opened Agreement
  import HandlerFraming
  import HandlerRuns

  // ----- between calls, no complete token waits

  lemma {:induction false} DrainDrains(rx: seq<byte>, c: Core)
    ensures HandlerFraming.Drained(Drain(rx, c))
    decreases |rx|
  {
    hide Drain, LexAt, Apply;
    DrainStep(rx, c);
    if LexAt(rx, c).Lexeme? {
      HandlerFraming.LexBound(rx, c);
      DrainDrains(rx[|WireOf(LexAt(rx, c).t)|..], Apply(c, LexAt(rx, c).t));
    }
  }

  /** The end of a read neither opens a record nor ends one. */
  lemma EndReadLexes(c: Core, rx: seq<byte>)
    requires HandlerRuns.Inv(c)
    ensures LexAt(rx, EndRead(c)) == LexAt(rx, c)
  {
    hide HandlerRuns.Appended, HandlerRuns.Delivered, HandlerRuns.HandshakeSafe;
  }

  lemma {:induction false} RunDrained(calls: seq<Call>)
    ensures HandlerFraming.Drained(Run(calls))
  {
    if calls != [] {
      hide HandlerRuns.Inv, HandlerRuns.Consumed, Drain, EndRead, LexAt;
      var front, call := calls[..|calls| - 1], calls[|calls| - 1];
      var h := Run(front);
      RunDrained(front);
      HandlerRuns.RunKeeps(front);
      if call.BytesReceived? {
        assert h.core.(processed := []) == h.core;
        var d := Drain(h.rx + call.data, h.core);
        HandlerRuns.DrainKeeps(h.rx + call.data, h.core);
        DrainDrains(h.rx + call.data, h.core);
        EndReadLexes(d.core, d.rx);
      } else {
        OtherCallsLex(h, call);
      }
    }
  }

  lemma OtherCallsLex(h: Handler, call: Call)
    requires !call.BytesReceived?
    ensures Do(h, call).rx == h.rx && LexAt(h.rx, Do(h, call).core) == LexAt(h.rx, h.core)
  {
    hide Frame, Gds.Record;
  }

  // ----- once the handshake is complete

  /** Both complete, with the same said and the same scanner, and both in a record or neither. */
  predicate Twins(c: Core, d: Core) {
    Same(c, d) && c.complete && d.complete && (c.record == [] <==> d.record == [])
  }

  /** Whether the record buffer is empty after a token. */
  predicate EmptyAfter(empty: bool, eor: bool, t: Token) {
    if eor && AppOf(t) != [] then false else empty || (eor && t == Standalone(EOR))
  }

  lemma ApplyEmpties(c: Core, t: Token)
    requires c.complete
    ensures var d := Apply(c, t); d.complete && (d.record == [] <==> EmptyAfter(c.record == [], c.eor, t))
  {
    hide ScanSeed, Gds.Repair;
    match t
    case Plain(_) =>
    case Doubled =>
    case Bare =>
    case SubByte(_) =>
    case Standalone(cmd) => StandaloneEmpties(Emit(c, Lexed(t)), cmd);
    case Option(_, _) =>
  }

  lemma StandaloneEmpties(c: Core, cmd: byte)
    requires c.complete
    ensures var d := HandleStandalone(c, cmd);
            d.complete && (d.record == [] <==> EmptyAfter(c.record == [], c.eor, Standalone(cmd)))
  {
    hide ScanSeed, Gds.Repair;
  }

  lemma {:induction false} DrainTwins(rx: seq<byte>, c: Core, d: Core)
    requires Twins(c, d)
    ensures Drain(rx, c).rx == Drain(rx, d).rx && Twins(Drain(rx, c).core, Drain(rx, d).core)
    decreases |rx|
  {
    assert LexAt(rx, c) == LexAt(rx, d);
    hide Drain, LexAt, Apply, Said;
    DrainStep(rx, c);
    DrainStep(rx, d);
    if LexAt(rx, c).Lexeme? {
      var t := LexAt(rx, c).t;
      HandlerFraming.LexBound(rx, c);
      ApplyScans(c, t);
      ApplyScans(d, t);
      ApplyEmpties(c, t);
      ApplyEmpties(d, t);
      DrainTwins(rx[|WireOf(t)|..], Apply(c, t), Apply(d, t));
    }
  }

  lemma EndReadTwins(c: Core)
    requires c.complete
    ensures Twins(c, EndRead(c)) && Twins(c, c.(processed := []))
  {
    hide Said;
    EndReadSame(c);
    ClearedSame(c);
  }

  /**
   Chunk independence of the completed handler: what it makes of a stream, the
   unread tail, the subnegotiation in progress, the server seed and whether a
   record is open do not depend on the reads. END-OF-RECORD may be negotiated
   anywhere on the way.
   */
  lemma {:induction false} CompleteChunkIndependence(h: Handler, chunks: seq<seq<byte>>)
    requires HandlerFraming.Drained(h) && h.core.complete
    ensures var one := Drain(h.rx + Concat(chunks), h.core);
            var g := ReceiveAll(h, chunks);
            g.rx == one.rx && Twins(one.core, g.core)
  {
    hide Drain, Said, LexAt, EndRead;
    if chunks == [] {
      assert h.rx + Concat(chunks) == h.rx;
      DrainStep(h.rx, h.core);
    } else {
      var front, last := chunks[..|chunks| - 1], chunks[|chunks| - 1];
      var one := Drain(h.rx + Concat(front), h.core);
      HandlerFraming.DrainAppend(h.rx + Concat(front), last, h.core);
      assert h.rx + Concat(chunks) == h.rx + Concat(front) + last;
      CompleteChunkIndependence(h, front);
      var g := ReceiveAll(h, front);
      var d := g.core.(processed := []);
      EndReadTwins(g.core);
      DrainTwins(g.rx + last, one.core, d);
      EndReadTwins(Drain(g.rx + last, d).core);
    }
  }

  /** However a stream is cut, the handler makes of it what it makes of one read. */
  ghost predicate CutFree(h: Handler) {
    forall chunks: seq<seq<byte>> ::
      var g, one := ReceiveAll(h, chunks), Receive(h, Concat(chunks));
      g.rx == one.rx && Same(g.core, one.core)
  }

  lemma CompleteCutFree(h: Handler)
    requires HandlerFraming.Drained(h) && h.core.complete && h.core.processed == []
    ensures CutFree(h)
  {
    hide Drain, Receive, Said, LexAt;
    forall chunks: seq<seq<byte>>
      ensures var g, one := ReceiveAll(h, chunks), Receive(h, Concat(chunks));
              g.rx == one.rx && Same(g.core, one.core)
    {
      CompleteChunkIndependence(h, chunks);
      ReceiveSame(h, Concat(chunks));
      assert h.core.(processed := []) == h.core;
    }
  }

  // ----- before that

  /**
   Before the handshake the cut does matter, and not only to grouping: with
   END-OF-RECORD agreed but the handshake incomplete, a command right behind
   two data bytes is a command if all arrive in one read, and two more data
   bytes if the first byte comes in a read of its own, because that read
   completes the handshake and the second byte then opens a record.
   */
  lemma CutMattersBeforeHandshake(h: Handler, a: byte, b: byte, cmd: byte)
    requires h.rx == [] && !h.core.inSub && h.core.eor && !h.core.complete
    requires h.core.record == [] && h.core.processed == [] && h.core.handshake == []
    requires a != IAC && b != IAC && EOR < cmd <= GA && cmd != SE
    ensures Said(Receive(h, [a, b, IAC, cmd]).core)
         == Said(h.core) + [AppByte(a), AppByte(b), Command(cmd)]
    ensures Said(Receive(Receive(h, [a]), [b, IAC, cmd]).core)
         == Said(h.core) + [AppByte(a), AppByte(b), AppByte(IAC), AppByte(cmd)]
  {
    OneRead(h, a, b, cmd);
    FirstRead(h, a);
    SecondRead(Receive(h, [a]), b, cmd);
  }

  lemma LexFour(c: Core, a: byte, b: byte, cmd: byte)
    requires !c.inSub && !c.MidRecord() && a != IAC && b != IAC && EOR <= cmd <= GA
    ensures LexAt([a] + [b, IAC, cmd], c) == Lexeme(Plain(a))
    ensures LexAt([b] + [IAC, cmd], c) == Lexeme(Plain(b))
    ensures LexAt([IAC, cmd] + [], c) == Lexeme(Standalone(cmd))
    ensures LexAt([a] + [], c) == Lexeme(Plain(a))
  {
  }

  lemma OneRead(h: Handler, a: byte, b: byte, cmd: byte)
    requires h.rx == [] && !h.core.inSub && !h.core.complete && h.core.processed == []
    requires a != IAC && b != IAC && EOR < cmd <= GA && cmd != SE
    ensures Said(Receive(h, [a, b, IAC, cmd]).core)
         == Said(h.core) + [AppByte(a), AppByte(b), Command(cmd)]
  {
    hide Drain, LexAt, Receive, Said;
    var c := h.core;
    var c1 := Apply(c, Plain(a));
    var c2 := Apply(c1, Plain(b));
    LexFour(c, a, b, cmd);
    LexFour(c1, a, b, cmd);
    LexFour(c2, a, b, cmd);
    hide Apply;
    HandlerFraming.DrainToken(Plain(a), [b, IAC, cmd], c);
    HandlerFraming.DrainToken(Plain(b), [IAC, cmd], c1);
    HandlerFraming.DrainToken(Standalone(cmd), [], c2);
    ApplyScans(c, Plain(a));
    ApplyScans(c1, Plain(b));
    ApplyScans(c2, Standalone(cmd));
    HandlerFraming.DrainNothing(Apply(c2, Standalone(cmd)));
    ReceiveSame(h, [a, b, IAC, cmd]);
    assert [a] + [b, IAC, cmd] == h.rx + [a, b, IAC, cmd] && [b] + [IAC, cmd] == [b, IAC, cmd];
    assert [IAC, cmd] + [] == [IAC, cmd] && c.(processed := []) == c;
  }

  lemma FirstRead(h: Handler, a: byte)
    requires h.rx == [] && !h.core.inSub && !h.core.complete && h.core.eor && a != IAC
    requires h.core.record == [] && h.core.processed == [] && h.core.handshake == []
    ensures var g := Receive(h, [a]);
            && g.rx == [] && !g.core.inSub && g.core.Framing() && g.core.record == [] && g.core.processed == []
            && Said(g.core) == Said(h.core) + [AppByte(a)]
  {
    hide Drain, LexAt, Said;
    var c := h.core;
    LexFour(c, a, 0, EOR);
    HandlerFraming.DrainToken(Plain(a), [], c);
    ApplyScans(c, Plain(a));
    HandlerFraming.DrainNothing(Apply(c, Plain(a)));
    ReceiveSame(h, [a]);
    assert [a] + [] == h.rx + [a] && c.(processed := []) == c;
    assert [] + [a] == [a];
  }

  lemma DataOpensRecord(c: Core, b: byte)
    requires !c.inSub && c.Framing()
    ensures var d := Apply(c, Plain(b)); d.MidRecord() && !d.inSub && !Apply(d, Bare).inSub
  {
  }

  lemma SecondRead(g: Handler, b: byte, cmd: byte)
    requires g.rx == [] && !g.core.inSub && g.core.Framing() && g.core.record == [] && g.core.processed == []
    requires b != IAC && EOR < cmd <= GA
    ensures Said(Receive(g, [b, IAC, cmd]).core)
         == Said(g.core) + [AppByte(b), AppByte(IAC), AppByte(cmd)]
  {
    hide Drain, LexAt, Receive, Apply, Said;
    var c := g.core;
    var c1 := Apply(c, Plain(b));
    var c2 := Apply(c1, Bare);
    DataOpensRecord(c, b);
    LexThree(c, c1, c2, b, cmd);
    HandlerFraming.DrainToken(Plain(b), [IAC, cmd], c);
    HandlerFraming.DrainToken(Bare, [cmd], c1);
    HandlerFraming.DrainToken(Plain(cmd), [], c2);
    ApplyScans(c, Plain(b));
    ApplyScans(c1, Bare);
    ApplyScans(c2, Plain(cmd));
    HandlerFraming.DrainNothing(Apply(c2, Plain(cmd)));
    ReceiveSame(g, [b, IAC, cmd]);
    assert [b] + [IAC, cmd] == g.rx + [b, IAC, cmd] && [IAC] + [cmd] == [IAC, cmd] && [cmd] + [] == [cmd];
    assert c.(processed := []) == c;
  }

  lemma LexThree(c: Core, c1: Core, c2: Core, b: byte, cmd: byte)
    requires !c.inSub && !c1.inSub && !c2.inSub && c1.MidRecord()
    requires b != IAC && EOR < cmd < IAC
    ensures LexAt([b] + [IAC, cmd], c) == Lexeme(Plain(b))
    ensures LexAt([IAC] + [cmd], c1) == Lexeme(Bare)
    ensures LexAt([cmd] + [], c2) == Lexeme(Plain(cmd))
  {
  }

  /** Nothing has arrived yet that could complete the handshake. */
  predicate Fresh(c: Core) {
    !c.complete && !c.termSent && c.handshake == [] && c.record == [] && c.processed == []
  }

  lemma FreshOption(c: Core, cmd: byte, opt: byte)
    requires Fresh(c)
    ensures Fresh(Apply(c, Option(cmd, opt)))
  {
  }

  lemma FreshClose(c: Core)
    requires Fresh(c) && c.inSub && c.subOpt == ECHO
    ensures Fresh(Apply(c, Standalone(SE)))
  {
    hide ScanSeed;
  }

  /** A subnegotiation that nothing comes of, and then an offer of END-OF-RECORD. */
  function Offer(): seq<byte> {
    [IAC, SB, ECHO] + ([IAC, SE] + [IAC, WILL, END_OF_RECORD])
  }

  lemma LexOffer(c: Core, s: Core)
    requires !c.MidRecord() && !s.MidRecord() && s.inSub
    ensures LexAt(Offer(), c) == Lexeme(Option(SB, ECHO))
    ensures LexAt([IAC, SE] + [IAC, WILL, END_OF_RECORD], s) == Lexeme(Standalone(SE))
    ensures LexAt([IAC, WILL, END_OF_RECORD] + [], c) == Lexeme(Option(WILL, END_OF_RECORD))
  {
  }

  lemma DrainOffer(c: Core) returns (d: Core)
    requires Fresh(c)
    ensures Drain(Offer(), c) == Handler([], d)
    ensures Fresh(d) && !d.inSub && d.eor
  {
    hide Drain, LexAt, Apply, Said;
    var c1 := Apply(c, Option(SB, ECHO));
    var c2 := Apply(c1, Standalone(SE));
    d := Apply(c2, Option(WILL, END_OF_RECORD));
    FreshOption(c, SB, ECHO);
    ApplyScans(c, Option(SB, ECHO));
    assert ScannerOf(c1).inSub && ScannerOf(c1).subOpt == ECHO;
    FreshClose(c1);
    ApplyScans(c1, Standalone(SE));
    FreshOption(c2, WILL, END_OF_RECORD);
    ApplyScans(c2, Option(WILL, END_OF_RECORD));
    assert !ScannerOf(d).inSub && ScannerOf(d).eor;
    LexOffer(c, c1);
    LexOffer(c2, c1);
    HandlerFraming.DrainToken(Option(SB, ECHO), [IAC, SE] + [IAC, WILL, END_OF_RECORD], c);
    HandlerFraming.DrainToken(Standalone(SE), [IAC, WILL, END_OF_RECORD], c1);
    HandlerFraming.DrainToken(Option(WILL, END_OF_RECORD), [], c2);
    HandlerFraming.DrainNothing(d);
    assert [IAC, WILL, END_OF_RECORD] + [] == [IAC, WILL, END_OF_RECORD];
  }

  /** The offer, behind whatever completes the unread tail. */
  function OfferAfter(rx: seq<byte>): seq<byte> {
    if rx == [] then Offer() else if |rx| == 1 then Offer()[1..] else [ECHO] + Offer()
  }

  lemma OfferTail(rx: seq<byte>, c: Core)
    requires LexAt(rx, c).Incomplete?
    ensures rx == [] || rx == [IAC] ==> rx + OfferAfter(rx) == Offer()
    ensures rx != [] && rx != [IAC] ==>
      && |rx| == 2 && rx[0] == IAC && rx + OfferAfter(rx) == [IAC, rx[1], ECHO] + Offer()
      && LexAt([IAC, rx[1], ECHO] + Offer(), c) == Lexeme(Option(rx[1], ECHO))
  {
  }

  /** Whatever an incomplete handler has read so far, a host can bring it there. */
  lemma OfferAccepted(h: Handler)
    requires HandlerFraming.Drained(h) && Fresh(h.core)
    ensures var g := Receive(h, OfferAfter(h.rx)); g.rx == [] && Fresh(g.core) && !g.core.inSub && g.core.eor
  {
    hide Drain, LexAt, Apply, Offer, OfferAfter;
    OfferTail(h.rx, h.core);
    assert h.core.(processed := []) == h.core;
    if h.rx == [] || h.rx == [IAC] {
      var d := DrainOffer(h.core);
    } else {
      var t := Option(h.rx[1], ECHO);
      HandlerFraming.DrainToken(t, Offer(), h.core);
      FreshOption(h.core, h.rx[1], ECHO);
      var d := DrainOffer(Apply(h.core, t));
    }
  }

  lemma ReceiveAllSnoc(h: Handler, chunks: seq<seq<byte>>, last: seq<byte>)
    ensures ReceiveAll(h, chunks + [last]) == Receive(ReceiveAll(h, chunks), last)
    ensures Concat(chunks + [last]) == Concat(chunks) + last
  {
    hide Receive;
    assert (chunks + [last])[..|chunks|] == chunks;
    FlatMapSnoc(Id, chunks, last);
  }

  lemma FreshCutMatters(h: Handler)
    requires HandlerFraming.Drained(h) && Fresh(h.core)
    ensures !CutFree(h)
  {
    hide Receive, ReceiveAll, Said, OfferAfter, FlatMap, CutFree;
    var offer := OfferAfter(h.rx);
    OfferAccepted(h);
    CutMattersBeforeHandshake(Receive(h, offer), 0, 0, 241);
    ReceiveAllNone(h);
    ReceiveAllSnoc(h, [], offer);
    ReceiveAllSnoc(h, [offer], [0, 0, IAC, 241]);
    ReceiveAllSnoc(h, [offer], [0]);
    ReceiveAllSnoc(h, [offer, [0]], [0, IAC, 241]);
    var whole, cut := [offer] + [[0, 0, IAC, 241]], [offer, [0]] + [[0, IAC, 241]];
    assert [] + [offer] == [offer] && [offer] + [[0]] == [offer, [0]];
    assert Concat([offer]) + [0] + [0, IAC, 241] == Concat([offer]) + [0, 0, IAC, 241];
    var g, h1 := ReceiveAll(h, whole), ReceiveAll(h, cut);
    assert |Said(g.core)| != |Said(h1.core)|;
    if CutFree(h) {
      CutFreeAlike(h, whole, cut);
    }
  }

  lemma CutFreeAlike(h: Handler, a: seq<seq<byte>>, b: seq<seq<byte>>)
    requires CutFree(h) && Concat(a) == Concat(b)
    ensures Said(ReceiveAll(h, a).core) == Said(ReceiveAll(h, b).core)
  {
    hide Receive, ReceiveAll, Said, FlatMap;
    assert Same(ReceiveAll(h, a).core, Receive(h, Concat(a)).core);
    assert Same(ReceiveAll(h, b).core, Receive(h, Concat(b)).core);
  }

  lemma ReceiveAllNone(h: Handler)
    ensures ReceiveAll(h, []) == h
  {
  }

  /**
   When the cut matters: in every state a run can reach, what the handler makes
   of streams is independent of how they are cut into reads exactly when the
   handshake is complete.
   */
  lemma CutFreeExactly(calls: seq<Call>)
    ensures CutFree(Run(calls)) <==> Run(calls).core.complete
  {
    hide Run, CutFree, HandlerRuns.Appended, HandlerRuns.Delivered, HandlerRuns.HandshakeSafe;
    RunDrained(calls);
    HandlerRuns.RunKeeps(calls);
    HandlerRuns.CompletesBetweenCalls(calls);
    if Run(calls).core.complete {
      CompleteCutFree(Run(calls));
    } else {
      FreshCutMatters(Run(calls));
    }
  }
}
