/** Chunk independence and the print/parse round trip of the Telnet client. */
module TelnetClientProofs {
  import opened Bytes
  import opened Telnet
  import opened TelnetClient

  /** Every element the client reports exactly as it was printed. */
  predicate Printable(e: Elem) {
    match e
    case AppByte(_) => true
    case Negotiated(cmd, _) => !IsStandalone(cmd) && cmd != SB && cmd != IAC
    case Command(c) => IsStandalone(c) && c != SE
    case Subnegotiated(_, _) => true
  }

  lemma EmitSays(p: Parser, e: Event)
    ensures Reported(p.Emit(e)) == Reported(p) + ElemsOf(e)
  {
    FlatMapSnoc(ElemsOf, p.trace, e);
  }

  lemma PushSays(p: Parser, b: byte)
    ensures Said(p.(app := p.app + [b])) == Said(p) + [AppByte(b)]
  {
    FlatMapSnoc(ToAppByte, p.app, b);
  }

  /** Flushing application data early changes only how it is grouped. */
  lemma FlushAlike(p: Parser)
    requires p.Valid()
    ensures Alike(Flush(p), p)
  {
    EmitSays(p, OnAppData(p.app));
    assert AppBytes([]) == [];
  }

  lemma StepKeepsValid(p: Parser, b: byte)
    requires p.Valid()
    ensures Step(p, b).Valid()
  {
  }

  /** What one byte adds to what has been said depends on the automaton alone. */
  function StepSays(p: Parser, b: byte): seq<Elem> {
    match p.state
    case Data => if b == IAC then [] else [AppByte(b)]
    case Iac =>
      if b == IAC then [AppByte(IAC)]
      else if IsStandalone(b) && b != SE then [Command(b)] else []
    case NegotiationOption => [Negotiated(p.pendingCmd, b)]
    case SubnegotiationIac => if b == SE then [Subnegotiated(p.sbOpt, p.sb)] else []
    case _ => []
  }

  lemma StepSaysIt(p: Parser, b: byte)
    requires p.Valid()
    ensures Said(Step(p, b)) == Said(p) + StepSays(p, b)
  {
    match p.state
    case Data =>
      if b == IAC {
        FlushAlike(p);
      } else {
        PushSays(p, b);
      }
    case Iac =>
      if b == IAC {
        PushSays(p, IAC);
      } else {
        EmitSays(p, OnStandaloneCommand(b));
      }
    case NegotiationOption =>
      EmitSays(p.(pendingOpt := b), OnNegotiationCommand(p.pendingCmd, b));
    case SubnegotiationIac =>
      EmitSays(p, OnSubnegotiation(p.sbOpt, p.sb));
    case _ =>
  }

  lemma StepAlike(p: Parser, q: Parser, b: byte)
    requires Alike(p, q)
    ensures Alike(Step(p, b), Step(q, b))
  {
    StepSaysIt(p, b);
    StepSaysIt(q, b);
  }

  lemma {:induction false} RunAlike(p: Parser, q: Parser, data: seq<byte>)
    requires Alike(p, q)
    ensures Alike(Run(p, data), Run(q, data))
  {
    if data != [] {
      RunAlike(p, q, data[..|data| - 1]);
      StepAlike(Run(p, data[..|data| - 1]), Run(q, data[..|data| - 1]), data[|data| - 1]);
    }
  }

  lemma {:induction false} RunAppend(p: Parser, a: seq<byte>, b: seq<byte>)
    ensures Run(p, a + b) == Run(Run(p, a), b)
  {
    if b == [] {
      assert a + b == a;
    } else {
      RunAppend(p, a, b[..|b| - 1]);
      assert (a + b)[..|a + b| - 1] == a + b[..|b| - 1];
    }
  }

  /**
   However TCP cuts the stream, the client says what it would say of one read
   and is left in the same automaton state.
   */
  lemma {:induction false} ChunkIndependence(p: Parser, chunks: seq<seq<byte>>)
    requires p.Valid()
    ensures Alike(FeedAll(p, chunks), Run(p, Concat(chunks)))
  {
    if chunks == [] {
      assert Said(p) == Said(p);
    } else {
      var front, last := chunks[..|chunks| - 1], chunks[|chunks| - 1];
      var p1, q1 := FeedAll(p, front), Run(p, Concat(front));
      ChunkIndependence(p, front);
      RunAlike(p1, q1, last);
      FlushAlike(Run(p1, last));
      RunAppend(p, Concat(front), last);
    }
  }

  lemma RunOne(p: Parser, b: byte)
    ensures Run(p, [b]) == Step(p, b)
  {
    assert [b][..0] == [];
  }

  lemma RunTwo(p: Parser, a: byte, b: byte)
    ensures Run(p, [a, b]) == Step(Step(p, a), b)
  {
    RunAppend(p, [a], [b]);
    RunOne(p, a);
    RunOne(Step(p, a), b);
    assert [a] + [b] == [a, b];
  }

  lemma RunThree(p: Parser, a: byte, b: byte, c: byte)
    ensures Run(p, [a, b, c]) == Step(Step(Step(p, a), b), c)
  {
    RunAppend(p, [a, b], [c]);
    RunTwo(p, a, b);
    RunOne(Step(Step(p, a), b), c);
    assert [a, b] + [c] == [a, b, c];
  }

  /** Doubled data inside a subnegotiation is collected undoubled. */
  lemma {:induction false} RunEscaped(p: Parser, data: seq<byte>)
    requires p.state == SubnegotiationData
    ensures Run(p, Escape(data)) == p.(sb := p.sb + data)
  {
    if data == [] {
      assert p.sb + data == p.sb;
    } else {
      var front, b := data[..|data| - 1], data[|data| - 1];
      RunEscaped(p, front);
      var p1 := p.(sb := p.sb + front);
      RunAppend(p, Escape(front), Double(b));
      if b == IAC {
        RunTwo(p1, IAC, IAC);
      } else {
        RunOne(p1, b);
      }
      assert p1.sb + [b] == p.sb + data;
    }
  }

  lemma RunPrintedByte(p: Parser, b: byte)
    requires p.state == Data
    ensures Run(p, Double(b)).state == Data
    ensures Said(Run(p, Double(b))) == Said(p) + [AppByte(b)]
  {
    StepSaysIt(p, b);
    if b == IAC {
      RunTwo(p, IAC, IAC);
      StepSaysIt(Step(p, IAC), IAC);
    } else {
      RunOne(p, b);
    }
  }

  lemma RunPrintedNegotiation(p: Parser, cmd: byte, opt: byte)
    requires p.state == Data && Printable(Negotiated(cmd, opt))
    ensures Run(p, [IAC, cmd, opt]).state == Data
    ensures Said(Run(p, [IAC, cmd, opt])) == Said(p) + [Negotiated(cmd, opt)]
  {
    var q := Step(p, IAC);
    RunThree(p, IAC, cmd, opt);
    StepSaysIt(p, IAC);
    StepSaysIt(q, cmd);
    StepSaysIt(Step(q, cmd), opt);
  }

  lemma RunSubnegotiationHead(p: Parser, opt: byte) returns (r: Parser)
    requires p.state == Data
    ensures r == Run(p, [IAC, SB, opt])
    ensures r.state == SubnegotiationData && r.sbOpt == opt && r.sb == [] && r.app == [] && Said(r) == Said(p)
  {
    hide Run;
    r := Step(Step(Step(p, IAC), SB), opt);
    RunThree(p, IAC, SB, opt);
    StepSaysIt(p, IAC);
  }

  lemma RunSubnegotiationTail(r: Parser)
    requires r.state == SubnegotiationData && r.app == []
    ensures Run(r, [IAC, SE]).state == Data
    ensures Said(Run(r, [IAC, SE])) == Said(r) + [Subnegotiated(r.sbOpt, r.sb)]
  {
    hide Run;
    RunTwo(r, IAC, SE);
    StepSaysIt(Step(r, IAC), SE);
  }

  lemma RunPrintedSubnegotiation(p: Parser, opt: byte, data: seq<byte>)
    requires p.state == Data
    ensures Run(p, Print(Subnegotiated(opt, data))).state == Data
    ensures Said(Run(p, Print(Subnegotiated(opt, data)))) == Said(p) + [Subnegotiated(opt, data)]
  {
    var r := RunSubnegotiationHead(p, opt);
    RunAppend(p, [IAC, SB, opt], Escape(data));
    RunEscaped(r, data);
    assert r.sb + data == data;
    RunAppend(p, [IAC, SB, opt] + Escape(data), [IAC, SE]);
    RunSubnegotiationTail(r.(sb := data));
  }

  /** Printing one element and feeding it from the Data state says that element. */
  lemma RunPrinted(p: Parser, e: Elem)
    requires p.state == Data && Printable(e)
    ensures Run(p, Print(e)).state == Data
    ensures Said(Run(p, Print(e))) == Said(p) + [e]
  {
    match e
    case AppByte(b) => RunPrintedByte(p, b);
    case Negotiated(cmd, opt) => RunPrintedNegotiation(p, cmd, opt);
    case Command(c) =>
      RunTwo(p, IAC, c);
      StepSaysIt(p, IAC);
      StepSaysIt(Step(p, IAC), c);
    case Subnegotiated(opt, data) => RunPrintedSubnegotiation(p, opt, data);
  }

  lemma {:induction false} RunPrintedAll(p: Parser, es: seq<Elem>)
    requires p.state == Data && forall e | e in es :: Printable(e)
    ensures Run(p, PrintAll(es)).state == Data
    ensures Said(Run(p, PrintAll(es))) == Said(p) + es
  {
    if es == [] {
      assert Said(p) + es == Said(p);
    } else {
      hide Step, Said, Print, Run;
      var front, e := es[..|es| - 1], es[|es| - 1];
      RunPrintedAll(p, front);
      RunAppend(p, PrintAll(front), Print(e));
      RunPrinted(Run(p, PrintAll(front)), e);
      assert (Said(p) + front) + [e] == Said(p) + es;
    }
  }

  lemma {:induction false} FeedAllFlushes(p: Parser, chunks: seq<seq<byte>>)
    requires chunks != []
    ensures FeedAll(p, chunks).app == []
  {
  }

  lemma SaidWhenFlushed(p: Parser)
    ensures p.app == [] ==> Said(p) == Reported(p)
  {
    assert Reported(p) + [] == Reported(p);
  }

  /**
   Print/parse round trip: the printed form of any list of elements, cut into
   reads anywhere, is reported back as exactly that list.
   */
  lemma PrintParse(p: Parser, es: seq<Elem>, chunks: seq<seq<byte>>)
    requires p.state == Data && p.app == []
    requires forall e | e in es :: Printable(e)
    requires Concat(chunks) == PrintAll(es)
    ensures var q := FeedAll(p, chunks);
            q.state == Data && q.app == [] && Reported(q) == Reported(p) + es
  {
    ChunkIndependence(p, chunks);
    RunPrintedAll(p, es);
    SaidWhenFlushed(p);
    SaidWhenFlushed(FeedAll(p, chunks));
    if chunks != [] {
      FeedAllFlushes(p, chunks);
    }
  }

  lemma {:induction false} RunKeepsValid(p: Parser, data: seq<byte>)
    requires p.Valid()
    ensures Run(p, data).Valid()
  {
    if data != [] {
      RunKeepsValid(p, data[..|data| - 1]);
      StepKeepsValid(Run(p, data[..|data| - 1]), data[|data| - 1]);
    }
  }

  /**
   The element list is printed unambiguously: it can be read back from the
   bytes, so two different lists never share a printed form.
   */
  lemma PrintInjective(es: seq<Elem>, fs: seq<Elem>)
    requires forall e | e in es :: Printable(e)
    requires forall f | f in fs :: Printable(f)
    requires PrintAll(es) == PrintAll(fs)
    ensures es == fs
  {
    var p := Parser(Data, [], IAC, TRANSMIT_BINARY, TRANSMIT_BINARY, [], []);
    RunPrintedAll(p, es);
    RunPrintedAll(p, fs);
    assert Said(p) == [];
    assert [] + es == es && [] + fs == fs;
  }
}
