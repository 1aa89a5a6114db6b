/**
 What the handler answers: options, subnegotiations and calls, told from the
 elements of the stream with the codes written out.
 */
module HandlerReplies {
  import opened Bytes
  import opened Telnet
  import opened HandlerSpec
  import opened Agreement
  import HandlerFraming
  import HandlerRuns
  import Gds

  // ----- answers expected

  /** The server seed after an element: a NEW-ENVIRON request that starts with SEND sets it. */
  function SeedOf(e: Elem, seed: seq<byte>): seq<byte> {
    if e.Subnegotiated? && e.opt == 0x27 && e.data != [] && e.data[0] == 0x01 then ScanSeed(e.data[1..], []) else seed
  }

  /**
   WILL is answered DO for BINARY, ECHO, SUPPRESS-GO-AHEAD and END-OF-RECORD and
   DONT for everything else; DO is answered WILL for BINARY, TERMINAL-TYPE,
   END-OF-RECORD and NEW-ENVIRON and WONT for everything else; nothing else is
   answered but the two subnegotiations.
   */
  function ReplyTo(e: Elem, seed: seq<byte>): seq<Event> {
    match e
    case Negotiated(cmd, opt) =>
      if cmd == 0xFB then [OnSendBytes([0xFF, if opt in {0x00, 0x01, 0x03, 0x19} then 0xFD else 0xFE, opt])]
      else if cmd == 0xFD then [OnSendBytes([0xFF, if opt in {0x00, 0x18, 0x19, 0x27} then 0xFB else 0xFC, opt])]
      else []
    case Subnegotiated(opt, _) =>
      if opt == 0x18 then [SentDeviceName]
      else if opt == 0x27 then [SentNewEnviron(SeedOf(e, seed))]
      else []
    case _ => []
  }

  function SeedAfterAll(es: seq<Elem>, seed: seq<byte>): seq<byte> {
    if es == [] then seed else SeedOf(es[|es| - 1], SeedAfterAll(es[..|es| - 1], seed))
  }

  function RepliesTo(es: seq<Elem>, seed: seq<byte>): seq<Event> {
    if es == [] then []
    else RepliesTo(es[..|es| - 1], seed) + ReplyTo(es[|es| - 1], SeedAfterAll(es[..|es| - 1], seed))
  }

  /** The peer has offered or asked for an option. */
  predicate Offers(e: Elem, opt: byte) {
    e.Negotiated? && (e.cmd == 0xFB || e.cmd == 0xFD) && e.opt == opt
  }

  predicate Offered(es: seq<Elem>, opt: byte) {
    exists e | e in es :: Offers(e, opt)
  }

  // ----- answers sent

  function ReplyEvent(e: Event): seq<Event> {
    if e.OnSendBytes? || e.SentDeviceName? || e.SentNewEnviron? then [e] else []
  }

  /** Everything sent so far, in order. */
  function Replies(c: Core): seq<Event> {
    FlatMap(ReplyEvent, c.trace)
  }

  lemma EmitReplies(c: Core, e: Event)
    ensures Replies(Emit(c, e)) == Replies(c) + ReplyEvent(e)
  {
    FlatMapSnoc(ReplyEvent, c.trace, e);
  }

  lemma EmitNoReply(c: Core, e: Event)
    requires ReplyEvent(e) == []
    ensures Replies(Emit(c, e)) == Replies(c)
  {
    EmitReplies(c, e);
    assert Replies(c) + [] == Replies(c);
  }

  lemma RepliesOfTrace(c: Core, d: Core)
    requires c.trace == d.trace
    ensures Replies(c) == Replies(d)
  {
  }

  lemma ConnectReplies(c: Core)
    ensures Replies(Connect(c)) == Replies(c) && Connect(c).serverSeed == c.serverSeed
  {
    hide Replies;
    var c0 := c.(complete := true, state := Connected);
    RepliesOfTrace(c0, c);
    EmitNoReply(c0, OnStateChanged(Connected));
    EmitNoReply(Emit(c0, OnStateChanged(Connected)), OnConnected);
    EmitNoReply(c0, OnConnected);
  }

  /** Completing the handshake answers nothing and changes no flag but its own. */
  lemma CheckCompleteReplies(c: Core)
    ensures var d := CheckComplete(c);
            Replies(d) == Replies(c) && d.serverSeed == c.serverSeed && d.eor == c.eor && d.binary == c.binary
            && (c.binary && (c.termSent || c.handshake != []) ==> d.complete)
  {
    hide Replies;
    var d := Connect(c);
    ConnectReplies(c);
    RepliesOfTrace(d, d.(handshake := []));
    EmitNoReply(d.(handshake := []), OnDataReceived(d.handshake, d.handshake));
  }

  lemma HandleOptionReplies(c: Core, cmd: byte, opt: byte)
    ensures var d, e := HandleOption(c, cmd, opt), Negotiated(cmd, opt);
            && Replies(d) == Replies(c) + ReplyTo(e, c.serverSeed) && d.serverSeed == c.serverSeed
            && (d.eor <==> c.eor || Offers(e, 0x19)) && (d.binary <==> c.binary || Offers(e, 0x00))
  {
    hide Replies, CheckComplete;
    assert Replies(c) + [] == Replies(c);
    if cmd == WILL || cmd == DO {
      var d := Send(c, Reply(cmd, opt), opt);
      EmitReplies(c, OnSendBytes([IAC, Reply(cmd, opt), opt]));
      RepliesOfTrace(d, d.(binary := true));
      RepliesOfTrace(d, d.(eor := true));
      CheckCompleteReplies(d.(binary := true));
      CheckCompleteReplies(d.(eor := true));
    } else {
      RepliesOfTrace(c, HandleOption(c, cmd, opt));
    }
  }

  lemma HandleSubnegotiationReplies(c: Core)
    ensures var d, e := HandleSubnegotiation(c), Subnegotiated(c.subOpt, c.sub);
            && Replies(d) == Replies(c) + ReplyTo(e, c.serverSeed) && d.serverSeed == SeedOf(e, c.serverSeed)
            && d.eor == c.eor && (c.binary ==> d.binary) && (d.binary ==> c.binary || d.complete)
  {
    hide Replies, CheckComplete, ScanSeed;
    var d := Emit(c, Handled(c.subOpt, c.sub));
    EmitNoReply(c, Handled(c.subOpt, c.sub));
    assert Replies(c) + [] == Replies(c);
    if d.subOpt == TERMINAL_TYPE {
      var e := Emit(d, SentDeviceName);
      EmitReplies(d, SentDeviceName);
      RepliesOfTrace(e, e.(termSent := true, binary := true));
      CheckCompleteReplies(e.(termSent := true, binary := true));
    } else if d.subOpt == NEW_ENVIRON {
      var seed := HandleSubnegotiation(c).serverSeed;
      RepliesOfTrace(d, d.(serverSeed := seed));
      EmitReplies(d.(serverSeed := seed), SentNewEnviron(seed));
    }
  }

  lemma FlushRecordReplies(c: Core)
    ensures var d := FlushRecord(c);
            Replies(d) == Replies(c) && d == c.(record := d.record, trace := d.trace)
  {
    if c.record != [] {
      hide Replies, Gds.Repair;
      var block := Gds.Repair(c.record);
      var d := if block != c.record then Emit(c, OnLog) else c;
      EmitNoReply(c, OnLog);
      RepliesOfTrace(d, d.(record := []));
      EmitNoReply(d.(record := []), OnDataReceived(c.record, block));
    }
  }

  lemma HandleStandaloneReplies(c: Core, cmd: byte)
    ensures var d, es := HandleStandalone(c, cmd), TokenSays(ScannerOf(c), Standalone(cmd));
            && Replies(d) == Replies(c) + RepliesTo(es, c.serverSeed)
            && d.serverSeed == SeedAfterAll(es, c.serverSeed)
            && d.eor == c.eor && (c.binary ==> d.binary) && (d.binary ==> c.binary || d.complete)
  {
    hide Replies, FlushRecord, HandleSubnegotiation, SeedOf;
    assert Replies(c) + [] == Replies(c);
    if cmd == SE && c.inSub {
      HandleSubnegotiationReplies(c);
      var d := HandleSubnegotiation(c);
      RepliesOfTrace(d, d.(sub := [], inSub := false));
      assert [] + [Subnegotiated(c.subOpt, c.sub)] == [Subnegotiated(c.subOpt, c.sub)];
      OneReply(Subnegotiated(c.subOpt, c.sub), c.serverSeed);
    } else {
      SilentSays(ScannerOf(c), Standalone(cmd), c.serverSeed);
      if cmd == EOR && c.Framing() {
        var d := c.(record := c.processed + c.record, processed := []);
        RepliesOfTrace(c, d);
        FlushRecordReplies(d);
      }
    }
  }

  lemma OneReply(e: Elem, seed: seq<byte>)
    ensures RepliesTo([e], seed) == ReplyTo(e, seed) && SeedAfterAll([e], seed) == SeedOf(e, seed)
  {
    assert [e][..0] == [];
    assert [] + ReplyTo(e, seed) == ReplyTo(e, seed);
  }

  /** A token that neither negotiates nor closes a subnegotiation asks for no answer. */
  lemma SilentSays(s: Scanner, t: Token, seed: seq<byte>)
    requires !t.Option? && !(t == Standalone(SE) && s.inSub)
    ensures RepliesTo(TokenSays(s, t), seed) == [] && SeedAfterAll(TokenSays(s, t), seed) == seed
    ensures forall opt :: !Offered(TokenSays(s, t), opt)
  {
    var es := TokenSays(s, t);
    if es != [] {
      assert es == [es[0]];
      OneReply(es[0], seed);
    }
  }

  /**
   `d` has answered the elements `es` since `c`, and its flags are raised by
   them, or, for binary mode, by the handshake that has completed.
   */
  predicate Replied(c: Core, d: Core, es: seq<Elem>) {
    && Replies(d) == Replies(c) + RepliesTo(es, c.serverSeed)
    && d.serverSeed == SeedAfterAll(es, c.serverSeed)
    && (d.eor <==> c.eor || Offered(es, 0x19))
    && (c.binary || Offered(es, 0x00) ==> d.binary)
    && (d.binary ==> c.binary || Offered(es, 0x00) || d.complete)
  }

  /** `d` has read the elements `es` since `c`, and answered them. */
  predicate Answered(c: Core, d: Core, es: seq<Elem>) {
    Said(d) == Said(c) + es && Replied(c, d, es) && (c.complete ==> d.complete)
  }

  lemma OptionReplied(c: Core, cmd: byte, opt: byte)
    ensures Replied(c, HandleOption(c, cmd, opt), TokenSays(ScannerOf(c), Option(cmd, opt)))
  {
    hide Replies, HandleOption, RepliesTo, SeedAfterAll, ReplyTo, Offers, Offered;
    HandleOptionReplies(c, cmd, opt);
    OptionAsks(ScannerOf(c), cmd, opt, c.serverSeed);
  }

  lemma StandaloneReplied(c: Core, cmd: byte)
    ensures Replied(c, HandleStandalone(c, cmd), TokenSays(ScannerOf(c), Standalone(cmd)))
  {
    hide Replies, HandleStandalone, RepliesTo, SeedAfterAll, Offered;
    HandleStandaloneReplies(c, cmd);
    StandaloneOffers(ScannerOf(c), cmd);
  }

  lemma DataReplied(c: Core, t: Token)
    requires !t.Option? && !t.Standalone?
    ensures Replied(c, Effect(c, t), TokenSays(ScannerOf(c), t))
  {
    hide Replies, RepliesTo, SeedAfterAll, Offered, TokenSays;
    SilentSays(ScannerOf(c), t, c.serverSeed);
    EmitNoReply(c, OnLog);
    RepliesOfTrace(Effect(c, t), if t.Bare? then Emit(c, OnLog) else c);
    assert Replies(c) + [] == Replies(c);
  }

  lemma ApplyAnswers(c: Core, t: Token)
    ensures Answered(c, Apply(c, t), TokenSays(ScannerOf(c), t))
  {
    ApplyScans(c, t);
    ApplyCompletes(c, t);
    var c1 := Emit(c, Lexed(t));
    EmitNoReply(c, Lexed(t));
    assert Replied(c1, Effect(c1, t), TokenSays(ScannerOf(c), t)) by {
      hide Replied, TokenSays;
      match t
      case Option(cmd, opt) => OptionReplied(c1, cmd, opt);
      case Standalone(cmd) => StandaloneReplied(c1, cmd);
      case _ => DataReplied(c1, t);
    }
    hide Said, Replies, Effect, RepliesTo, SeedAfterAll, Offered, TokenSays, Scan;
  }

  lemma StandaloneOffers(s: Scanner, cmd: byte)
    ensures forall opt :: !Offered(TokenSays(s, Standalone(cmd)), opt)
  {
  }

  lemma OptionAsks(s: Scanner, cmd: byte, opt: byte, seed: seq<byte>)
    ensures var es := TokenSays(s, Option(cmd, opt));
            && RepliesTo(es, seed) == ReplyTo(Negotiated(cmd, opt), seed) && SeedAfterAll(es, seed) == seed
            && forall o :: Offered(es, o) <==> Offers(Negotiated(cmd, opt), o)
  {
    OneReply(Negotiated(cmd, opt), seed);
    if cmd != SB {
      assert TokenSays(s, Option(cmd, opt)) == [Negotiated(cmd, opt)];
      assert Negotiated(cmd, opt) in [Negotiated(cmd, opt)];
    }
  }

  lemma ApplyCompletes(c: Core, t: Token)
    ensures c.complete ==> Apply(c, t).complete
  {
    hide ScanSeed, Gds.Repair;
  }

  lemma {:induction false} AnswersAppend(a: seq<Elem>, b: seq<Elem>, seed: seq<byte>)
    ensures SeedAfterAll(a + b, seed) == SeedAfterAll(b, SeedAfterAll(a, seed))
    ensures RepliesTo(a + b, seed) == RepliesTo(a, seed) + RepliesTo(b, SeedAfterAll(a, seed))
  {
    hide SeedOf, ReplyTo;
    if b == [] {
      assert a + b == a && RepliesTo(a, seed) + [] == RepliesTo(a, seed);
    } else {
      var front, e := b[..|b| - 1], b[|b| - 1];
      AnswersAppend(a, front, seed);
      assert (a + b)[..|a + b| - 1] == a + front;
      var s := SeedAfterAll(a, seed);
      assert RepliesTo(a, seed) + RepliesTo(front, s) + ReplyTo(e, SeedAfterAll(front, s))
          == RepliesTo(a, seed) + (RepliesTo(front, s) + ReplyTo(e, SeedAfterAll(front, s)));
    }
  }

  lemma AnsweredThen(c: Core, d: Core, e: Core, a: seq<Elem>, b: seq<Elem>)
    requires Answered(c, d, a) && Answered(d, e, b)
    ensures Answered(c, e, a + b)
  {
    AnswersAppend(a, b, c.serverSeed);
    hide Said, Replies, SeedAfterAll, RepliesTo, Offers;
    assert forall opt :: Offered(a + b, opt) <==> Offered(a, opt) || Offered(b, opt);
    assert Said(c) + a + b == Said(c) + (a + b);
    var s := c.serverSeed;
    assert Replies(c) + RepliesTo(a, s) + RepliesTo(b, SeedAfterAll(a, s))
        == Replies(c) + (RepliesTo(a, s) + RepliesTo(b, SeedAfterAll(a, s)));
  }

  lemma AnsweredNothing(c: Core)
    ensures Answered(c, c, [])
  {
    assert Said(c) + [] == Said(c) && Replies(c) + [] == Replies(c);
  }

  lemma {:induction false} DrainAnswers(rx: seq<byte>, c: Core) returns (es: seq<Elem>)
    ensures Answered(c, Drain(rx, c).core, es)
    decreases |rx|
  {
    hide Drain, LexAt, Apply, Answered, TokenSays;
    DrainStep(rx, c);
    if LexAt(rx, c).Incomplete? {
      es := [];
      AnsweredNothing(c);
    } else {
      var t := LexAt(rx, c).t;
      var d := Apply(c, t);
      HandlerFraming.LexBound(rx, c);
      ApplyAnswers(c, t);
      var more := DrainAnswers(rx[|WireOf(t)|..], d);
      AnsweredThen(c, d, Drain(rx, c).core, TokenSays(ScannerOf(c), t), more);
      es := TokenSays(ScannerOf(c), t) + more;
    }
  }

  /** The end of a read answers nothing; it may complete the handshake in binary mode. */
  lemma EndReadAnswers(c: Core)
    ensures Answered(c, EndRead(c), []) && Answered(c, c.(processed := []), [])
  {
    EndReadSame(c);
    ClearedSame(c);
    AnsweredNothing(c);
    hide Said, CheckComplete, Replies;
    RepliesOfTrace(c, c.(processed := []));
    if c.processed != [] {
      if c.complete {
        var d := Emit(c, OnDataReceived(c.processed, c.processed));
        EmitNoReply(c, OnDataReceived(c.processed, c.processed));
        RepliesOfTrace(d, d.(processed := []));
      } else {
        var d := c.(handshake := c.handshake + c.processed, processed := [], binary := true);
        RepliesOfTrace(c, d);
        CheckCompleteReplies(d);
      }
    }
  }

  lemma ReceiveAnswers(h: Handler, data: seq<byte>) returns (es: seq<Elem>)
    ensures Answered(h.core, Receive(h, data).core, es)
  {
    hide Drain, EndRead, Answered;
    var c := h.core.(processed := []);
    var d := Drain(h.rx + data, c).core;
    EndReadAnswers(h.core);
    es := DrainAnswers(h.rx + data, c);
    EndReadAnswers(d);
    AnsweredThen(h.core, c, d, [], es);
    AnsweredThen(h.core, d, EndRead(d), [] + es, []);
    assert [] + es + [] == es;
  }

  /**
   Whatever bytes arrive, in whatever reads, the handler sends exactly the
   answers to the elements it reads, in order and once each, and no option
   raises a flag but BINARY and END-OF-RECORD theirs.
   */
  lemma {:induction false} RepliesFollow(h: Handler, chunks: seq<seq<byte>>) returns (es: seq<Elem>)
    ensures Answered(h.core, ReceiveAll(h, chunks).core, es)
  {
    if chunks == [] {
      es := [];
      AnsweredNothing(h.core);
    } else {
      hide Receive, Answered;
      var front, last := chunks[..|chunks| - 1], chunks[|chunks| - 1];
      var a := RepliesFollow(h, front);
      var b := ReceiveAnswers(ReceiveAll(h, front), last);
      AnsweredThen(h.core, ReceiveAll(h, front).core, ReceiveAll(h, chunks).core, a, b);
      es := a + b;
    }
  }

  // ----- a stream without application data may be cut anywhere

  /** No application byte is waiting. */
  predicate Calm(c: Core) {
    c.record == [] && c.processed == []
  }

  lemma CheckCompleteCalm(c: Core)
    ensures CheckComplete(c).record == c.record && CheckComplete(c).processed == c.processed
  {
  }

  lemma OptionCalm(c: Core, cmd: byte, opt: byte)
    requires Calm(c)
    ensures Calm(HandleOption(c, cmd, opt))
  {
    hide CheckComplete, Reply;
    var d := Send(c, Reply(cmd, opt), opt);
    CheckCompleteCalm(d.(binary := true));
    CheckCompleteCalm(d.(eor := true));
  }

  lemma SubnegotiationCalm(c: Core)
    requires Calm(c)
    ensures Calm(HandleSubnegotiation(c))
  {
    hide CheckComplete, ScanSeed;
    CheckCompleteCalm(Emit(Emit(c, Handled(c.subOpt, c.sub)), SentDeviceName).(termSent := true, binary := true));
  }

  lemma StandaloneCalm(c: Core, cmd: byte)
    requires Calm(c)
    ensures Calm(HandleStandalone(c, cmd))
  {
    hide HandleSubnegotiation;
    SubnegotiationCalm(c);
    assert c.processed + c.record == [];
  }

  lemma ApplyCalm(c: Core, t: Token)
    requires Calm(c) && AppOf(t) == []
    ensures Calm(Apply(c, t))
  {
    hide HandleOption, HandleStandalone;
    match t
    case SubByte(_) =>
    case Standalone(cmd) => StandaloneCalm(Emit(c, Lexed(t)), cmd);
    case Option(cmd, opt) => OptionCalm(Emit(c, Lexed(t)), cmd, opt);
  }

  /** The application bytes read so far. */
  function BytesSaid(c: Core): seq<byte> {
    BytesIn(Said(c))
  }

  lemma SaysBytes(s: Scanner, t: Token)
    ensures BytesIn(TokenSays(s, t)) == AppOf(t)
  {
    var says := TokenSays(s, t);
    if says == [] {
      assert BytesIn([]) == [];
    } else {
      assert says == [says[0]];
      FlatMapOne(ElemBytes, says[0]);
    }
    hide FlatMap;
  }

  lemma ApplyBytes(c: Core, t: Token)
    ensures BytesSaid(Apply(c, t)) == BytesSaid(c) + AppOf(t)
  {
    hide Said, FlatMap, Apply, TokenSays, BytesIn;
    ApplyScans(c, t);
    SaysBytes(ScannerOf(c), t);
    InAppend(Said(c), TokenSays(ScannerOf(c), t));
  }

  lemma {:induction false} DrainBytes(rx: seq<byte>, c: Core)
    ensures BytesSaid(c) <= BytesSaid(Drain(rx, c).core)
    ensures Calm(c) && |BytesSaid(Drain(rx, c).core)| == |BytesSaid(c)| ==> Calm(Drain(rx, c).core)
    decreases |rx|
  {
    hide Drain, LexAt, Apply, BytesSaid, Calm;
    DrainStep(rx, c);
    if LexAt(rx, c).Lexeme? {
      var t := LexAt(rx, c).t;
      HandlerFraming.LexBound(rx, c);
      ApplyBytes(c, t);
      DrainBytes(rx[|WireOf(t)|..], Apply(c, t));
      if Calm(c) && AppOf(t) == [] {
        ApplyCalm(c, t);
      }
    }
  }

  lemma EndReadCalm(c: Core)
    requires Calm(c)
    ensures EndRead(c) == c && c.(processed := []) == c
  {
  }

  /**
   Reads that bring no application data: however they are cut, and whatever is
   negotiated on the way, every field and the whole history come out the same.
   */
  lemma {:induction false} QuietCuts(h: Handler, chunks: seq<seq<byte>>)
    requires HandlerFraming.Drained(h) && Calm(h.core)
    requires |BytesSaid(Drain(h.rx + Concat(chunks), h.core).core)| == |BytesSaid(h.core)|
    ensures ReceiveAll(h, chunks) == Drain(h.rx + Concat(chunks), h.core) && Calm(ReceiveAll(h, chunks).core)
  {
    hide Drain, LexAt, BytesSaid, EndRead, Calm;
    if chunks == [] {
      assert h.rx + Concat(chunks) == h.rx;
      DrainStep(h.rx, h.core);
    } else {
      var front, last := chunks[..|chunks| - 1], chunks[|chunks| - 1];
      var one := Drain(h.rx + Concat(front), h.core);
      HandlerFraming.DrainAppend(h.rx + Concat(front), last, h.core);
      assert h.rx + Concat(chunks) == h.rx + Concat(front) + last;
      DrainBytes(h.rx + Concat(front), h.core);
      DrainBytes(one.rx + last, one.core);
      QuietCuts(h, front);
      EndReadCalm(one.core);
      EndReadCalm(Drain(one.rx + last, one.core).core);
    }
  }

  /** An element that brings no application data, not even as a 0xFF in a subnegotiation. */
  predicate Silent(e: Elem) {
    WellFormed(e) && !e.AppByte? && (e.Subnegotiated? ==> IAC !in e.data)
  }

  lemma SilentElem(e: Elem)
    requires Silent(e)
    ensures HandlerView(e) == [e] && BytesIn([e]) == []
  {
    HandlerViewSize(e);
    FlatMapOne(ElemBytes, e);
  }

  lemma DrainQuietElem(e: Elem, c: Core) returns (d: Core)
    requires Silent(e) && Calm(c) && !c.inSub
    ensures Drain(Print(e), c) == Handler([], d)
    ensures Said(d) == Said(c) + [e] && Calm(d) && !d.inSub
  {
    hide Drain, LexAt, Said, FlatMap, HandlerView, Calm;
    assert Print(e) + [] == Print(e);
    SilentElem(e);
    assert !c.MidRecord() by { CalmBetween(c); }
    if e.Subnegotiated? {
      d := DrainSubnegotiation(e.opt, e.data, [], c);
    } else {
      LexElem(e, [], c);
      d := DrainSaid(ElemToken(e), [], c);
      assert [e] + [] == [e];
    }
    HandlerFraming.DrainNothing(d);
    InAppend(Said(c), [e]);
    assert BytesIn(Said(c)) + [] == BytesIn(Said(c));
    DrainBytes(Print(e), c);
    assert !ScannerOf(d).inSub;
  }

  lemma CalmBetween(c: Core)
    requires Calm(c)
    ensures !c.MidRecord()
  {
  }

  lemma {:induction false} DrainQuiet(es: seq<Elem>, c: Core) returns (d: Core)
    requires Calm(c) && !c.inSub && forall e | e in es :: Silent(e)
    ensures Drain(PrintAll(es), c) == Handler([], d)
    ensures Said(d) == Said(c) + es && BytesSaid(d) == BytesSaid(c) && Calm(d) && !d.inSub
  {
    hide Drain, Said, Silent, Calm, Print;
    if es == [] {
      d := c;
      HandlerFraming.DrainNothing(c);
      assert Said(c) + [] == Said(c);
    } else {
      var front, e := es[..|es| - 1], es[|es| - 1];
      assert e in es && forall f | f in front :: f in es;
      assert PrintAll(es) == PrintAll(front) + Print(e);
      hide FlatMap;
      var c1 := DrainQuiet(front, c);
      HandlerFraming.DrainAppend(PrintAll(front), Print(e), c);
      assert [] + Print(e) == Print(e);
      d := DrainQuietElem(e, c1);
      assert Said(c) + front + [e] == Said(c) + es;
      SilentElem(e);
      InAppend(Said(c1), [e]);
      assert BytesIn(Said(c1)) + [] == BytesIn(Said(c1));
    }
  }

  /**
   Negotiation: from any well-formed commands and subnegotiations, outside a
   record and in whatever reads and state of the handshake, the handler sends
   exactly their answers, in order, and ends with exactly the flags and the
   server seed they ask for.
   */
  lemma OptionsAnswered(h: Handler, es: seq<Elem>, chunks: seq<seq<byte>>)
    requires h.rx == [] && !h.core.inSub && Calm(h.core)
    requires (forall e | e in es :: Silent(e)) && Concat(chunks) == PrintAll(es)
    ensures var g := ReceiveAll(h, chunks);
            && g.rx == [] && !g.core.inSub && Calm(g.core)
            && Replies(g.core) == Replies(h.core) + RepliesTo(es, h.core.serverSeed)
            && g.core.serverSeed == SeedAfterAll(es, h.core.serverSeed)
            && (g.core.eor <==> h.core.eor || Offered(es, 0x19))
            && (h.core.binary || Offered(es, 0x00) ==> g.core.binary)
            && (g.core.binary ==> h.core.binary || Offered(es, 0x00) || g.core.complete)
  {
    hide Drain, Said, FlatMap, ReceiveAll, Silent, Calm, BytesSaid, Replies, RepliesTo, SeedAfterAll, Offered;
    var d := DrainQuiet(es, h.core);
    assert h.rx + Concat(chunks) == PrintAll(es);
    QuietCuts(h, chunks);
    var said := RepliesFollow(h, chunks);
    SameSuffix(Said(h.core), es, said);
  }

  lemma SameSuffix<T>(a: seq<T>, b: seq<T>, c: seq<T>)
    requires a + b == a + c
    ensures b == c
  {
    assert b == (a + b)[|a|..] && c == (a + c)[|a|..];
  }

  /** The same with application data, as long as END-OF-RECORD is not negotiated. */
  lemma OptionsAmongData(h: Handler, es: seq<Elem>, chunks: seq<seq<byte>>)
    requires h.rx == [] && Unframed(h.core)
    requires (forall e | e in es :: WellFormed(e) && !NegotiatesEor(e)) && Concat(chunks) == PrintAll(es)
    ensures var g, views := ReceiveAll(h, chunks), FlatMap(HandlerView, es);
            && Replies(g.core) == Replies(h.core) + RepliesTo(views, h.core.serverSeed)
            && g.core.serverSeed == SeedAfterAll(views, h.core.serverSeed)
  {
    hide Said, FlatMap, ReceiveAll, Replies, RepliesTo, SeedAfterAll, Offered, HandlerView;
    HandlerOnStream(h, es, chunks);
    var said := RepliesFollow(h, chunks);
    SameSuffix(Said(h.core), FlatMap(HandlerView, es), said);
  }

  // ----- calls

  /** What opening the connection sends. */
  lemma OpeningSent(h: Handler)
    ensures Replies(Do(h, SocketConnected).core) == Replies(h.core) +
      [OnSendBytes([0xFF, 0xFD, 0x00]), OnSendBytes([0xFF, 0xFB, 0x00]),
       OnSendBytes([0xFF, 0xFD, 0x19]), OnSendBytes([0xFF, 0xFB, 0x19])]
  {
    var c0 := SetState(h.core, Negotiating);
    var c1 := Send(c0, 0xFD, 0x00);
    var c2 := Send(c1, 0xFB, 0x00);
    var c3 := Send(c2, 0xFD, 0x19);
    hide Replies;
    RepliesOfTrace(h.core, h.core.(state := Negotiating));
    EmitNoReply(h.core.(state := Negotiating), OnStateChanged(Negotiating));
    EmitReplies(c0, OnSendBytes([0xFF, 0xFD, 0x00]));
    EmitReplies(c1, OnSendBytes([0xFF, 0xFB, 0x00]));
    EmitReplies(c2, OnSendBytes([0xFF, 0xFD, 0x19]));
    EmitReplies(c3, OnSendBytes([0xFF, 0xFB, 0x19]));
  }

  /** `sendData` sends what `sendGDS` sends for a put/get record without flags. */
  lemma DataSentAsPutGet(h: Handler, data: seq<byte>)
    ensures Do(h, SendData(data)) == Do(h, SendGds(0x00, 0x03, data))
  {
    hide Frame, Gds.Record;
  }
}
