/**
 What every run of the protocol handler keeps, from construction and for any
 list of calls: no byte is lost or moved, and the handshake is safe.
 */
module HandlerRuns {
  import opened Bytes
  import opened Telnet
  import opened HandlerSpec

  function WireEvent(e: Event): seq<byte> {
    if e.Lexed? then WireOf(e.t) else []
  }

  function AppEvent(e: Event): seq<byte> {
    if e.Lexed? then AppOf(e.t) else []
  }

  function RawEvent(e: Event): seq<byte> {
    if e.OnDataReceived? then e.raw else []
  }

  function ConnectedEvent(e: Event): seq<Event> {
    if e.OnConnected? then [e] else []
  }

  /** The wire bytes taken off the receive buffer so far. */
  function Consumed(trace: seq<Event>): seq<byte> {
    FlatMap(WireEvent, trace)
  }

  /** The bytes passed to `appendData` so far. */
  function Appended(trace: seq<Event>): seq<byte> {
    FlatMap(AppEvent, trace)
  }

  /** The blocks delivered so far, before length repair, joined. */
  function Delivered(trace: seq<Event>): seq<byte> {
    FlatMap(RawEvent, trace)
  }

  /** How often `onConnected` has fired. */
  function Connections(trace: seq<Event>): nat {
    |FlatMap(ConnectedEvent, trace)|
  }

  /** A block is handed over as it was collected, or with its length repaired. */
  predicate Genuine(e: Event) {
    e.OnDataReceived? ==> e.block == e.raw || e.block == Gds.Repair(e.raw)
  }

  /** Every block is genuine, and none is delivered before `onConnected`. */
  predicate Ordered(trace: seq<Event>) {
    trace == [] ||
    (var e := trace[|trace| - 1];
     Ordered(trace[..|trace| - 1]) && Genuine(e) &&
     (e.OnDataReceived? ==> OnConnected in trace[..|trace| - 1]))
  }

  /** All appended bytes but the last `owed` are delivered or still buffered, in order. */
  predicate Balanced(c: Core, owed: seq<byte>) {
    && Appended(c.trace) == Delivered(c.trace) + c.record + c.processed + c.handshake + owed
    && (c.record == [] || c.processed == [])
    && (c.record != [] ==> c.Framing())
  }

  predicate HandshakeSafe(c: Core) {
    && Ordered(c.trace)
    && Connections(c.trace) == (if c.complete then 1 else 0)
    && (c.complete ==> OnConnected in c.trace && c.binary && (c.termSent || Appended(c.trace) != []))
  }

  predicate Inv(c: Core) {
    Balanced(c, []) && c.handshake == [] && HandshakeSafe(c)
  }

  lemma EmitCounts(c: Core, e: Event)
    ensures var d := Emit(c, e);
            && Consumed(d.trace) == Consumed(c.trace) + WireEvent(e)
            && Appended(d.trace) == Appended(c.trace) + AppEvent(e)
            && Delivered(d.trace) == Delivered(c.trace) + RawEvent(e)
            && Connections(d.trace) == Connections(c.trace) + |ConnectedEvent(e)|
            && (Ordered(d.trace) <==> Ordered(c.trace) && Genuine(e) && (e.OnDataReceived? ==> OnConnected in c.trace))
  {
    hide FlatMap;
    FlatMapSnoc(WireEvent, c.trace, e);
    FlatMapSnoc(AppEvent, c.trace, e);
    FlatMapSnoc(RawEvent, c.trace, e);
    FlatMapSnoc(ConnectedEvent, c.trace, e);
    assert (c.trace + [e])[..|c.trace|] == c.trace;
  }

  /** An event that reports nothing about data or the connection. */
  predicate Quiet(e: Event) {
    !e.Lexed? && !e.OnDataReceived? && !e.OnConnected?
  }

  /** `d` differs from `c` in nothing the invariants speak of, but that flags may have been raised. */
  predicate Like(c: Core, d: Core) {
    && Consumed(d.trace) == Consumed(c.trace) && Appended(d.trace) == Appended(c.trace) && Delivered(d.trace) == Delivered(c.trace)
    && Connections(d.trace) == Connections(c.trace)
    && Ordered(d.trace) == Ordered(c.trace) && c.trace <= d.trace
    && d.record == c.record && d.processed == c.processed && d.handshake == c.handshake
    && d.complete == c.complete && (c.binary ==> d.binary)
    && (c.eor ==> d.eor) && (c.termSent ==> d.termSent)
  }

  lemma QuietLike(c: Core, e: Event)
    requires Quiet(e)
    ensures Like(c, Emit(c, e))
  {
    EmitCounts(c, e);
  }

  lemma LikeKeeps(c: Core, d: Core, owed: seq<byte>)
    requires Like(c, d)
    ensures Balanced(c, owed) ==> Balanced(d, owed)
    ensures HandshakeSafe(c) ==> HandshakeSafe(d)
  {
    hide Ordered, Connections, Appended, Delivered;
  }

  /** Flags only rise and history only grows. */
  predicate Grows(c: Core, d: Core) {
    && (c.complete ==> d.complete) && (c.binary ==> d.binary)
    && (c.eor ==> d.eor) && (c.termSent ==> d.termSent)
    && c.trace <= d.trace
  }

  lemma SetStateLike(c: Core, s: ConnectionState)
    ensures Like(c, SetState(c, s)) && Grows(c, SetState(c, s))
  {
    if c.state != s {
      QuietLike(c.(state := s), OnStateChanged(s));
    }
  }

  lemma ConnectKeeps(c: Core)
    requires Balanced(c, []) && HandshakeSafe(c)
    requires !c.complete && c.binary && (c.termSent || Appended(c.trace) != [])
    ensures var d := Connect(c);
            && Balanced(d, []) && HandshakeSafe(d) && d.complete
            && Consumed(d.trace) == Consumed(c.trace) && Grows(c, d)
            && d.record == c.record && d.processed == c.processed && d.handshake == c.handshake
  {
    hide Ordered, Connections, Appended, Delivered, Consumed, SetState;
    var c0 := c.(complete := true);
    var c1 := SetState(c0, Connected);
    SetStateLike(c0, Connected);
    EmitCounts(c1, OnConnected);
  }

  lemma DeliverKeeps(c: Core, raw: seq<byte>, block: seq<byte>)
    requires OnConnected in c.trace && HandshakeSafe(c) && Genuine(OnDataReceived(raw, block))
    ensures var d := Emit(c, OnDataReceived(raw, block));
            HandshakeSafe(d) && Delivered(d.trace) == Delivered(c.trace) + raw
            && Appended(d.trace) == Appended(c.trace) && Consumed(d.trace) == Consumed(c.trace)
  {
    hide Ordered, Connections, Appended, Delivered, Consumed;
    EmitCounts(c, OnDataReceived(raw, block));
  }

  lemma DeliverHandshakeKeeps(c: Core)
    requires Balanced(c, []) && HandshakeSafe(c) && c.complete
    requires c.handshake == [] || (c.record == [] && c.processed == [])
    ensures var d := DeliverHandshake(c);
            && Balanced(d, []) && HandshakeSafe(d) && d.handshake == [] && d.processed == c.processed
            && Consumed(d.trace) == Consumed(c.trace) && Grows(c, d)
  {
    if c.handshake != [] {
      hide Ordered, Connections, Appended, Delivered, Consumed;
      var e := c.(handshake := []);
      DeliverKeeps(e, c.handshake, c.handshake);
    }
  }

  lemma CheckCompleteKeeps(c: Core)
    requires Balanced(c, []) && HandshakeSafe(c)
    requires c.handshake == [] || (c.record == [] && c.processed == [] && c.binary && !c.complete)
    ensures var d := CheckComplete(c);
            && Balanced(d, []) && HandshakeSafe(d) && d.handshake == [] && d.processed == c.processed
            && Consumed(d.trace) == Consumed(c.trace) && Grows(c, d)
  {
    if !c.complete && c.binary && (c.termSent || c.handshake != []) {
      assert c.handshake != [] ==> Appended(c.trace) != [];
      hide Ordered, Connections, Appended, Delivered, Consumed, HandshakeSafe, Balanced, Connect, DeliverHandshake;
      ConnectKeeps(c);
      DeliverHandshakeKeeps(Connect(c));
    }
  }

  lemma SendKeeps(c: Core, cmd: byte, opt: byte)
    requires Inv(c)
    ensures var d := Send(c, cmd, opt); Inv(d) && Consumed(d.trace) == Consumed(c.trace) && Grows(c, d)
  {
    hide Ordered, Connections, Appended, Delivered, Consumed, HandshakeSafe, Balanced;
    QuietLike(c, OnSendBytes([IAC, cmd, opt]));
    LikeKeeps(c, Send(c, cmd, opt), []);
  }

  lemma RaiseKeeps(c: Core, binary: bool, eor: bool, termSent: bool)
    requires Inv(c)
    ensures var d := c.(binary := c.binary || binary, eor := c.eor || eor, termSent := c.termSent || termSent);
            Inv(d) && Inv(CheckComplete(d)) && Consumed(CheckComplete(d).trace) == Consumed(c.trace)
            && Grows(c, CheckComplete(d))
  {
    hide Ordered, Connections, Appended, Delivered, Consumed, CheckComplete;
    CheckCompleteKeeps(c.(binary := c.binary || binary, eor := c.eor || eor, termSent := c.termSent || termSent));
  }

  lemma HandleOptionKeeps(c: Core, cmd: byte, opt: byte)
    requires Inv(c)
    ensures var d := HandleOption(c, cmd, opt);
            Inv(d) && Consumed(d.trace) == Consumed(c.trace) && Grows(c, d)
  {
    if cmd == WILL || cmd == DO {
      hide Inv, Consumed, Send, CheckComplete;
      var d := Send(c, Reply(cmd, opt), opt);
      SendKeeps(c, Reply(cmd, opt), opt);
      RaiseKeeps(d, opt == TRANSMIT_BINARY, opt == END_OF_RECORD, false);
    } else {
      hide Ordered, Connections, Appended, Delivered, Consumed;
    }
  }

  lemma DeviceNameKeeps(c: Core)
    requires Inv(c)
    ensures var d := CheckComplete(Emit(c, SentDeviceName).(termSent := true, binary := true));
            Inv(d) && Consumed(d.trace) == Consumed(c.trace) && Grows(c, d)
  {
    hide Inv, Consumed, CheckComplete;
    QuietKeeps(c, SentDeviceName);
    RaiseKeeps(Emit(c, SentDeviceName), true, false, true);
  }

  lemma NewEnvironKeeps(c: Core, seed: seq<byte>)
    requires Inv(c)
    ensures var d := Emit(c.(serverSeed := seed), SentNewEnviron(seed));
            Inv(d) && Consumed(d.trace) == Consumed(c.trace) && Grows(c, d)
  {
    hide Ordered, Connections, Appended, Delivered, Consumed;
    assert Inv(c.(serverSeed := seed));
    hide Inv, Balanced, HandshakeSafe;
    QuietKeeps(c.(serverSeed := seed), SentNewEnviron(seed));
  }

  lemma HandleSubnegotiationKeeps(c: Core)
    requires Inv(c)
    ensures var d := HandleSubnegotiation(c);
            Inv(d) && Consumed(d.trace) == Consumed(c.trace) && Grows(c, d)
  {
    hide Inv, Consumed, CheckComplete, ScanSeed;
    var d := Emit(c, Handled(c.subOpt, c.sub));
    QuietKeeps(c, Handled(c.subOpt, c.sub));
    if c.subOpt == TERMINAL_TYPE {
      DeviceNameKeeps(d);
    } else if c.subOpt == NEW_ENVIRON {
      NewEnvironKeeps(d, HandleSubnegotiation(c).serverSeed);
    }
  }

  lemma AppendDataKeeps(c: Core, b: byte)
    requires Balanced(c, [b]) && c.handshake == [] && HandshakeSafe(c)
    ensures Inv(AppendData(c, b))
  {
    hide Ordered, Connections, Appended, Delivered;
    var whole := Appended(c.trace);
    assert whole == Delivered(c.trace) + (c.record + c.processed + [b]);
    assert whole == Delivered(c.trace) + c.record + (c.processed + [b]);
  }

  lemma FlushRecordKeeps(c: Core)
    requires Inv(c)
    ensures var d := FlushRecord(c);
            Inv(d) && Consumed(d.trace) == Consumed(c.trace) && Grows(c, d)
  {
    if c.record != [] {
      hide Ordered, Connections, Appended, Delivered, Consumed, Gds.Repair, HandshakeSafe;
      var block := Gds.Repair(c.record);
      var d := if block != c.record then Emit(c, OnLog) else c;
      QuietLike(c, OnLog);
      LikeKeeps(c, d, []);
      assert OnConnected in c.trace by {
        ConnectedWhenComplete(c);
      }
      var e := d.(record := []);
      assert HandshakeSafe(e) by {
        SafeWithoutRecord(d);
      }
      DeliverKeeps(e, c.record, block);
    }
  }

  lemma ConnectedWhenComplete(c: Core)
    requires HandshakeSafe(c) && c.complete
    ensures OnConnected in c.trace
  {
  }

  lemma SafeWithoutProcessed(c: Core, d: Core)
    requires HandshakeSafe(d) && c == d.(processed := [])
    ensures HandshakeSafe(c)
  {
  }

  lemma SafeWithoutRecord(c: Core)
    requires HandshakeSafe(c)
    ensures HandshakeSafe(c.(record := []))
  {
  }

  lemma HandleStandaloneKeeps(c: Core, cmd: byte)
    requires Inv(c)
    ensures var d := HandleStandalone(c, cmd);
            Inv(d) && Consumed(d.trace) == Consumed(c.trace) && Grows(c, d)
  {
    hide Ordered, Connections, Appended, Delivered, Consumed, FlushRecord, HandleSubnegotiation;
    if cmd == SE {
      HandleSubnegotiationKeeps(c);
    } else if cmd == EOR && c.Framing() {
      var e := c.(record := c.processed + c.record, processed := []);
      assert c.processed + c.record == c.record + c.processed;
      assert Delivered(c.trace) + c.record + c.processed == Delivered(c.trace) + (c.record + c.processed);
      assert Inv(e);
      FlushRecordKeeps(e);
    }
  }

  lemma DataTokenKeeps(c: Core, t: Token)
    requires Inv(c) && AppOf(t) != []
    ensures var d := Apply(c, t);
            Inv(d) && Consumed(d.trace) == Consumed(c.trace) + WireOf(t) && Grows(c, d)
  {
    hide Ordered, Connections, Appended, Delivered, Consumed, HandshakeSafe, AppendData;
    var c1 := Emit(c, Lexed(t));
    LexedKeeps(c, t);
    if t.Bare? {
      var c2 := Emit(c1, OnLog);
      QuietLike(c1, OnLog);
      LikeKeeps(c1, c2, [IAC]);
      AppendDataApplied(c2, IAC);
    } else {
      AppendDataApplied(c1, AppOf(t)[0]);
    }
  }

  lemma LexedKeeps(c: Core, t: Token)
    requires Inv(c)
    ensures var d := Emit(c, Lexed(t));
            && Balanced(d, AppOf(t)) && HandshakeSafe(d)
            && Consumed(d.trace) == Consumed(c.trace) + WireOf(t) && Grows(c, d)
  {
    hide Ordered, Connections, Appended, Delivered, Consumed;
    EmitCounts(c, Lexed(t));
  }

  /** One token keeps every invariant and is taken off the wire exactly once. */
  lemma ApplyKeeps(c: Core, t: Token)
    requires Inv(c)
    ensures var d := Apply(c, t);
            Inv(d) && Consumed(d.trace) == Consumed(c.trace) + WireOf(t) && Grows(c, d)
  {
    if AppOf(t) != [] {
      DataTokenKeeps(c, t);
    } else {
      hide Ordered, Connections, Appended, Delivered, Consumed, HandleOption, HandleStandalone;
      var c1 := Emit(c, Lexed(t));
      LexedKeeps(c, t);
      assert Inv(c1);
      hide Inv, Balanced, HandshakeSafe;
      match t
      case SubByte(b) => SubByteKeeps(c1, b);
      case Standalone(cmd) => HandleStandaloneKeeps(c1, cmd);
      case Option(cmd, opt) => HandleOptionKeeps(c1, cmd, opt);
    }
  }

  lemma SubByteKeeps(c: Core, b: byte)
    requires Inv(c)
    ensures Inv(c.(sub := c.sub + [b]))
  {
  }

  lemma AppendDataApplied(c: Core, b: byte)
    requires Balanced(c, [b]) && c.handshake == [] && HandshakeSafe(c)
    ensures var d := AppendData(c, b); Inv(d) && d.trace == c.trace && Grows(c, d)
  {
    hide Inv, Balanced, HandshakeSafe;
    AppendDataKeeps(c, b);
  }

  lemma {:induction false} DrainKeeps(rx: seq<byte>, c: Core)
    requires Inv(c)
    ensures var h := Drain(rx, c);
            Inv(h.core) && Consumed(h.core.trace) + h.rx == Consumed(c.trace) + rx && Grows(c, h.core)
    decreases |rx|
  {
    hide Inv, Consumed, Apply, LexAt, Drain;
    DrainStep(rx, c);
    var l := LexAt(rx, c);
    if l.Lexeme? {
      LexAtHead(rx, c);
      var rest := rx[|WireOf(l.t)|..];
      ApplyKeeps(c, l.t);
      DrainKeeps(rest, Apply(c, l.t));
      assert Consumed(c.trace) + (WireOf(l.t) + rest) == Consumed(c.trace) + WireOf(l.t) + rest;
    }
  }

  /** The lexer takes the token's own wire text off the front of the buffer. */
  lemma LexAtHead(rx: seq<byte>, c: Core)
    requires LexAt(rx, c).Lexeme?
    ensures var w := WireOf(LexAt(rx, c).t); |w| <= |rx| && w != [] && rx == w + rx[|w|..]
  {
  }

  lemma MoveToHandshake(c: Core)
    requires Inv(c) && c.processed != [] && !c.complete
    ensures var e := c.(handshake := c.processed, processed := [], binary := true);
            Balanced(e, []) && HandshakeSafe(e)
  {
    hide Ordered, Connections, Appended, Delivered;
  }

  lemma EndReadKeeps(c: Core)
    requires Inv(c)
    ensures var d := EndRead(c);
            Inv(d) && d.processed == [] && Consumed(d.trace) == Consumed(c.trace) && Grows(c, d)
  {
    hide Ordered, Connections, Appended, Delivered, Consumed, CheckComplete, HandshakeSafe;
    if c.processed != [] {
      if c.complete {
        ConnectedWhenComplete(c);
        DeliverKeeps(c, c.processed, c.processed);
        SafeWithoutProcessed(EndRead(c), Emit(c, OnDataReceived(c.processed, c.processed)));
      } else {
        var e := c.(handshake := c.processed, processed := [], binary := true);
        assert c.handshake + c.processed == c.processed;
        MoveToHandshake(c);
        CheckCompleteKeeps(e);
      }
    }
  }

  lemma ReceiveKeeps(h: Handler, data: seq<byte>)
    requires Inv(h.core) && h.core.processed == []
    ensures var g := Receive(h, data);
            && Inv(g.core) && g.core.processed == [] && Grows(h.core, g.core)
            && Consumed(g.core.trace) + g.rx == Consumed(h.core.trace) + h.rx + data
  {
    hide Inv, Consumed, Drain, EndRead;
    assert h.core.(processed := []) == h.core;
    DrainKeeps(h.rx + data, h.core);
    EndReadKeeps(Drain(h.rx + data, h.core).core);
    assert Consumed(h.core.trace) + (h.rx + data) == Consumed(h.core.trace) + h.rx + data;
  }

  lemma QuietKeeps(c: Core, e: Event)
    requires Inv(c) && Quiet(e)
    ensures var d := Emit(c, e);
            Inv(d) && d.processed == c.processed && Consumed(d.trace) == Consumed(c.trace) && Grows(c, d)
  {
    hide Ordered, Connections, Appended, Delivered, Consumed, HandshakeSafe, Balanced;
    QuietLike(c, e);
    LikeKeeps(c, Emit(c, e), []);
  }

  lemma SetStateKeeps(c: Core, s: ConnectionState)
    requires Inv(c)
    ensures var d := SetState(c, s);
            Inv(d) && d.processed == c.processed && Consumed(d.trace) == Consumed(c.trace) && Grows(c, d)
  {
    hide Ordered, Connections, Appended, Delivered, Consumed, HandshakeSafe, Balanced, SetState;
    SetStateLike(c, s);
    LikeKeeps(c, SetState(c, s), []);
  }

  /** The bytes a call feeds into the handler. */
  function Input(call: Call): seq<byte> {
    if call.BytesReceived? then call.data else []
  }

  lemma PerformHandshakeKeeps(c: Core)
    requires Inv(c)
    ensures var d := PerformHandshake(c);
            Inv(d) && d.processed == c.processed && Consumed(d.trace) == Consumed(c.trace) && Grows(c, d)
  {
    hide Inv, Consumed;
    var c1 := Send(c, DO, TRANSMIT_BINARY);
    var c2 := Send(c1, WILL, TRANSMIT_BINARY);
    var c3 := Send(c2, DO, END_OF_RECORD);
    QuietKeeps(c, OnSendBytes([IAC, DO, TRANSMIT_BINARY]));
    QuietKeeps(c1, OnSendBytes([IAC, WILL, TRANSMIT_BINARY]));
    QuietKeeps(c2, OnSendBytes([IAC, DO, END_OF_RECORD]));
    QuietKeeps(c3, OnSendBytes([IAC, WILL, END_OF_RECORD]));
  }

  lemma DoKeeps(h: Handler, call: Call)
    requires Inv(h.core) && h.core.processed == []
    ensures var g := Do(h, call);
            && Inv(g.core) && g.core.processed == [] && Grows(h.core, g.core)
            && Consumed(g.core.trace) + g.rx == Consumed(h.core.trace) + h.rx + Input(call)
  {
    hide Inv, Consumed, Receive, PerformHandshake, SetState;
    match call
    case SocketConnected =>
      SetStateKeeps(h.core, Negotiating);
      PerformHandshakeKeeps(SetState(h.core, Negotiating));
    case BytesReceived(data) => ReceiveKeeps(h, data);
    case SocketDisconnected =>
      SetStateKeeps(h.core, Disconnected);
      QuietKeeps(SetState(h.core, Disconnected), OnDisconnected);
    case SendData(data) =>
      QuietKeeps(h.core, OnSendBytes(Frame(Gds.Record(0, Gds.OPCODE_PUT_GET, data))));
    case SendGds(flagsHi, opcode, payload) =>
      QuietKeeps(h.core, OnSendBytes(Frame(Gds.Record(flagsHi, opcode, payload))));
  }

  lemma {:induction false} RunKeeps(calls: seq<Call>)
    ensures var h := Run(calls);
            && Inv(h.core) && h.core.processed == []
            && Consumed(h.core.trace) + h.rx == FlatMap(Input, calls)
  {
    if calls != [] {
      hide Inv, Consumed, Do;
      RunKeeps(calls[..|calls| - 1]);
      DoKeeps(Run(calls[..|calls| - 1]), calls[|calls| - 1]);
    }
  }

  /**
   Conservation, in every run from construction: the wire bytes received are
   those of the tokens consumed and then the unread buffer, and the
   application bytes of those tokens are the delivered blocks and then the
   record in progress; nothing is lost, repeated or reordered. A block differs
   from the bytes it was made of at most by the repair of its length.
   */
  lemma Conservation(calls: seq<Call>)
    ensures var h := Run(calls);
            && Consumed(h.core.trace) + h.rx == FlatMap(Input, calls)
            && Appended(h.core.trace) == Delivered(h.core.trace) + h.core.record
            && h.core.handshake == [] && h.core.processed == []
            && (h.core.record != [] ==> h.core.Framing())
    ensures var trace := Run(calls).core.trace;
            forall k :: 0 <= k < |trace| ==> Genuine(trace[k])
  {
    hide Consumed, Appended, Delivered, Run;
    RunKeeps(calls);
    var h := Run(calls);
    forall k | 0 <= k < |h.core.trace|
      ensures Genuine(h.core.trace[k])
    {
      if h.core.trace[k].OnDataReceived? {
        OrderedAt(h.core.trace, k);
      }
    }
    assert Delivered(h.core.trace) + h.core.record + [] + [] + [] == Delivered(h.core.trace) + h.core.record;
  }

  lemma {:induction false} OrderedAt(trace: seq<Event>, k: nat)
    requires Ordered(trace) && k < |trace| && trace[k].OnDataReceived?
    ensures OnConnected in trace[..k] && Genuine(trace[k])
  {
    if k < |trace| - 1 {
      var front := trace[..|trace| - 1];
      OrderedAt(front, k);
      assert front[..k] == trace[..k];
    }
  }

  /**
   Handshake safety, in every run: `onConnected` fires at most once, exactly
   when the handshake has completed; every delivery comes after it; and
   completion means binary mode and a terminal type sent or data received.
   */
  lemma HandshakeSafety(calls: seq<Call>)
    ensures var c := Run(calls).core;
            && Connections(c.trace) == (if c.complete then 1 else 0)
            && (c.complete ==> c.binary && (c.termSent || Appended(c.trace) != []))
    ensures forall k :: 0 <= k < |Run(calls).core.trace| && Run(calls).core.trace[k].OnDataReceived? ==>
              OnConnected in Run(calls).core.trace[..k]
  {
    hide Run, Appended, Connections;
    RunKeeps(calls);
    var trace := Run(calls).core.trace;
    forall k | 0 <= k < |trace| && trace[k].OnDataReceived?
      ensures OnConnected in trace[..k]
    {
      OrderedAt(trace, k);
    }
  }

  /**
   No call takes anything back: flags stay raised and history is only added to.
   A handler whose socket is closed and opened again is still complete, so it
   reports no second connection.
   */
  lemma {:induction false} NothingReverts(calls: seq<Call>, more: seq<Call>)
    ensures Grows(Run(calls).core, Run(calls + more).core)
    ensures Run(calls).core.complete ==>
              Connections(Run(calls + more).core.trace) == Connections(Run(calls).core.trace)
  {
    if more == [] {
      assert calls + more == calls;
    } else {
      hide Inv, Consumed, Do, Connections;
      var front, last := more[..|more| - 1], more[|more| - 1];
      NothingReverts(calls, front);
      RunKeeps(calls + front);
      DoKeeps(Run(calls + front), last);
      assert (calls + more)[..|calls + more| - 1] == calls + front;
      HandshakeSafety(calls);
      HandshakeSafety(calls + more);
    }
  }

  /** Having sent the terminal type completes the handshake on the spot. */
  predicate TypeCompletes(c: Core) {
    c.termSent ==> c.complete
  }

  lemma CheckCompleteKeepsFlags(c: Core)
    ensures var d := CheckComplete(c);
            && d.termSent == c.termSent && (c.complete ==> d.complete)
            && (c.termSent && c.binary ==> d.complete)
  {
  }

  lemma HandleOptionTypeCompletes(c: Core, cmd: byte, opt: byte)
    requires TypeCompletes(c)
    ensures TypeCompletes(HandleOption(c, cmd, opt))
  {
    hide CheckComplete, Reply;
    var d := Send(c, Reply(cmd, opt), opt);
    CheckCompleteKeepsFlags(d.(binary := true));
    CheckCompleteKeepsFlags(d.(eor := true));
  }

  lemma HandleStandaloneTypeCompletes(c: Core, cmd: byte)
    requires TypeCompletes(c)
    ensures TypeCompletes(HandleStandalone(c, cmd))
  {
    hide CheckComplete, ScanSeed, Gds.Repair;
    CheckCompleteKeepsFlags(Emit(Emit(c, Handled(c.subOpt, c.sub)), SentDeviceName).(termSent := true, binary := true));
  }

  lemma ApplyTypeCompletes(c: Core, t: Token)
    requires TypeCompletes(c)
    ensures TypeCompletes(Apply(c, t))
  {
    hide HandleOption, HandleStandalone;
    var d := Emit(c, Lexed(t));
    match t
    case Standalone(cmd) => HandleStandaloneTypeCompletes(d, cmd);
    case Option(cmd, opt) => HandleOptionTypeCompletes(d, cmd, opt);
    case _ =>
  }

  lemma {:induction false} DrainTypeCompletes(rx: seq<byte>, c: Core)
    requires TypeCompletes(c)
    ensures TypeCompletes(Drain(rx, c).core)
    decreases |rx|
  {
    hide Apply, LexAt, Drain, TypeCompletes;
    DrainStep(rx, c);
    if LexAt(rx, c).Lexeme? {
      LexAtHead(rx, c);
      ApplyTypeCompletes(c, LexAt(rx, c).t);
      DrainTypeCompletes(rx[|WireOf(LexAt(rx, c).t)|..], Apply(c, LexAt(rx, c).t));
    }
  }

  /** At the end of a read, whatever it brought has completed the handshake. */
  lemma EndReadCompletes(c: Core)
    requires TypeCompletes(c)
    ensures var d := EndRead(c); TypeCompletes(d) && (c.processed != [] ==> d.complete)
  {
    hide CheckComplete;
    var d := c.(handshake := c.handshake + c.processed, processed := [], binary := true);
    if c.processed != [] && !c.complete {
      CheckCompleteAtEnd(d);
    }
  }

  lemma CheckCompleteAtEnd(c: Core)
    requires c.binary && c.handshake != []
    ensures CheckComplete(c).complete
  {
  }

  lemma {:induction false} NothingDelivered(trace: seq<Event>)
    requires Ordered(trace) && OnConnected !in trace
    ensures Delivered(trace) == []
  {
    if trace != [] {
      NothingDelivered(trace[..|trace| - 1]);
    }
  }

  lemma NotConnected(c: Core)
    requires Inv(c) && !c.complete
    ensures Appended(c.trace) == c.processed
  {
    hide Appended, Ordered, Delivered;
    assert OnConnected !in c.trace by {
      NoConnection(c.trace);
    }
    NothingDelivered(c.trace);
  }

  lemma {:induction false} NoConnection(trace: seq<Event>)
    requires Connections(trace) == 0
    ensures OnConnected !in trace
  {
    if trace != [] {
      NoConnection(trace[..|trace| - 1]);
      assert trace == trace[..|trace| - 1] + [trace[|trace| - 1]];
    }
  }

  lemma ReceiveCompletes(h: Handler, data: seq<byte>)
    requires Inv(h.core) && h.core.processed == [] && TypeCompletes(h.core)
    ensures var c := Receive(h, data).core; TypeCompletes(c) && (!c.complete ==> Appended(c.trace) == [])
  {
    hide Inv, Drain, EndRead, Appended;
    assert h.core.(processed := []) == h.core;
    var d := Drain(h.rx + data, h.core).core;
    DrainKeeps(h.rx + data, h.core);
    DrainTypeCompletes(h.rx + data, h.core);
    EndReadCompletes(d);
    EndReadKeeps(d);
    if !EndRead(d).complete {
      NotConnected(EndRead(d));
    }
  }

  lemma DoCompletes(h: Handler, call: Call)
    requires Inv(h.core) && h.core.processed == [] && TypeCompletes(h.core)
    requires !h.core.complete ==> Appended(h.core.trace) == []
    ensures var c := Do(h, call).core; TypeCompletes(c) && (!c.complete ==> Appended(c.trace) == [])
  {
    hide Inv, Receive, Appended, Frame, Gds.Record;
    DoKeeps(h, call);
    var c := Do(h, call).core;
    if call.BytesReceived? {
      ReceiveCompletes(h, call.data);
    } else if !c.complete {
      NotConnected(c);
    }
  }

  /**
   The handshake is complete, between calls, exactly when the terminal type has
   been sent or any application data has been received.
   */
  lemma {:induction false} CompleteExactly(calls: seq<Call>)
    ensures var c := Run(calls).core; c.complete <==> c.termSent || Appended(c.trace) != []
  {
    hide Inv, Do, Appended;
    RunKeeps(calls);
    HandshakeSafety(calls);
    CompletesBetweenCalls(calls);
  }

  lemma {:induction false} CompletesBetweenCalls(calls: seq<Call>)
    ensures var c := Run(calls).core; TypeCompletes(c) && (!c.complete ==> Appended(c.trace) == [])
  {
    if calls != [] {
      hide Inv, Do, Appended;
      var front := calls[..|calls| - 1];
      CompletesBetweenCalls(front);
      RunKeeps(front);
      DoCompletes(Run(front), calls[|calls| - 1]);
    }
  }
}
