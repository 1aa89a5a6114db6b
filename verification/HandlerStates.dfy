/** The connection states the handler goes through and reports, over any run. */
module HandlerStates {
  import opened Bytes
  import opened Telnet
  import opened HandlerSpec
  import HandlerFraming
  import Gds

  function StateEvent(e: Event): seq<ConnectionState> {
    if e.OnStateChanged? then [e.newState] else []
  }

  /** The states reported so far. */
  function States(c: Core): seq<ConnectionState> {
    FlatMap(StateEvent, c.trace)
  }

  /** The state of the last report, or the one a handler starts in. */
  function LastState(states: seq<ConnectionState>): ConnectionState {
    if states == [] then Disconnected else states[|states| - 1]
  }

  /** The state is the one last reported, and every report was a change. */
  predicate StatesTold(c: Core) {
    c.state == LastState(States(c)) && forall k :: 0 <= k < |States(c)| ==> States(c)[k] != LastState(States(c)[..k])
  }

  /** `d` has reported nothing since `c`, or that its state is now `s`. */
  predicate Moved(c: Core, d: Core, s: ConnectionState) {
    d.state == s && States(d) == States(c) + if c.state == s then [] else [s]
  }

  lemma MovedTells(c: Core, d: Core, s: ConnectionState)
    requires StatesTold(c) && Moved(c, d, s)
    ensures StatesTold(d)
  {
    hide States;
    var a, b := States(c), States(d);
    if c.state == s {
      assert b == a;
    } else {
      assert b[..|a|] == a && forall k :: 0 <= k < |a| ==> b[..k] == a[..k];
    }
  }

  lemma EmitStates(c: Core, e: Event)
    ensures States(Emit(c, e)) == States(c) + StateEvent(e)
  {
    FlatMapSnoc(StateEvent, c.trace, e);
  }

  lemma EmitStill(c: Core, e: Event)
    requires !e.OnStateChanged?
    ensures Moved(c, Emit(c, e), c.state)
  {
    EmitStates(c, e);
    assert States(c) + [] == States(c);
  }

  lemma MovedThen(c: Core, d: Core, e: Core, s: ConnectionState)
    requires Moved(c, d, c.state) && Moved(d, e, s)
    ensures Moved(c, e, s)
  {
    hide States;
    assert States(c) + [] == States(c);
  }

  lemma StillThen(c: Core, d: Core, e: Core, s: ConnectionState)
    requires Moved(c, d, s) && Moved(d, e, s)
    ensures Moved(c, e, s)
  {
    hide States;
    assert States(d) + [] == States(d);
  }

  lemma SameTrace(c: Core, d: Core)
    requires c.trace == d.trace && c.state == d.state
    ensures Moved(c, d, c.state)
  {
    assert States(c) + [] == States(c);
  }

  lemma SetStateMoves(c: Core, s: ConnectionState)
    ensures Moved(c, SetState(c, s), s)
  {
    EmitStates(c.(state := s), OnStateChanged(s));
    assert States(c) + [] == States(c);
  }

  /** The state a step leads to: the connected one when it completes the handshake, else the old one. */
  function StepState(c: Core, d: Core): ConnectionState {
    if d.complete && !c.complete then Connected else c.state
  }

  /** No step takes the handshake back, and each moves the state as it should. */
  predicate Steps(c: Core, d: Core) {
    (c.complete ==> d.complete) && Moved(c, d, StepState(c, d))
  }

  lemma StepsThen(c: Core, d: Core, e: Core)
    requires Steps(c, d) && Steps(d, e)
    ensures Steps(c, e)
  {
    assert d.state == StepState(c, d);
    hide Moved;
    if d.complete && !c.complete {
      StillThen(c, d, e, Connected);
    } else {
      MovedThen(c, d, e, StepState(d, e));
    }
  }

  lemma StillSteps(c: Core, d: Core)
    requires c.complete == d.complete && Moved(c, d, c.state)
    ensures Steps(c, d)
  {
    hide Moved;
  }

  lemma EmitSteps(c: Core, e: Event)
    requires !e.OnStateChanged?
    ensures Steps(c, Emit(c, e))
  {
    EmitStill(c, e);
    StillSteps(c, Emit(c, e));
  }

  lemma SameTraceSteps(c: Core, d: Core)
    requires c.trace == d.trace && c.state == d.state && c.complete == d.complete
    ensures Steps(c, d)
  {
    SameTrace(c, d);
    StillSteps(c, d);
  }

  lemma ConnectSteps(c: Core)
    requires !c.complete
    ensures Steps(c, Connect(c))
  {
    hide States;
    var c0 := c.(complete := true);
    assert States(c0) == States(c) by { StatesOfTrace(c0, c); }
    SetStateMoves(c0, Connected);
    EmitStill(SetState(c0, Connected), OnConnected);
    assert forall x: seq<ConnectionState> :: x + [] == x;
  }

  lemma StatesOfTrace(c: Core, d: Core)
    requires c.trace == d.trace
    ensures States(c) == States(d)
  {
  }

  lemma CheckCompleteSteps(c: Core)
    ensures Steps(c, CheckComplete(c))
  {
    hide Connect, Steps;
    SameTraceSteps(c, c);
    if !c.complete {
      var d := Connect(c);
      ConnectSteps(c);
      var e := d.(handshake := []);
      SameTraceSteps(d, e);
      EmitSteps(e, OnDataReceived(d.handshake, d.handshake));
      StepsThen(c, d, e);
      StepsThen(c, e, Emit(e, OnDataReceived(d.handshake, d.handshake)));
    }
  }

  lemma RaiseSteps(c: Core, d: Core, e: Core)
    requires Steps(c, d) && d.trace == e.trace && d.state == e.state && d.complete == e.complete
    ensures Steps(c, e) && Steps(c, CheckComplete(e))
  {
    hide Steps, CheckComplete;
    SameTraceSteps(d, e);
    StepsThen(c, d, e);
    CheckCompleteSteps(e);
    StepsThen(c, e, CheckComplete(e));
  }

  lemma HandleOptionSteps(c: Core, cmd: byte, opt: byte)
    ensures Steps(c, HandleOption(c, cmd, opt))
  {
    hide Steps, CheckComplete, Reply;
    if cmd == WILL || cmd == DO {
      var d := Send(c, Reply(cmd, opt), opt);
      EmitSteps(c, OnSendBytes([IAC, Reply(cmd, opt), opt]));
      RaiseSteps(c, d, d.(binary := true));
      RaiseSteps(c, d, d.(eor := true));
    } else {
      SameTraceSteps(c, HandleOption(c, cmd, opt));
    }
  }

  lemma HandleSubnegotiationSteps(c: Core)
    ensures Steps(c, HandleSubnegotiation(c))
  {
    hide Steps, CheckComplete, ScanSeed;
    var d := Emit(c, Handled(c.subOpt, c.sub));
    EmitSteps(c, Handled(c.subOpt, c.sub));
    var e := Emit(d, SentDeviceName);
    EmitSteps(d, SentDeviceName);
    StepsThen(c, d, e);
    RaiseSteps(c, e, e.(termSent := true, binary := true));
    var f := if d.sub != [] && d.sub[0] == 0x01 then d.(serverSeed := ScanSeed(d.sub[1..], [])) else d;
    SameTraceSteps(d, f);
    StepsThen(c, d, f);
    EmitSteps(f, SentNewEnviron(f.serverSeed));
    StepsThen(c, f, Emit(f, SentNewEnviron(f.serverSeed)));
  }

  lemma FlushRecordSteps(c: Core)
    ensures Steps(c, FlushRecord(c))
  {
    hide Steps, Gds.Repair;
    SameTraceSteps(c, c);
    var block := Gds.Repair(c.record);
    var d := if block != c.record then Emit(c, OnLog) else c;
    EmitSteps(c, OnLog);
    var e := d.(record := []);
    SameTraceSteps(d, e);
    StepsThen(c, d, e);
    EmitSteps(e, OnDataReceived(c.record, block));
    StepsThen(c, e, Emit(e, OnDataReceived(c.record, block)));
  }

  lemma HandleStandaloneSteps(c: Core, cmd: byte)
    ensures Steps(c, HandleStandalone(c, cmd))
  {
    hide Steps, FlushRecord, HandleSubnegotiation;
    SameTraceSteps(c, c);
    var d := HandleSubnegotiation(c);
    HandleSubnegotiationSteps(c);
    SameTraceSteps(d, d.(sub := [], inSub := false));
    StepsThen(c, d, d.(sub := [], inSub := false));
    var e := c.(record := c.processed + c.record, processed := []);
    SameTraceSteps(c, e);
    FlushRecordSteps(e);
    StepsThen(c, e, FlushRecord(e));
  }

  lemma ApplySteps(c: Core, t: Token)
    ensures Steps(c, Apply(c, t))
  {
    hide Steps, HandleOption, HandleStandalone;
    var c1 := Emit(c, Lexed(t));
    EmitSteps(c, Lexed(t));
    match t
    case Option(cmd, opt) =>
      HandleOptionSteps(c1, cmd, opt);
      StepsThen(c, c1, Apply(c, t));
    case Standalone(cmd) =>
      HandleStandaloneSteps(c1, cmd);
      StepsThen(c, c1, Apply(c, t));
    case _ =>
      EmitSteps(c1, OnLog);
      StepsThen(c, c1, Emit(c1, OnLog));
      var d := if t.Bare? then Emit(c1, OnLog) else c1;
      SameTraceSteps(d, Apply(c, t));
      StepsThen(c, d, Apply(c, t));
  }

  lemma {:induction false} DrainSteps(rx: seq<byte>, c: Core)
    ensures Steps(c, Drain(rx, c).core)
    decreases |rx|
  {
    hide Drain, LexAt, Apply, Steps;
    DrainStep(rx, c);
    SameTraceSteps(c, c);
    if LexAt(rx, c).Lexeme? {
      var t := LexAt(rx, c).t;
      HandlerFraming.LexBound(rx, c);
      ApplySteps(c, t);
      DrainSteps(rx[|WireOf(t)|..], Apply(c, t));
      StepsThen(c, Apply(c, t), Drain(rx, c).core);
    }
  }

  lemma EndReadSteps(c: Core)
    ensures Steps(c, EndRead(c))
  {
    hide Steps, CheckComplete;
    SameTraceSteps(c, c);
    if c.processed != [] {
      if c.complete {
        var d := Emit(c, OnDataReceived(c.processed, c.processed));
        EmitSteps(c, OnDataReceived(c.processed, c.processed));
        RaiseSteps(c, d, d.(processed := []));
      } else {
        RaiseSteps(c, c, c.(handshake := c.handshake + c.processed, processed := [], binary := true));
      }
    }
  }

  lemma ReceiveSteps(h: Handler, data: seq<byte>)
    ensures Steps(h.core, Receive(h, data).core)
  {
    hide Drain, EndRead, Steps;
    var c := h.core.(processed := []);
    var d := Drain(h.rx + data, c).core;
    SameTraceSteps(h.core, c);
    DrainSteps(h.rx + data, c);
    EndReadSteps(d);
    StepsThen(h.core, c, d);
    StepsThen(h.core, d, EndRead(d));
  }

  /** The state a call leads to. */
  function StateAfter(c: Core, call: Call, d: Core): ConnectionState {
    match call
    case SocketConnected => Negotiating
    case SocketDisconnected => Disconnected
    case BytesReceived(_) => StepState(c, d)
    case _ => c.state
  }

  lemma PerformHandshakeStill(c: Core)
    ensures Moved(c, PerformHandshake(c), c.state)
  {
    hide Moved;
    var c1 := Send(c, DO, TRANSMIT_BINARY);
    var c2 := Send(c1, WILL, TRANSMIT_BINARY);
    var c3 := Send(c2, DO, END_OF_RECORD);
    var c4 := Send(c3, WILL, END_OF_RECORD);
    EmitStill(c, OnSendBytes([IAC, DO, TRANSMIT_BINARY]));
    EmitStill(c1, OnSendBytes([IAC, WILL, TRANSMIT_BINARY]));
    EmitStill(c2, OnSendBytes([IAC, DO, END_OF_RECORD]));
    EmitStill(c3, OnSendBytes([IAC, WILL, END_OF_RECORD]));
    StillThen(c, c1, c2, c.state);
    StillThen(c, c2, c3, c.state);
    StillThen(c, c3, c4, c.state);
  }

  /** Every call leaves the handler in the state it should, and reports that exactly if it is a new one. */
  lemma CallMoves(h: Handler, call: Call)
    ensures var d := Do(h, call).core; Moved(h.core, d, StateAfter(h.core, call, d))
  {
    hide Moved, Receive, PerformHandshake, SetState, Frame, Gds.Record;
    match call
    case SocketConnected =>
      var c := SetState(h.core, Negotiating);
      SetStateMoves(h.core, Negotiating);
      PerformHandshakeStill(c);
      assert c.state == Negotiating by { SetStateSets(h.core, Negotiating); }
      StillThen(h.core, c, PerformHandshake(c), Negotiating);
    case SocketDisconnected =>
      var c := SetState(h.core, Disconnected);
      SetStateMoves(h.core, Disconnected);
      assert c.state == Disconnected by { SetStateSets(h.core, Disconnected); }
      EmitStill(c, OnDisconnected);
      StillThen(h.core, c, Emit(c, OnDisconnected), Disconnected);
    case BytesReceived(data) => ReceiveSteps(h, data);
    case SendData(data) => EmitStill(h.core, OnSendBytes(Frame(Gds.Record(0, Gds.OPCODE_PUT_GET, data))));
    case SendGds(flagsHi, opcode, payload) =>
      EmitStill(h.core, OnSendBytes(Frame(Gds.Record(flagsHi, opcode, payload))));
  }

  lemma SetStateSets(c: Core, s: ConnectionState)
    ensures SetState(c, s).state == s
  {
  }

  /** In every run, the state is the one last reported, and only changes are reported. */
  lemma {:induction false} RunTellsStates(calls: seq<Call>)
    ensures StatesTold(Run(calls).core)
  {
    if calls != [] {
      hide Do, StatesTold, Moved;
      var front, call := calls[..|calls| - 1], calls[|calls| - 1];
      var h := Run(front);
      RunTellsStates(front);
      CallMoves(h, call);
      MovedTells(h.core, Do(h, call).core, StateAfter(h.core, call, Do(h, call).core));
    }
  }
}
