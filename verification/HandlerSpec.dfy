/**
 The receive path of tn5250/client/protocol_handler.cpp as a state machine: a
 lexer that cuts one token off the receive buffer, the effect of each token on
 the rest of the handler, and the loop that drains the buffer.
 */
module HandlerSpec {
  import opened Bytes
  import opened Telnet
  import opened Gds

  datatype ConnectionState = Disconnected | Connecting | Negotiating | Connected | Error

  /** The shortest pieces of wire text the receive loop consumes. */
  datatype Token =
    | Plain(b: byte)                          // a data byte
    | Doubled                                 // IAC IAC
    | Bare                                    // an undoubled 0xFF taken as data
    | SubByte(b: byte)                        // a byte of a subnegotiation
    | Standalone(c: byte)                     // IAC and a command without option
    | Option(cmd: byte, opt: byte)            // IAC, a command and an option

  function WireOf(t: Token): seq<byte> {
    match t
    case Plain(b) => [b]
    case Doubled => [IAC, IAC]
    case Bare => [IAC]
    case SubByte(b) => [b]
    case Standalone(c) => [IAC, c]
    case Option(cmd, opt) => [IAC, cmd, opt]
  }

  /** The bytes a token passes to `appendData`. */
  function AppOf(t: Token): seq<byte> {
    match t
    case Plain(b) => [b]
    case Doubled => [IAC]
    case Bare => [IAC]
    case _ => []
  }

  /**
   What a handler does, in order. The names in `On...` are its callbacks;
   `OnDataReceived` also records the block as it was before length repair.
   `Lexed` and `Handled` record internal steps.
   */
  datatype Event =
    | Lexed(t: Token)
    | Handled(subOpt: byte, sub: seq<byte>)
    | OnSendBytes(bytes: seq<byte>)
    | SentDeviceName
    | SentNewEnviron(serverSeed: seq<byte>)
    | OnConnected
    | OnDisconnected
    | OnStateChanged(newState: ConnectionState)
    | OnDataReceived(raw: seq<byte>, block: seq<byte>)
    | OnLog

  /** All fields of the handler but the receive buffer, and its history. */
  datatype Core = Core(
    state: ConnectionState,
    serverSeed: seq<byte>,
    record: seq<byte>,
    inSub: bool,
    subOpt: byte,
    sub: seq<byte>,
    complete: bool,
    handshake: seq<byte>,
    binary: bool,
    eor: bool,
    termSent: bool,
    processed: seq<byte>,
    trace: seq<Event>)
  {
    /** Application bytes are collected per record. */
    predicate Framing() {
      complete && eor
    }

    predicate MidRecord() {
      Framing() && record != []
    }
  }

  const Initial := Core(Disconnected, [], [], false, TRANSMIT_BINARY, [], false, [], false, false, false, [], [])

  function Emit(c: Core, e: Event): Core {
    c.(trace := c.trace + [e])
  }

  function SetState(c: Core, s: ConnectionState): Core {
    if c.state == s then c else Emit(c.(state := s), OnStateChanged(s))
  }

  function Send(c: Core, cmd: byte, opt: byte): Core {
    Emit(c, OnSendBytes([IAC, cmd, opt]))
  }

  function AppendData(c: Core, b: byte): Core {
    if c.Framing() then c.(record := c.record + c.processed + [b], processed := [])
    else c.(processed := c.processed + [b])
  }

  function FlushRecord(c: Core): Core {
    if c.record == [] then c
    else
      var block := Repair(c.record);
      var d := if block != c.record then Emit(c, OnLog) else c;
      Emit(d.(record := []), OnDataReceived(c.record, block))
  }

  function Connect(c: Core): Core {
    Emit(SetState(c.(complete := true), Connected), OnConnected)
  }

  function DeliverHandshake(c: Core): Core {
    if c.handshake == [] then c
    else Emit(c.(handshake := []), OnDataReceived(c.handshake, c.handshake))
  }

  function CheckComplete(c: Core): Core {
    if !c.complete && c.binary && (c.termSent || c.handshake != []) then DeliverHandshake(Connect(c)) else c
  }

  /** The answer to a WILL or DO; TIMING-MARK is among the refused options. */
  function Reply(cmd: byte, opt: byte): byte {
    if cmd == WILL then
      if opt == TRANSMIT_BINARY || opt == END_OF_RECORD || opt == ECHO || opt == SUPPRESS_GO_AHEAD then DO else DONT
    else if opt == TRANSMIT_BINARY || opt == END_OF_RECORD || opt == TERMINAL_TYPE || opt == NEW_ENVIRON then WILL
    else WONT
  }

  function HandleOption(c: Core, cmd: byte, opt: byte): Core {
    if cmd == WILL || cmd == DO then
      var d := Send(c, Reply(cmd, opt), opt);
      if opt == TRANSMIT_BINARY then CheckComplete(d.(binary := true))
      else if opt == END_OF_RECORD then CheckComplete(d.(eor := true))
      else d
    else if cmd == SB then c.(inSub := true, subOpt := opt, sub := [])
    else c
  }

  const IBMRSEED: seq<byte> := [0x49, 0x42, 0x4D, 0x52, 0x53, 0x45, 0x45, 0x44]

  /** A name in a NEW-ENVIRON request ends at the next VAR, VALUE or USERVAR byte. */
  function NameLength(d: seq<byte>): (n: nat)
    ensures n <= |d|
  {
    if d == [] || d[0] == 0x00 || d[0] == 0x01 || d[0] == 0x03 then 0 else 1 + NameLength(d[1..])
  }

  /** The seed after scanning `d`, the last IBMRSEED name winning. */
  function ScanSeed(d: seq<byte>, seed: seq<byte>): seq<byte>
    decreases |d|
  {
    if d == [] then seed
    else if d[0] == 0x00 || d[0] == 0x03 then
      var n := NameLength(d[1..]);
      var name := d[1..1 + n];
      ScanSeed(d[1 + n..], if IBMRSEED < name then name[|IBMRSEED|..] else seed)
    else ScanSeed(d[1..], seed)
  }

  function HandleSubnegotiation(c: Core): Core {
    var d := Emit(c, Handled(c.subOpt, c.sub));
    if d.subOpt == TERMINAL_TYPE then
      CheckComplete(Emit(d, SentDeviceName).(termSent := true, binary := true))
    else if d.subOpt == NEW_ENVIRON then
      var e := if d.sub != [] && d.sub[0] == 0x01 then d.(serverSeed := ScanSeed(d.sub[1..], [])) else d;
      Emit(e, SentNewEnviron(e.serverSeed))
    else d
  }

  /** The token at the head of `rx`, or nothing while it is incomplete. */
  datatype Lexeme = Incomplete | Lexeme(t: Token)

  function Lex(rx: seq<byte>, inSub: bool, midRecord: bool): (l: Lexeme)
    ensures l.Lexeme? ==> |WireOf(l.t)| <= |rx| && WireOf(l.t) != []
  {
    if rx == [] then Incomplete
    else if rx[0] != IAC then Lexeme(if inSub then SubByte(rx[0]) else Plain(rx[0]))
    else if |rx| == 1 then Incomplete
    else if rx[1] == IAC then Lexeme(Doubled)
    else if !inSub && (rx[1] < EOR || (midRecord && rx[1] != EOR)) then Lexeme(Bare)
    else if IsStandalone(rx[1]) then Lexeme(Standalone(rx[1]))
    else if |rx| == 2 then Incomplete
    else Lexeme(Option(rx[1], rx[2]))
  }

  function LexAt(rx: seq<byte>, c: Core): Lexeme {
    Lex(rx, c.inSub, c.MidRecord())
  }

  function HandleStandalone(c: Core, cmd: byte): Core {
    if cmd == SE then
      if c.inSub then HandleSubnegotiation(c).(sub := [], inSub := false) else c
    else if cmd == EOR && c.Framing() then
      FlushRecord(c.(record := c.processed + c.record, processed := []))
    else c
  }

  /** The effect of one token. */
  function Effect(c: Core, t: Token): Core {
    match t
    case Plain(b) => AppendData(c, b)
    case Doubled => AppendData(c, IAC)
    case Bare => AppendData(Emit(c, OnLog), IAC)
    case SubByte(b) => c.(sub := c.sub + [b])
    case Standalone(cmd) => HandleStandalone(c, cmd)
    case Option(cmd, opt) => HandleOption(c, cmd, opt)
  }

  function Apply(c: Core, t: Token): Core {
    Effect(Emit(c, Lexed(t)), t)
  }

  datatype Handler = Handler(rx: seq<byte>, core: Core)

  /** Consumes every complete token of the receive buffer. */
  function Drain(rx: seq<byte>, c: Core): Handler
    decreases |rx|
  {
    var l := LexAt(rx, c);
    if l.Incomplete? then Handler(rx, c) else Drain(rx[|WireOf(l.t)|..], Apply(c, l.t))
  }

  lemma DrainStep(rx: seq<byte>, c: Core)
    ensures Drain(rx, c) ==
      match LexAt(rx, c)
      case Incomplete => Handler(rx, c)
      case Lexeme(t) => Drain(rx[|WireOf(t)|..], Apply(c, t))
  {
  }

  /** What a read does with the bytes it did not put in the record buffer. */
  function EndRead(c: Core): Core {
    if c.processed == [] then c
    else if c.complete then Emit(c, OnDataReceived(c.processed, c.processed)).(processed := [])
    else CheckComplete(c.(handshake := c.handshake + c.processed, processed := [], binary := true))
  }

  /** `processTelnetData`. */
  function Receive(h: Handler, data: seq<byte>): Handler {
    var d := Drain(h.rx + data, h.core.(processed := []));
    d.(core := EndRead(d.core))
  }

  function ReceiveAll(h: Handler, chunks: seq<seq<byte>>): Handler {
    if chunks == [] then h
    else Receive(ReceiveAll(h, chunks[..|chunks| - 1]), chunks[|chunks| - 1])
  }

  /** `sendRawData`: the record with its 0xFF doubled, then IAC EOR. */
  function Frame(record: seq<byte>): seq<byte> {
    Escape(record) + [IAC, EOR]
  }

  function PerformHandshake(c: Core): Core {
    Send(Send(Send(Send(c, DO, TRANSMIT_BINARY), WILL, TRANSMIT_BINARY), DO, END_OF_RECORD), WILL, END_OF_RECORD)
  }

  /** The calls a client makes. */
  datatype Call =
    | SocketConnected
    | BytesReceived(data: seq<byte>)
    | SocketDisconnected
    | SendData(data: seq<byte>)
    | SendGds(flagsHi: byte, opcode: byte, payload: seq<byte>)

  function Do(h: Handler, call: Call): Handler {
    match call
    case SocketConnected => h.(core := PerformHandshake(SetState(h.core, Negotiating)))
    case BytesReceived(data) => Receive(h, data)
    case SocketDisconnected => h.(core := Emit(SetState(h.core, Disconnected), OnDisconnected))
    case SendData(data) => h.(core := Emit(h.core, OnSendBytes(Frame(Record(0, OPCODE_PUT_GET, data)))))
    case SendGds(flagsHi, opcode, payload) =>
      h.(core := Emit(h.core, OnSendBytes(Frame(Record(flagsHi, opcode, payload)))))
  }

  /** A handler after a list of calls, from construction. */
  function Run(calls: seq<Call>): Handler {
    if calls == [] then Handler([], Initial) else Do(Run(calls[..|calls| - 1]), calls[|calls| - 1])
  }
}
