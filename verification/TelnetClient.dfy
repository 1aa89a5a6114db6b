/**
 The six-state Telnet automaton of tn5250/telnet/client.cpp: its byte-by-byte
 specification, the class that feeds it, and the print/parse round trip.
 */
module TelnetClient {
  import opened Bytes
  import opened Telnet

  datatype State =
    | Data
    | Iac
    | NegotiationOption
    | SubnegotiationOption
    | SubnegotiationData
    | SubnegotiationIac

  /** The callbacks, in the order in which they fire. */
  datatype Event =
    | OnAppData(data: seq<byte>)
    | OnNegotiationCommand(cmd: byte, opt: byte)
    | OnStandaloneCommand(c: byte)
    | OnSubnegotiation(opt: byte, data: seq<byte>)

  datatype Parser = Parser(
    state: State,
    app: seq<byte>,
    pendingCmd: byte,
    pendingOpt: byte,
    sbOpt: byte,
    sb: seq<byte>,
    trace: seq<Event>)
  {
    /** Application data is pending only between commands. */
    predicate Valid() {
      state != Data ==> app == []
    }

    function Emit(e: Event): Parser {
      this.(trace := trace + [e])
    }
  }

  function Flush(p: Parser): Parser {
    (if p.app == [] then p else p.Emit(OnAppData(p.app))).(app := [])
  }

  /** One turn of the loop in `Client::feed`. */
  function Step(p: Parser, b: byte): Parser {
    match p.state
    case Data =>
      if b == IAC then Flush(p).(state := Iac) else p.(app := p.app + [b])
    case Iac =>
      if b == IAC then p.(app := p.app + [IAC], state := Data)
      else if b == SB then p.(state := SubnegotiationOption)
      else if b == SE then p.(state := Data)
      else if IsStandalone(b) then p.Emit(OnStandaloneCommand(b)).(state := Data)
      else p.(pendingCmd := b, state := NegotiationOption)
    case NegotiationOption =>
      p.(pendingOpt := b).Emit(OnNegotiationCommand(p.pendingCmd, b)).(state := Data)
    case SubnegotiationOption =>
      p.(sbOpt := b, sb := [], state := SubnegotiationData)
    case SubnegotiationData =>
      if b == IAC then p.(state := SubnegotiationIac) else p.(sb := p.sb + [b])
    case SubnegotiationIac =>
      if b == IAC then p.(sb := p.sb + [IAC], state := SubnegotiationData)
      else if b == SE then p.Emit(OnSubnegotiation(p.sbOpt, p.sb)).(sb := [], state := Data)
      else p.(state := SubnegotiationData)
  }

  function Run(p: Parser, data: seq<byte>): Parser {
    if data == [] then p else Step(Run(p, data[..|data| - 1]), data[|data| - 1])
  }

  function FeedChunk(p: Parser, data: seq<byte>): Parser {
    Flush(Run(p, data))
  }

  function FeedAll(p: Parser, chunks: seq<seq<byte>>): Parser {
    if chunks == [] then p else FeedChunk(FeedAll(p, chunks[..|chunks| - 1]), chunks[|chunks| - 1])
  }

  function ElemsOf(e: Event): seq<Elem> {
    match e
    case OnAppData(data) => AppBytes(data)
    case OnNegotiationCommand(cmd, opt) => [Negotiated(cmd, opt)]
    case OnStandaloneCommand(c) => [Command(c)]
    case OnSubnegotiation(opt, data) => [Subnegotiated(opt, data)]
  }

  /** What the callbacks have reported, with adjacent application data merged. */
  function Reported(p: Parser): seq<Elem> {
    FlatMap(ElemsOf, p.trace)
  }

  /** What the callbacks report once the pending application data is flushed. */
  function Said(p: Parser): seq<Elem> {
    Reported(p) + AppBytes(p.app)
  }

  /** Two parsers that have said the same and will go on alike. */
  ghost predicate Alike(p: Parser, q: Parser) {
    && p.state == q.state && p.pendingCmd == q.pendingCmd
    && p.sbOpt == q.sbOpt && p.sb == q.sb
    && Said(p) == Said(q) && p.Valid() && q.Valid()
  }

  class Client {
    var state: State
    var appBuffer: seq<byte>
    var pendingCmd: byte
    var pendingOpt: byte
    var sbOpt: byte
    var sbBuffer: seq<byte>
    ghost var trace: seq<Event>

    ghost function View(): Parser
      reads this
    {
      Parser(state, appBuffer, pendingCmd, pendingOpt, sbOpt, sbBuffer, trace)
    }

    constructor ()
      ensures View() == Parser(Data, [], IAC, TRANSMIT_BINARY, TRANSMIT_BINARY, [], [])
    {
      state, appBuffer, pendingCmd, pendingOpt := Data, [], IAC, TRANSMIT_BINARY;
      sbOpt, sbBuffer, trace := TRANSMIT_BINARY, [], [];
    }

    method FlushAppData()
      modifies this
      ensures View() == Flush(old(View()))
    {
      if appBuffer != [] {
        trace := trace + [OnAppData(appBuffer)];
      }
      appBuffer := [];
    }

    method Reset()
      modifies this
      ensures View() == old(View()).(state := Data, app := [], sb := [])
    {
      state, appBuffer, sbBuffer := Data, [], [];
    }

    method Feed(data: seq<byte>)
      modifies this
      ensures View() == FeedChunk(old(View()), data)
    {
      for n := 0 to |data|
        invariant View() == Run(old(View()), data[..n])
      {
        assert data[..n + 1][..n] == data[..n];
        var b := data[n];
        match state {
          case Data =>
            if b == IAC {
              FlushAppData();
              state := Iac;
            } else {
              appBuffer := appBuffer + [b];
            }
          case Iac =>
            if b == IAC {
              appBuffer := appBuffer + [0xFF];
              state := Data;
            } else if b == SB {
              state := SubnegotiationOption;
            } else if b == SE {
              state := Data;
            } else if IsStandalone(b) {
              trace := trace + [OnStandaloneCommand(b)];
              state := Data;
            } else {
              pendingCmd := b;
              state := NegotiationOption;
            }
          case NegotiationOption =>
            pendingOpt := b;
            trace := trace + [OnNegotiationCommand(pendingCmd, pendingOpt)];
            state := Data;
          case SubnegotiationOption =>
            sbOpt := b;
            sbBuffer := [];
            state := SubnegotiationData;
          case SubnegotiationData =>
            if b == IAC {
              state := SubnegotiationIac;
            } else {
              sbBuffer := sbBuffer + [b];
            }
          case SubnegotiationIac =>
            if b == IAC {
              sbBuffer := sbBuffer + [0xFF];
              state := SubnegotiationData;
            } else if b == SE {
              trace := trace + [OnSubnegotiation(sbOpt, sbBuffer)];
              sbBuffer := [];
              state := Data;
            } else {
              state := SubnegotiationData;
            }
        }
      }
      assert data[..|data|] == data;
      FlushAppData();
    }
  }
}
