/** The class of tn5250/client/protocol_handler.cpp, proved against HandlerSpec. */
module ProtocolHandler {
  import opened Bytes
  import opened Telnet
  import Gds
  import S = HandlerSpec

  class ProtocolHandler {
    var state: S.ConnectionState
    var serverSeed: seq<byte>
    var receiveBuffer: seq<byte>
    var recordBuffer: seq<byte>
    var inSubnegotiation: bool
    var currentSubnegotiation: byte
    var subnegotiationBuffer: seq<byte>
    var handshakeComplete: bool
    var handshakeBuffer: seq<byte>
    var binaryNegotiated: bool
    var eorNegotiated: bool
    var terminalTypeSent: bool
    /** The local of `processTelnetData` that its lambda captures; empty between reads. */
    var processed: seq<byte>
    ghost var trace: seq<S.Event>

    ghost function Core(): S.Core
      reads this
    {
      S.Core(state, serverSeed, recordBuffer, inSubnegotiation, currentSubnegotiation, subnegotiationBuffer,
             handshakeComplete, handshakeBuffer, binaryNegotiated, eorNegotiated, terminalTypeSent, processed, trace)
    }

    ghost function View(): S.Handler
      reads this
    {
      S.Handler(receiveBuffer, Core())
    }

    constructor ()
      ensures View() == S.Run([])
    {
      state := S.Disconnected;
      serverSeed, receiveBuffer, recordBuffer := [], [], [];
      inSubnegotiation, currentSubnegotiation, subnegotiationBuffer := false, TRANSMIT_BINARY, [];
      handshakeComplete, handshakeBuffer := false, [];
      binaryNegotiated, eorNegotiated, terminalTypeSent := false, false, false;
      processed, trace := [], [];
    }

    method SetState(newState: S.ConnectionState)
      modifies this`state, this`trace
      ensures Core() == S.SetState(old(Core()), newState)
    {
      if state != newState {
        state := newState;
        trace := trace + [S.OnStateChanged(newState)];
      }
    }

    method OnSocketConnected()
      modifies this
      ensures View() == S.Do(old(View()), S.SocketConnected)
    {
      SetState(S.Negotiating);
      PerformHandshake();
    }

    method OnBytesReceived(data: seq<byte>)
      modifies this
      ensures View() == S.Do(old(View()), S.BytesReceived(data))
    {
      ProcessTelnetData(data);
    }

    method OnSocketDisconnected()
      modifies this
      ensures View() == S.Do(old(View()), S.SocketDisconnected)
    {
      SetState(S.Disconnected);
      trace := trace + [S.OnDisconnected];
    }

    method AppendData(b: byte)
      modifies this
      ensures receiveBuffer == old(receiveBuffer)
      ensures Core() == S.AppendData(old(Core()), b)
    {
      if handshakeComplete && eorNegotiated {
        if processed != [] {
          recordBuffer := recordBuffer + processed;
          processed := [];
        }
        assert recordBuffer == old(recordBuffer + processed);
        recordBuffer := recordBuffer + [b];
      } else {
        processed := processed + [b];
      }
    }

    method ProcessTelnetData(data: seq<byte>)
      modifies this
      ensures View() == S.Receive(old(View()), data)
    {
      hide S.Drain, S.EndRead;
      receiveBuffer := receiveBuffer + data;
      processed := [];
      DrainReceiveBuffer();
      EndRead();
    }

    /** The end of `processTelnetData`. */
    method EndRead()
      modifies this
      ensures receiveBuffer == old(receiveBuffer) && Core() == S.EndRead(old(Core()))
    {
      hide S.CheckComplete;
      if processed != [] {
        if handshakeComplete {
          trace := trace + [S.OnDataReceived(processed, processed)];
          processed := [];
        } else {
          handshakeBuffer := handshakeBuffer + processed;
          var data := processed;
          processed := [];
          ProcessHandshakeData(data);
        }
      }
    }

    /** The token loop of `processTelnetData`. */
    method DrainReceiveBuffer()
      modifies this
      ensures View() == S.Drain(old(receiveBuffer), old(Core()))
    {
      hide S.Apply, S.Lex;
      var i := 0;
      while i < |receiveBuffer|
        invariant 0 <= i <= |receiveBuffer| && receiveBuffer == old(receiveBuffer)
        invariant S.Drain(receiveBuffer[i..], Core()) == S.Drain(old(receiveBuffer), old(Core()))
        decreases |receiveBuffer| - i
      {
        ghost var rest, before := receiveBuffer[i..], Core();
        var n := ConsumeToken(i);
        S.DrainStep(rest, before);
        if n == 0 {
          break;
        }
        assert receiveBuffer[i + n..] == rest[n..];
        i := i + n;
      }
      S.DrainStep(receiveBuffer[i..], Core());
      if i > 0 {
        receiveBuffer := receiveBuffer[i..];
      }
    }

    /** One turn of the loop: the bytes taken from `receiveBuffer[i..]`, or 0 to stop and wait for more. */
    method ConsumeToken(i: nat) returns (n: nat)
      requires i < |receiveBuffer|
      modifies this
      ensures receiveBuffer == old(receiveBuffer)
      ensures var l := old(S.LexAt(receiveBuffer[i..], Core()));
              match l
              case Incomplete => n == 0 && Core() == old(Core())
              case Lexeme(t) => n == |S.WireOf(t)| && Core() == S.Apply(old(Core()), t)
    {
      hide S.HandleOption, S.HandleStandalone, S.AppendData;
      ghost var rest := receiveBuffer[i..];
      var b := receiveBuffer[i];
      assert rest[0] == b;
      if b == IAC {
        n := ConsumeIac(i);
      } else if inSubnegotiation {
        trace := trace + [S.Lexed(S.SubByte(b))];
        subnegotiationBuffer := subnegotiationBuffer + [b];
        n := 1;
      } else {
        trace := trace + [S.Lexed(S.Plain(b))];
        AppendData(b);
        n := 1;
      }
    }

    /** That turn at an IAC. */
    method ConsumeIac(i: nat) returns (n: nat)
      requires i < |receiveBuffer| && receiveBuffer[i] == IAC
      modifies this
      ensures receiveBuffer == old(receiveBuffer)
      ensures var l := old(S.LexAt(receiveBuffer[i..], Core()));
              match l
              case Incomplete => n == 0 && Core() == old(Core())
              case Lexeme(t) => n == |S.WireOf(t)| && Core() == S.Apply(old(Core()), t)
    {
      hide S.HandleOption, S.HandleStandalone, S.AppendData;
      ghost var rest := receiveBuffer[i..];
      if i + 1 >= |receiveBuffer| {
        return 0;
      }
      var next := receiveBuffer[i + 1];
      assert rest[1] == next;
      if next == IAC {
        trace := trace + [S.Lexed(S.Doubled)];
        AppendData(0xFF);
        return 2;
      }
      var midRecord := handshakeComplete && eorNegotiated && recordBuffer != [];
      if !inSubnegotiation && (next < EOR || (midRecord && next != EOR)) {
        trace := trace + [S.Lexed(S.Bare)];
        trace := trace + [S.OnLog];
        AppendData(0xFF);
        return 1;
      }
      if IsStandalone(next) {
        trace := trace + [S.Lexed(S.Standalone(next))];
        ConsumeStandalone(next);
        return 2;
      }
      if i + 2 >= |receiveBuffer| {
        return 0;
      }
      var opt := receiveBuffer[i + 2];
      assert rest[2] == opt;
      trace := trace + [S.Lexed(S.Option(next, opt))];
      HandleTelnetCommand(next, opt);
      return 3;
    }

    method ConsumeStandalone(next: byte)
      modifies this
      ensures receiveBuffer == old(receiveBuffer)
      ensures Core() == S.HandleStandalone(old(Core()), next)
    {
      hide S.FlushRecord, S.HandleSubnegotiation;
      if next == SE {
        if inSubnegotiation {
          HandleSubnegotiation();
          subnegotiationBuffer := [];
          inSubnegotiation := false;
        }
      } else if next == EOR && handshakeComplete && eorNegotiated {
        assert processed == [] ==> processed + recordBuffer == recordBuffer;
        if processed != [] {
          recordBuffer := processed + recordBuffer;
          processed := [];
        }
        FlushRecord();
      }
    }

    method FlushRecord()
      modifies this
      ensures receiveBuffer == old(receiveBuffer)
      ensures Core() == S.FlushRecord(old(Core()))
    {
      hide Gds.Repair;
      if recordBuffer == [] {
        return;
      }
      ghost var raw := recordBuffer;
      var record := RepairGdsRecordLength(recordBuffer);
      if record != recordBuffer {
        trace := trace + [S.OnLog];
      }
      recordBuffer := [];
      trace := trace + [S.OnDataReceived(raw, record)];
    }

    static method RepairGdsRecordLength(record: seq<byte>) returns (repaired: seq<byte>)
      ensures repaired == Gds.Repair(record)
    {
      hide Gds.Tail, Gds.Repair;
      var size := |record|;
      var pos := WalkChain(record);
      Gds.RepairInPlace(record, pos);
      if pos == size {
        return record;
      }
      var remaining := size - pos;
      if remaining < Gds.HEADER_SIZE || remaining > Gds.MAX_RECORD_LEN
        || record[pos + 2] != Gds.RECORD_TYPE_HI || record[pos + 3] != Gds.RECORD_TYPE_LO {
        return record;
      }
      repaired := record[pos := Hi(remaining)];
      repaired := repaired[pos + 1 := Lo(remaining)];
    }

    /** The loop of `repairGdsRecordLength`: the index where the chain of length fields breaks. */
    static method WalkChain(record: seq<byte>) returns (pos: nat)
      ensures pos <= |record| && Gds.Tail(record) == record[pos..]
    {
      hide Gds.Tail;
      var size := |record|;
      pos := 0;
      while pos + 2 <= size
        invariant 0 <= pos <= size
        invariant Gds.Tail(record[pos..]) == Gds.Tail(record)
        decreases size - pos
      {
        ghost var s := record[pos..];
        Gds.TailStep(s);
        var len := Be16(record[pos], record[pos + 1]);
        assert s[0] == record[pos] && s[1] == record[pos + 1];
        if len < Gds.MIN_RECORD_LEN || pos + len > size {
          break;
        }
        assert s[len..] == record[pos + len..];
        pos := pos + len;
      }
      Gds.TailStep(record[pos..]);
    }

    method SendTelnetCommand(cmd: byte, opt: byte)
      modifies this
      ensures receiveBuffer == old(receiveBuffer)
      ensures Core() == S.Send(old(Core()), cmd, opt)
    {
      trace := trace + [S.OnSendBytes([IAC, cmd, opt])];
    }

    method HandleTelnetCommand(cmd: byte, opt: byte)
      modifies this
      ensures receiveBuffer == old(receiveBuffer)
      ensures Core() == S.HandleOption(old(Core()), cmd, opt)
    {
      hide S.CheckComplete;
      if cmd == WILL {
        if opt == TRANSMIT_BINARY {
          SendTelnetCommand(DO, TRANSMIT_BINARY);
          binaryNegotiated := true;
          CheckHandshakeComplete();
        } else if opt == END_OF_RECORD {
          SendTelnetCommand(DO, END_OF_RECORD);
          eorNegotiated := true;
          CheckHandshakeComplete();
        } else if opt == ECHO {
          SendTelnetCommand(DO, ECHO);
        } else if opt == SUPPRESS_GO_AHEAD {
          SendTelnetCommand(DO, SUPPRESS_GO_AHEAD);
        } else {
          SendTelnetCommand(DONT, opt);
        }
      } else if cmd == DO {
        if opt == TIMING_MARK {
          SendTelnetCommand(WONT, TIMING_MARK);
        } else if opt == TRANSMIT_BINARY {
          SendTelnetCommand(WILL, TRANSMIT_BINARY);
          binaryNegotiated := true;
          CheckHandshakeComplete();
        } else if opt == END_OF_RECORD {
          SendTelnetCommand(WILL, END_OF_RECORD);
          eorNegotiated := true;
          CheckHandshakeComplete();
        } else if opt == TERMINAL_TYPE {
          SendTelnetCommand(WILL, TERMINAL_TYPE);
        } else if opt == NEW_ENVIRON {
          SendTelnetCommand(WILL, NEW_ENVIRON);
        } else {
          SendTelnetCommand(WONT, opt);
        }
      } else if cmd == SB {
        inSubnegotiation := true;
        currentSubnegotiation := opt;
        subnegotiationBuffer := [];
      }
    }

    method HandleSubnegotiation()
      modifies this
      ensures receiveBuffer == old(receiveBuffer)
      ensures Core() == S.HandleSubnegotiation(old(Core()))
    {
      hide S.CheckComplete, S.ScanSeed;
      trace := trace + [S.Handled(currentSubnegotiation, subnegotiationBuffer)];
      if currentSubnegotiation == TERMINAL_TYPE {
        SendDeviceName();
      } else if currentSubnegotiation == NEW_ENVIRON {
        if subnegotiationBuffer != [] && subnegotiationBuffer[0] == 0x01 {
          serverSeed := ReadServerSeed(subnegotiationBuffer);
        }
        trace := trace + [S.SentNewEnviron(serverSeed)];
      }
    }

    /** The seed scan of `handleSubnegotiation`. */
    static method ReadServerSeed(data: seq<byte>) returns (seed: seq<byte>)
      requires data != []
      ensures seed == S.ScanSeed(data[1..], [])
    {
      hide S.NameLength;
      seed := [];
      var si := 1;
      while si < |data|
        invariant 1 <= si <= |data|
        invariant S.ScanSeed(data[si..], seed) == S.ScanSeed(data[1..], [])
        decreases |data| - si
      {
        ghost var d := data[si..];
        var sb := data[si];
        assert d[0] == sb && d[1..] == data[si + 1..];
        if sb == 0x00 || sb == 0x03 {
          var nameStart := si + 1;
          var nameEnd := FindNameEnd(data, nameStart);
          var rawName := data[nameStart..nameEnd];
          assert rawName == d[1..1 + S.NameLength(d[1..])];
          assert d[1 + S.NameLength(d[1..])..] == data[nameEnd..];
          if S.IBMRSEED < rawName {
            seed := rawName[|S.IBMRSEED|..];
          }
          si := nameEnd - 1;
        }
        si := si + 1;
      }
    }

    /** The inner loop of the seed scan. */
    static method FindNameEnd(data: seq<byte>, nameStart: nat) returns (nameEnd: nat)
      requires nameStart <= |data|
      ensures nameEnd == nameStart + S.NameLength(data[nameStart..])
    {
      nameEnd := nameStart;
      while nameEnd < |data|
        invariant nameStart <= nameEnd <= |data|
        invariant nameEnd - nameStart + S.NameLength(data[nameEnd..]) == S.NameLength(data[nameStart..])
        decreases |data| - nameEnd
      {
        var nb := data[nameEnd];
        if nb == 0x00 || nb == 0x01 || nb == 0x03 {
          break;
        }
        assert data[nameEnd..][1..] == data[nameEnd + 1..];
        nameEnd := nameEnd + 1;
      }
    }

    method SendData(data: seq<byte>)
      modifies this
      ensures View() == S.Do(old(View()), S.SendData(data))
    {
      var len := Gds.HEADER_SIZE + |data|;
      var record := [Hi(len), Lo(len), Gds.RECORD_TYPE_HI, Gds.RECORD_TYPE_LO, 0x00, 0x00,
                     Gds.VAR_HDR_LEN, 0x00, 0x00, Gds.OPCODE_PUT_GET] + data;
      SendRawData(record);
    }

    method SendGDS(flagsHi: byte, opcode: byte, payload: seq<byte>)
      modifies this
      ensures View() == S.Do(old(View()), S.SendGds(flagsHi, opcode, payload))
    {
      var len := Gds.HEADER_SIZE + |payload|;
      var record := [Hi(len), Lo(len), Gds.RECORD_TYPE_HI, Gds.RECORD_TYPE_LO, 0x00, 0x00,
                     Gds.VAR_HDR_LEN, flagsHi, 0x00, opcode] + payload;
      SendRawData(record);
    }

    method SendRawData(data: seq<byte>)
      modifies this
      ensures receiveBuffer == old(receiveBuffer)
      ensures Core() == S.Emit(old(Core()), S.OnSendBytes(S.Frame(data)))
    {
      var escaped := EscapeRecord(data);
      trace := trace + [S.OnSendBytes(escaped)];
    }

    /** The loop of `sendRawData`. */
    static method EscapeRecord(data: seq<byte>) returns (escaped: seq<byte>)
      ensures escaped == S.Frame(data)
    {
      escaped := [];
      for n := 0 to |data|
        invariant escaped == Escape(data[..n])
      {
        var b := data[n];
        FlatMapSnoc(Double, data[..n], b);
        assert data[..n] + [b] == data[..n + 1];
        if b == IAC {
          escaped := escaped + [IAC];
          escaped := escaped + [IAC];
        } else {
          escaped := escaped + [b];
        }
      }
      assert data[..|data|] == data;
      escaped := escaped + [IAC];
      escaped := escaped + [EOR];
    }

    method PerformHandshake()
      modifies this
      ensures receiveBuffer == old(receiveBuffer)
      ensures Core() == S.PerformHandshake(old(Core()))
    {
      SendTelnetCommand(DO, TRANSMIT_BINARY);
      SendTelnetCommand(WILL, TRANSMIT_BINARY);
      SendTelnetCommand(DO, END_OF_RECORD);
      SendTelnetCommand(WILL, END_OF_RECORD);
    }

    method SendDeviceName()
      modifies this
      ensures receiveBuffer == old(receiveBuffer)
      ensures Core() == S.CheckComplete(S.Emit(old(Core()), S.SentDeviceName).(termSent := true, binary := true))
    {
      hide S.CheckComplete;
      trace := trace + [S.SentDeviceName];
      terminalTypeSent := true;
      if !binaryNegotiated {
        binaryNegotiated := true;
      }
      CheckHandshakeComplete();
    }

    method ProcessHandshakeData(data: seq<byte>)
      modifies this
      ensures receiveBuffer == old(receiveBuffer)
      ensures Core() ==
        if !old(handshakeComplete) && data != [] then S.CheckComplete(old(Core()).(binary := true))
        else old(Core())
    {
      if !handshakeComplete && data != [] {
        if !binaryNegotiated {
          binaryNegotiated := true;
        }
        CheckHandshakeComplete();
      }
    }

    method CheckHandshakeComplete()
      modifies this
      ensures receiveBuffer == old(receiveBuffer)
      ensures Core() == S.CheckComplete(old(Core()))
    {
      hide S.SetState;
      if !handshakeComplete && binaryNegotiated {
        var shouldComplete := false;
        if terminalTypeSent {
          shouldComplete := true;
        } else if handshakeBuffer != [] {
          shouldComplete := true;
        }
        if shouldComplete {
          handshakeComplete := true;
          SetState(S.Connected);
          trace := trace + [S.OnConnected];
          if handshakeBuffer != [] {
            trace := trace + [S.OnDataReceived(handshakeBuffer, handshakeBuffer)];
            handshakeBuffer := [];
          }
        }
      }
    }
  }
}
