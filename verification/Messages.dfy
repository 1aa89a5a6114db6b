/** The message codec of tn5250/message: the objects that read and write commands and messages. */
module Messages {
  import opened Bytes
  import opened OrderSpec
  import opened MessageSpec
  import Orders

  /** The fields of a Write To Display that a failed reading of `s` leaves, from those before it. */
  function WtdAbandoned(s: seq<byte>, before: Command): Command
    requires before.WriteToDisplay?
  {
    if |s| < 4 then before
    else if s[0] != ESC then before.(orders := [])
    else if s[1] != WRITE_TO_DISPLAY then before.(code := s[1], orders := [])
    else WriteToDisplay(s[1], s[2], s[3], [])
  }

  /** command_wtd_write_to_display.cpp */
  class CommandWtdWriteToDisplay {
    var code: byte
    var control1: byte
    var control2: byte
    var orders: seq<Order>

    function Value(): (c: Command)
      reads this
      ensures c.WriteToDisplay?
    {
      WriteToDisplay(code, control1, control2, orders)
    }

    constructor ()
      ensures Value() == WriteToDisplay(0, 0, 0, [])
    {
      code, control1, control2, orders := 0, 0, 0, [];
    }

    /** The bytes read, or 0 on failure, when the fields read before it stay overwritten. */
    method Unmarshal(buffer: seq<byte>) returns (read: nat)
      modifies this
      ensures match ParseWtd(buffer)
              case NoCommand => read == 0 && Value() == WtdAbandoned(buffer, old(Value()))
              case ACommand(n, c) => read == n && Value() == c
    {
      hide UnmarshalOrders;
      if |buffer| < 4 {
        return 0;
      }
      read := 0;
      orders := [];
      if buffer[read] != ESC {
        return 0;
      }
      read := read + 1;
      code := buffer[read];
      if code != WRITE_TO_DISPLAY {
        return 0;
      }
      read := read + 1;
      control1 := buffer[read];
      read := read + 1;
      control2 := buffer[read];
      read := read + 1;
      if read < |buffer| {
        var sub := buffer[read..];
        var parsedOrders := Orders.UnmarshalAll(sub);
        if parsedOrders == [] {
          return 0;
        }
        orders := orders + parsedOrders;
        read := read + |sub|;
      }
    }

    /** The wire form, but nothing if there are orders and `error` holds a text from before. */
    method Marshal(error: string) returns (buffer: seq<byte>)
      ensures buffer == if error != "" && orders != [] then [] else MarshalCommand(Value())
    {
      hide OrderSpec.Marshal;
      buffer := [ESC];
      buffer := buffer + [WRITE_TO_DISPLAY];
      buffer := buffer + [control1];
      buffer := buffer + [control2];
      for k := 0 to |orders|
        invariant k > 0 ==> error == ""
        invariant buffer == [ESC, WRITE_TO_DISPLAY, control1, control2] + MarshalAll(orders[..k])
      {
        var data := Orders.MarshalOrder(orders[k]);
        if error != "" {
          return [];
        }
        FlatMapSnoc(OrderSpec.Marshal, orders[..k], orders[k]);
        assert orders[..k + 1] == orders[..k] + [orders[k]];
        buffer := buffer + data;
      }
      assert orders[..|orders|] == orders;
    }
  }

  /** The command codes `unmarshalCommand` has a parser for. */
  predicate HasParser(code: byte) {
    code == CLEAR_UNIT || code == WRITE_TO_DISPLAY || code == READ_MDT_FIELDS
  }

  lemma UnparsedIsDefault(s: seq<byte>)
    requires ParseCommand(s).ACommand?
    ensures |s| >= 2 && (!HasParser(s[1]) ==> ParseCommand(s).command == DEFAULT_COMMAND)
  {
  }

  /** `unmarshalCommand`: the bytes read, or 0, and `out` after the call; failure and unknown commands leave it alone. */
  method UnmarshalCommand(buffer: seq<byte>, out: Command) returns (read: nat, out': Command)
    ensures match ParseCommand(buffer)
            case NoCommand => read == 0 && out' == out
            case ACommand(n, c) => read == n && out' == if HasParser(buffer[1]) then c else out
  {
    read, out' := 0, out;
    if |buffer| < 2 || buffer[0] != ESC {
      return;
    }
    var cmd := buffer[1];
    if cmd == CLEAR_UNIT {
      read, out' := 2, ClearScreen(cmd);
    } else if cmd == WRITE_TO_DISPLAY {
      var wtd := new CommandWtdWriteToDisplay();
      read := wtd.Unmarshal(buffer);
      if read != 0 {
        out' := wtd.Value();
      }
    } else if cmd == READ_MDT_FIELDS {
      if |buffer| >= 4 {
        read, out' := 4, ReadMdtFields(cmd, buffer[2], buffer[3]);
      }
    } else {
      read := |buffer|;
    }
  }

  /** The visitor that marshals whichever command it is given. */
  method MarshalAny(c: Command) returns (bytes: seq<byte>)
    ensures bytes == MarshalCommand(c)
  {
    match c
    case ClearScreen(_) => bytes := [ESC, CLEAR_UNIT];
    case WriteToDisplay(code, control1, control2, orders) =>
      var wtd := new CommandWtdWriteToDisplay();
      wtd.code, wtd.control1, wtd.control2, wtd.orders := code, control1, control2, orders;
      bytes := wtd.Marshal("");
    case ReadMdtFields(_, control1, control2) => bytes := [ESC, READ_MDT_FIELDS, control1, control2];
  }

  /** message.cpp and header/header.cpp */
  class Message {
    var recordLength: word
    var recordType: word
    var fixedReserved: word
    var variableLength: byte
    var snaFlags: byte
    var variableReserved: byte
    var opcode: byte
    var commands: seq<Command>

    function Value(): Fields
      reads this
    {
      Fields(recordLength, recordType, fixedReserved, variableLength, snaFlags, variableReserved, opcode, commands)
    }

    constructor ()
      ensures Value() == FRESH
    {
      recordLength, recordType, fixedReserved := 0, 0, 0;
      variableLength, snaFlags, variableReserved, opcode, commands := 0, 0, 0, 0, [];
    }

    /** `Header::unmarshal` */
    method UnmarshalHeader(buffer: seq<byte>) returns (read: nat)
      modifies this
      ensures if |buffer| < 6 then read == 0 && Value() == old(Value())
              else read == 6 && Value() == WithHeader(old(Value()), buffer)
    {
      if |buffer| < 6 {
        return 0;
      }
      recordLength := Be16(buffer[0], buffer[1]) as word;
      recordType := Be16(buffer[2], buffer[3]) as word;
      fixedReserved := Be16(buffer[4], buffer[5]) as word;
      return 6;
    }

    method Unmarshal(buffer: seq<byte>) returns (read: nat)
      modifies this
      ensures Outcome(Value(), read) == UnmarshalMessage(old(Value()), buffer)
    {
      hide ParseCommands;
      read := UnmarshalHeader(buffer);
      if read == 0 {
        return 0;
      }
      if read >= |buffer| {
        return 0;
      }
      variableLength := buffer[read];
      read := read + 1;
      if variableLength < 4 {
        return 0;
      }
      var needed := read + variableLength as int - 1;
      if |buffer| < needed {
        return 0;
      }
      snaFlags := buffer[read];
      variableReserved := buffer[read + 1];
      opcode := buffer[read + 2];
      read := UnmarshalCommands(buffer, needed);
    }

    /** The loop over commands, which keeps those read before a failure. */
    method UnmarshalCommands(buffer: seq<byte>, start: nat) returns (read: nat)
      requires start <= |buffer|
      modifies this`commands
      ensures var p := ParseCommands(buffer[start..]);
              commands == old(commands) + p.commands && read == if p.ok then |buffer| else 0
    {
      hide ParseCommand;
      read := start;
      ghost var all := ParseCommands(buffer[start..]);
      while read < |buffer|
        invariant start <= read <= |buffer|
        invariant all.ok == ParseCommands(buffer[read..]).ok
        invariant old(commands) + all.commands == commands + ParseCommands(buffer[read..]).commands
        decreases |buffer| - read
      {
        var sub := buffer[read..];
        ParseCommandReads(sub);
        var bytesRead, c := UnmarshalCommand(sub, DEFAULT_COMMAND);
        if bytesRead == 0 {
          assert commands + [] == commands;
          return 0;
        }
        UnparsedIsDefault(sub);
        assert sub[bytesRead..] == buffer[read + bytesRead..];
        read := read + bytesRead;
        commands := commands + [c];
      }
      assert buffer[read..] == [] && commands + [] == commands;
    }

    method Marshal() returns (out: seq<byte>)
      ensures out == MarshalMessage(Value())
    {
      hide MarshalCommands, Hi, Lo;
      var varLen := variableLength;
      if varLen < 4 {
        varLen := 4;
      }
      var payload := MarshalPayload();
      var totalLen := 2 + 2 + 2 + varLen as int + |payload|;
      if totalLen > 0xFFFF {
        return [];
      }
      out := [Hi(totalLen), Lo(totalLen)];
      out := out + [Hi(recordType as int), Lo(recordType as int)];
      out := out + [Hi(fixedReserved as int), Lo(fixedReserved as int)];
      out := out + [varLen, snaFlags, variableReserved, opcode];
      var zeros := Padding(varLen);
      out := out + zeros;
      out := out + payload;
    }

    /** The loop that pads a long variable header. */
    static method Padding(varLen: byte) returns (zeros: seq<byte>)
      requires varLen >= 4
      ensures zeros == seq(varLen as int - 4, _ => 0)
    {
      zeros := [];
      var i: byte := 4;
      while i < varLen
        invariant 4 <= i <= varLen && zeros == seq(i as int - 4, _ => 0)
        decreases varLen - i
      {
        zeros := zeros + [0x00];
        i := i + 1;
      }
    }

    /** The loop that marshals the commands ahead of the header. */
    method MarshalPayload() returns (payload: seq<byte>)
      ensures payload == MarshalCommands(commands)
    {
      hide MarshalCommand;
      payload := [];
      for k := 0 to |commands|
        invariant payload == MarshalCommands(commands[..k])
      {
        var bytes := MarshalAny(commands[k]);
        FlatMapSnoc(MarshalCommand, commands[..k], commands[k]);
        assert commands[..k + 1] == commands[..k] + [commands[k]];
        payload := payload + bytes;
      }
      assert commands[..|commands|] == commands;
    }
  }
}
