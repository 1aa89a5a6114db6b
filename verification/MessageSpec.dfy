/** The commands and messages of tn5250/message as the codec reads and writes them. */
module MessageSpec {
  import opened Bytes
  import opened OrderSpec

  const ESC: byte := 0x04
  const CLEAR_UNIT: byte := 0x40
  const WRITE_TO_DISPLAY: byte := 0x11
  const READ_MDT_FIELDS: byte := 0x52

  datatype Command =
    | ClearScreen(code: byte)
    | WriteToDisplay(code: byte, control1: byte, control2: byte, orders: seq<Order>)
    | ReadMdtFields(code: byte, control1: byte, control2: byte)

  /** A default-constructed `Command`, whose code is 0. */
  const DEFAULT_COMMAND := ClearScreen(0)

  /** The wire form of a command; its `code` field is not consulted. */
  function MarshalCommand(c: Command): seq<byte> {
    match c
    case ClearScreen(_) => [ESC, CLEAR_UNIT]
    case WriteToDisplay(_, control1, control2, orders) =>
      [ESC, WRITE_TO_DISPLAY, control1, control2] + MarshalAll(orders)
    case ReadMdtFields(_, control1, control2) => [ESC, READ_MDT_FIELDS, control1, control2]
  }

  function MarshalCommands(cs: seq<Command>): seq<byte> {
    FlatMap(MarshalCommand, cs)
  }

  datatype ParsedCommand = NoCommand | ACommand(read: nat, command: Command)

  /** A Write To Display takes all of its buffer; a body that yields no order is an error. */
  function ParseWtd(s: seq<byte>): ParsedCommand {
    if |s| < 4 || s[0] != ESC || s[1] != WRITE_TO_DISPLAY then NoCommand
    else if |s| == 4 then ACommand(4, WriteToDisplay(s[1], s[2], s[3], []))
    else
      var orders := UnmarshalOrders(s[4..]);
      if orders == [] then NoCommand else ACommand(|s|, WriteToDisplay(s[1], s[2], s[3], orders))
  }

  /** `unmarshalCommand`; an unknown command takes the buffer and leaves the default one. */
  function ParseCommand(s: seq<byte>): ParsedCommand {
    if |s| < 2 || s[0] != ESC then NoCommand
    else if s[1] == CLEAR_UNIT then ACommand(2, ClearScreen(s[1]))
    else if s[1] == WRITE_TO_DISPLAY then ParseWtd(s)
    else if s[1] == READ_MDT_FIELDS then
      if |s| < 4 then NoCommand else ACommand(4, ReadMdtFields(s[1], s[2], s[3]))
    else ACommand(|s|, DEFAULT_COMMAND)
  }

  lemma ParseCommandReads(s: seq<byte>)
    ensures ParseCommand(s).ACommand? ==> 0 < ParseCommand(s).read <= |s|
  {
  }

  /** The commands read off a payload, and whether it was read to its end. */
  datatype ParsedCommands = ParsedCommands(commands: seq<Command>, ok: bool)

  function ParseCommands(s: seq<byte>): ParsedCommands
    decreases |s|
  {
    ParseCommandReads(s);
    if s == [] then ParsedCommands([], true)
    else
      var p := ParseCommand(s);
      if p.NoCommand? then ParsedCommands([], false)
      else
        var rest := ParseCommands(s[p.read..]);
        ParsedCommands([p.command] + rest.commands, rest.ok)
  }

  /** All fields of a message. */
  datatype Fields = Fields(
    recordLength: word,
    recordType: word,
    fixedReserved: word,
    variableLength: byte,
    snaFlags: byte,
    variableReserved: byte,
    opcode: byte,
    commands: seq<Command>)

  const FRESH := Fields(0, 0, 0, 0, 0, 0, 0, [])

  datatype Outcome = Outcome(fields: Fields, read: nat)

  function WithHeader(m: Fields, s: seq<byte>): Fields
    requires |s| >= 6
  {
    m.(recordLength := Be16(s[0], s[1]) as word, recordType := Be16(s[2], s[3]) as word,
       fixedReserved := Be16(s[4], s[5]) as word)
  }

  /**
   `Message::unmarshal`: the bytes read, or 0 on failure, and the fields it
   leaves. Commands are appended to those the message already has.
   */
  function UnmarshalMessage(m: Fields, s: seq<byte>): Outcome {
    if |s| < 6 then Outcome(m, 0)
    else
      var m1 := WithHeader(m, s);
      if |s| == 6 then Outcome(m1, 0)
      else
        var m2 := m1.(variableLength := s[6]);
        var needed := 6 + s[6] as int;
        if s[6] < 4 || |s| < needed then Outcome(m2, 0)
        else
          var p := ParseCommands(s[needed..]);
          Outcome(
            m2.(snaFlags := s[7], variableReserved := s[8], opcode := s[9], commands := m2.commands + p.commands),
            if p.ok then |s| else 0)
  }

  function Max(a: byte, b: byte): byte {
    if a < b then b else a
  }

  function TotalLength(m: Fields): nat {
    6 + Max(m.variableLength, 4) as int + |MarshalCommands(m.commands)|
  }

  /** The header `marshal` writes; bytes of a long variable header are zero. */
  function HeaderBytes(m: Fields, total: nat): seq<byte> {
    [Hi(total), Lo(total), Hi(m.recordType as int), Lo(m.recordType as int),
     Hi(m.fixedReserved as int), Lo(m.fixedReserved as int),
     Max(m.variableLength, 4), m.snaFlags, m.variableReserved, m.opcode]
    + seq(Max(m.variableLength, 4) as int - 4, _ => 0)
  }

  /** `Message::marshal`, which returns nothing for a record too large to encode. */
  function MarshalMessage(m: Fields): seq<byte> {
    if TotalLength(m) > 0xFFFF then []
    else HeaderBytes(m, TotalLength(m)) + MarshalCommands(m.commands)
  }

  /** A command whose wire form says all there is to it. */
  predicate SoundCommand(c: Command) {
    match c
    case ClearScreen(code) => code == CLEAR_UNIT
    case WriteToDisplay(code, _, _, orders) =>
      code == WRITE_TO_DISPLAY && forall k :: 0 <= k < |orders| ==> WellFormed(orders[k])
    case ReadMdtFields(code, _, _) => code == READ_MDT_FIELDS
  }

  /** Only the last command may be a Write To Display. */
  predicate WtdLast(cs: seq<Command>) {
    forall k :: 0 <= k < |cs| - 1 ==> !cs[k].WriteToDisplay?
  }
}
