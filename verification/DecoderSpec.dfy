/**
 What tn5250/client/decoder.cpp makes of a byte stream: the cuts of the outer
 framing loop, and the pieces into which the walk over a record's payload
 divides it. A piece is a run of payload bytes; what the walk reports and what
 it shows is a function of the pieces alone.
 */
module DecoderSpec {
  import opened Bytes
  import Gds

  const ESC: byte := 0x04
  const SOH: byte := 0x01

  const CC_CLEAR_UNIT: byte := 0x40
  const CC_CLEAR_UNIT_ALTERNATE: byte := 0x20
  const CC_WRITE_TO_DISPLAY: byte := 0x11
  const CC_WRITE_ERROR_CODE: byte := 0x21
  const CC_WRITE_ERROR_CODE_TO_WINDOW: byte := 0x22
  const CC_ROLL: byte := 0x23
  const CC_READ_INPUT_FIELDS: byte := 0x42
  const CC_CLEAR_FORMAT_TABLE: byte := 0x50
  const CC_READ_MDT_FIELDS: byte := 0x52
  const CC_READ_SCREEN: byte := 0x62
  const CC_READ_SCREEN_ALT: byte := 0x66
  const CC_READ_IMMEDIATE: byte := 0x72
  const CC_WRITE_STRUCTURED_FIELD: byte := 0xF3

  const ORDER_RA: byte := 0x02
  const ORDER_EA: byte := 0x03
  const ORDER_TD: byte := 0x10
  const ORDER_SBA: byte := 0x11
  const ORDER_IC: byte := 0x13
  const ORDER_MC: byte := 0x14
  const ORDER_WDSF: byte := 0x15
  const ORDER_SF: byte := 0x1D

  const STRPCCMD_TRIGGER: byte := 0x80
  const STRPCCMD_SIGNATURE: seq<byte> := [0xFC, 0xD7, 0xC3, 0xD6, 0x40, 0x83, 0x80, 0xA1, 0x80]
  const STRPCCMD_MARKER_LEN := 10
  const STRPCCMD_MAX_COMMAND_LEN := 123
  const NO_WAIT: byte := 0x81
  const EBCDIC_SPACE: byte := 0x40

  const OPCODE_INVITE: byte := 0x01
  const OPCODE_OUTPUT_ONLY: byte := 0x02
  const OPCODE_PUT_GET: byte := 0x03
  const OPCODE_SAVE_SCREEN: byte := 0x04
  const OPCODE_RESTORE: byte := 0x05
  const OPCODE_READ_SCREEN: byte := 0x08
  const OPCODE_CANCEL_INVITE: byte := 0x0A
  const OPCODE_MSG_LIGHT_ON: byte := 0x0B
  const OPCODE_MSG_LIGHT_OFF: byte := 0x0C

  datatype Error =
    | RecordTooShort
    | IncompleteVariableHeader
    | VariableHeaderTooShort
    | StructuredFieldLength
    | UnknownCommand(cc: byte)
    | StrayByte(b: byte)

  /** The callbacks, in the order in which they fire. */
  datatype Event =
    | OnParseError(error: Error)
    | OnRawScreenData(data: seq<byte>)
    | OnSaveScreen
    | OnInvite
    | OnCancelInvite
    | OnMessageLightOn
    | OnMessageLightOff
    | OnClearScreen
    | OnClearScreenAlternate
    | OnClearFormatTable
    | OnWriteErrorCode(data: seq<byte>)
    | OnRoll(topRow: byte, botRow: byte, lineCount: byte, up: bool)
    | OnCommandReceived(cc: byte)
    | OnReadScreen(includeAttrs: bool)
    | OnWriteStructuredField(data: seq<byte>)
    | OnControlCharacters(ctrl1: byte, ctrl2: byte)
    | OnKeyboardUnlock
    | OnSoh(errorRow: byte, ckm1: byte, ckm2: byte, ckm3: byte)
    | OnStrpccmdRequested(noWait: bool, commandBytes: seq<byte>)

  /** What a run of payload bytes is: at the top level, or in the body of a Write To Display. */
  datatype Kind =
    | Command          // ESC, a command code and its operands, but Write To Display and unknown codes
    | WtdHeader        // ESC, Write To Display and its two control characters
    | Unknown          // an unknown command, up to the next ESC
    | Header           // a start-of-header outside any command
    | Stray            // a byte outside any command
    | Cut              // a truncated end of the payload, dropped
    | Shown            // an order or a character of the display
    | BodyHeader       // a start-of-header
    | BodyField        // a structured field
    | BodyCommand      // a STRPCCMD request

  datatype Piece = Piece(kind: Kind, bytes: seq<byte>)

  predicate InBody(p: Piece) {
    p.kind in {Shown, BodyHeader, BodyField, BodyCommand}
  }

  function BytesOf(p: Piece): seq<byte> {
    p.bytes
  }

  /** The bytes a piece adds to the display. */
  function ShownBytes(p: Piece): seq<byte> {
    if p.kind == Shown then p.bytes else []
  }

  function Min(a: int, b: int): int {
    if a < b then a else b
  }

  /** The bytes before the next ESC. */
  function UntilEsc(s: seq<byte>): (n: nat)
    ensures n <= |s|
  {
    if s == [] || s[0] == ESC then 0 else 1 + UntilEsc(s[1..])
  }

  /** The length prefix at the head of `s` names a structured field lying inside `s`. */
  predicate FieldFits(s: seq<byte>) {
    |s| >= 2 && 2 <= Be16(s[0], s[1]) <= |s|
  }

  /** How far the walk over structured fields gets; a bad length takes everything. */
  function FieldsLength(s: seq<byte>): (n: nat)
    ensures n <= |s|
  {
    if |s| < 2 || s[0] == ESC then 0
    else if FieldFits(s) then Be16(s[0], s[1]) + FieldsLength(s[Be16(s[0], s[1])..])
    else |s|
  }

  /** The walk over structured fields meets no bad length. */
  predicate FieldsFit(s: seq<byte>) {
    |s| < 2 || s[0] == ESC || (FieldFits(s) && FieldsFit(s[Be16(s[0], s[1])..]))
  }

  /** The bytes, at most `max`, before the first one below the EBCDIC blank. */
  function PrintableLength(s: seq<byte>, max: nat): (n: nat)
    ensures n <= |s| && n <= max
  {
    if s == [] || max == 0 || s[0] < EBCDIC_SPACE then 0 else 1 + PrintableLength(s[1..], max - 1)
  }

  /** The length of a start-field order, whose order code `s` starts with. */
  function StartFieldLength(s: seq<byte>): (n: nat)
    requires s != []
    ensures 1 <= n <= |s|
  {
    if |s| < 3 then |s|
    else
      var attr := 3 + ControlWordsLength(s[3..]);
      if attr == |s| then attr
      else if attr + 2 < |s| then attr + 3
      else attr + 1
  }

  predicate IsPcCommand(s: seq<byte>) {
    && |s| >= STRPCCMD_MARKER_LEN && s[0] == STRPCCMD_TRIGGER
    && s[1..STRPCCMD_MARKER_LEN] == STRPCCMD_SIGNATURE
  }

  function PcCommandLength(s: seq<byte>): (n: nat)
    requires IsPcCommand(s)
    ensures STRPCCMD_MARKER_LEN <= n <= |s|
  {
    var t := s[STRPCCMD_MARKER_LEN..];
    if t == [] || t[0] == ESC then STRPCCMD_MARKER_LEN
    else STRPCCMD_MARKER_LEN + 1 + PrintableLength(t[1..], STRPCCMD_MAX_COMMAND_LEN)
  }

  /** The first piece of a Write To Display body. */
  function BodyPiece(s: seq<byte>): (p: Piece)
    requires s != [] && s[0] != ESC
    ensures 1 <= |p.bytes| <= |s| && p.bytes == s[..|p.bytes|] && InBody(p)
  {
    var b := s[0];
    if b == SOH then
      Piece(BodyHeader, s[..if |s| == 1 then 1 else Min(2 + s[1] as int, |s|)])
    else if b == ORDER_SBA || b == ORDER_IC || b == ORDER_MC then
      Piece(Shown, s[..Min(3, |s|)])
    else if b == ORDER_RA || b == ORDER_EA then
      Piece(Shown, s[..Min(4, |s|)])
    else if b == ORDER_TD then
      Piece(Shown, s[..if |s| == 1 then 1 else Min(2 + s[1] as int, |s|)])
    else if b == ORDER_WDSF then
      Piece(BodyField, if |s| < 3 then s else s[..Min(1 + (if Be16(s[1], s[2]) < 2 then 2 else Be16(s[1], s[2])), |s|)])
    else if IsPcCommand(s) then
      Piece(BodyCommand, s[..PcCommandLength(s)])
    else if b == ORDER_SF then
      Piece(Shown, s[..StartFieldLength(s)])
    else
      Piece(Shown, s[..1])
  }

  /** The pieces of a Write To Display body, which ends at an ESC or with the payload. */
  function BodyPieces(s: seq<byte>): seq<Piece> {
    if s == [] || s[0] == ESC then []
    else
      var p := BodyPiece(s);
      [p] + BodyPieces(s[|p.bytes|..])
  }

  function BodyLength(s: seq<byte>): (n: nat)
    ensures n <= |s|
  {
    if s == [] || s[0] == ESC then 0
    else
      var n := |BodyPiece(s).bytes|;
      n + BodyLength(s[n..])
  }

  /** The first piece of a payload. */
  function TopPiece(s: seq<byte>): (p: Piece)
    requires s != []
    ensures 1 <= |p.bytes| <= |s| && p.bytes == s[..|p.bytes|] && !InBody(p)
    ensures p.kind == WtdHeader ==> |p.bytes| == 4
  {
    if s[0] == ESC then
      if |s| == 1 then Piece(Cut, s)
      else
        var cc := s[1];
        if cc == CC_CLEAR_UNIT || cc == CC_CLEAR_UNIT_ALTERNATE || cc == CC_CLEAR_FORMAT_TABLE then
          Piece(Command, s[..2])
        else if cc == CC_WRITE_ERROR_CODE || cc == CC_WRITE_ERROR_CODE_TO_WINDOW then
          Piece(Command, s[..2 + UntilEsc(s[2..])])
        else if cc == CC_ROLL then
          Piece(Command, s[..if |s| > 5 then 6 else Min(4, |s|)])
        else if cc == CC_READ_INPUT_FIELDS || cc == CC_READ_MDT_FIELDS || cc == CC_READ_IMMEDIATE
             || cc == CC_READ_SCREEN || cc == CC_READ_SCREEN_ALT then
          Piece(Command, s[..Min(4, |s|)])
        else if cc == CC_WRITE_STRUCTURED_FIELD then
          Piece(Command, s[..2 + FieldsLength(s[2..])])
        else if cc == CC_WRITE_TO_DISPLAY then
          if |s| < 4 then Piece(Cut, s) else Piece(WtdHeader, s[..4])
        else
          Piece(Unknown, s[..2 + UntilEsc(s[2..])])
    else if s[0] == SOH then
      if |s| == 1 then Piece(Cut, s) else Piece(Header, s[..Min(2 + s[1] as int, |s|)])
    else
      Piece(Stray, s[..1])
  }

  /** The pieces of a payload. */
  function Pieces(s: seq<byte>): seq<Piece>
    decreases |s|
  {
    if s == [] then []
    else
      var p := TopPiece(s);
      var rest := s[|p.bytes|..];
      if p.kind == WtdHeader then [p] + BodyPieces(rest) + Pieces(rest[BodyLength(rest)..])
      else [p] + Pieces(rest)
  }

  /** The report of a start-of-header, whose own length byte says which keys it carries. */
  function HeaderEvents(b: seq<byte>): seq<Event> {
    if |b| < 2 || b[1] < 4 then []
    else
      [OnSoh(
         if |b| > 5 then b[5] else 0,
         if b[1] >= 5 && |b| > 6 then b[6] else 0,
         if b[1] >= 6 && |b| > 7 then b[7] else 0,
         if b[1] >= 7 && |b| > 8 then b[8] else 0)]
  }

  /** A row number of a roll command, one less than sent, in eight bits. */
  function RowBefore(b: byte): byte {
    if b == 0 then 0xFF else b - 1
  }

  function RollEvents(b: seq<byte>): seq<Event> {
    if |b| < 4 then []
    else
      [OnRoll(
         if |b| == 6 then RowBefore(b[4]) else 0,
         if |b| == 6 then RowBefore(b[5]) else 0,
         b[3] % 32,
         b[2] >= 0x80)]
  }

  function CommandEvents(b: seq<byte>): seq<Event>
    requires |b| >= 2
  {
    var cc := b[1];
    if cc == CC_CLEAR_UNIT then [OnClearScreen]
    else if cc == CC_CLEAR_UNIT_ALTERNATE then [OnClearScreenAlternate]
    else if cc == CC_CLEAR_FORMAT_TABLE then [OnClearFormatTable]
    else if cc == CC_ROLL then RollEvents(b)
    else if cc == CC_READ_SCREEN then [OnReadScreen(false)]
    else if cc == CC_READ_SCREEN_ALT then [OnReadScreen(true)]
    else if cc == CC_WRITE_STRUCTURED_FIELD then
      (if FieldsFit(b[2..]) then [] else [OnParseError(StructuredFieldLength)]) + [OnWriteStructuredField(b[2..])]
    else if cc == CC_WRITE_ERROR_CODE || cc == CC_WRITE_ERROR_CODE_TO_WINDOW then [OnWriteErrorCode(b[2..])]
    else [OnCommandReceived(cc)]
  }

  function PcCommandEvents(b: seq<byte>): seq<Event> {
    [if |b| <= STRPCCMD_MARKER_LEN then OnStrpccmdRequested(false, [])
     else OnStrpccmdRequested(b[STRPCCMD_MARKER_LEN] == NO_WAIT, b[STRPCCMD_MARKER_LEN + 1..])]
  }

  /** What the walk reports of a piece. */
  function EventsOf(p: Piece): seq<Event> {
    match p.kind
    case Command => if |p.bytes| < 2 then [] else CommandEvents(p.bytes)
    case WtdHeader =>
      if |p.bytes| < 4 then []
      else
        [OnControlCharacters(p.bytes[2], p.bytes[3])] +
        (if p.bytes[3] / 8 % 2 == 1 then [OnKeyboardUnlock] else [])
    case Unknown => if |p.bytes| < 2 then [] else [OnParseError(UnknownCommand(p.bytes[1]))]
    case Header => HeaderEvents(p.bytes)
    case Stray => if p.bytes == [] then [] else [OnParseError(StrayByte(p.bytes[0]))]
    case Cut => []
    case Shown => []
    case BodyHeader => HeaderEvents(p.bytes)
    case BodyField => []
    case BodyCommand => PcCommandEvents(p.bytes)
  }

  function Events(ps: seq<Piece>): seq<Event> {
    FlatMap(EventsOf, ps)
  }

  function Display(ps: seq<Piece>): seq<byte> {
    FlatMap(ShownBytes, ps)
  }

  predicate IsDisplayOpcode(opcode: byte) {
    opcode in {OPCODE_OUTPUT_ONLY, OPCODE_PUT_GET, OPCODE_RESTORE, OPCODE_SAVE_SCREEN, OPCODE_READ_SCREEN}
  }

  /** A walked payload: its reports, then the display, even when empty. */
  function PayloadEvents(payload: seq<byte>): seq<Event> {
    Events(Pieces(payload)) + [OnRawScreenData(Display(Pieces(payload)))]
  }

  /** What a record with a sound header leads to. */
  function OpcodeEvents(opcode: byte, payload: seq<byte>): seq<Event> {
    if opcode == OPCODE_INVITE then [OnInvite]
    else if opcode == OPCODE_CANCEL_INVITE then [OnCancelInvite]
    else if opcode == OPCODE_MSG_LIGHT_ON then [OnMessageLightOn]
    else if opcode == OPCODE_MSG_LIGHT_OFF then [OnMessageLightOff]
    else if IsDisplayOpcode(opcode) then
      (if opcode == OPCODE_SAVE_SCREEN then [OnSaveScreen] else []) + PayloadEvents(payload)
    else []
  }

  /** A header that the decoder accepts; at least one byte has to follow it. */
  predicate SoundHeader(rec: seq<byte>) {
    |rec| >= 7 && rec[2] == Gds.RECORD_TYPE_HI && rec[3] == Gds.RECORD_TYPE_LO
    && 4 <= rec[6] && 7 + rec[6] as int <= |rec|
  }

  function RecordEvents(rec: seq<byte>): seq<Event> {
    if |rec| < 7 then [OnParseError(RecordTooShort)]
    else if !(rec[2] == Gds.RECORD_TYPE_HI && rec[3] == Gds.RECORD_TYPE_LO) then [OnRawScreenData(rec)]
    else if |rec| < 7 + rec[6] as int then [OnParseError(IncompleteVariableHeader)]
    else if rec[6] < 4 then [OnParseError(VariableHeaderTooShort)]
    else OpcodeEvents(rec[9], rec[6 + rec[6] as int..])
  }

  /** What the framing loop takes off the buffer in one turn. */
  datatype Cutting = Skipped(b: byte) | Record(rec: seq<byte>)

  function CuttingBytes(cut: Cutting): seq<byte> {
    match cut
    case Skipped(b) => [b]
    case Record(rec) => rec
  }

  function CuttingEvents(cut: Cutting): seq<Event> {
    match cut
    case Skipped(_) => []
    case Record(rec) => RecordEvents(rec)
  }

  datatype Turn = Wait | Take(cut: Cutting)

  function NextTurn(buffer: seq<byte>): Turn {
    if |buffer| < Gds.MIN_RECORD_LEN then Wait
    else
      var len := Be16(buffer[0], buffer[1]);
      if len < Gds.MIN_RECORD_LEN then Take(Skipped(buffer[0]))
      else if |buffer| < len then Wait
      else Take(Record(buffer[..len]))
  }

  /** All the framing loop takes off `buffer`. */
  function Cuttings(buffer: seq<byte>): seq<Cutting>
    decreases |buffer|
  {
    var turn := NextTurn(buffer);
    if turn.Wait? then [] else [turn.cut] + Cuttings(buffer[|CuttingBytes(turn.cut)|..])
  }

  /** What it leaves there. */
  function Remainder(buffer: seq<byte>): seq<byte>
    decreases |buffer|
  {
    var turn := NextTurn(buffer);
    if turn.Wait? then buffer else Remainder(buffer[|CuttingBytes(turn.cut)|..])
  }

  datatype State = State(buffer: seq<byte>, trace: seq<Event>)

  /** `Decoder::parseData`. */
  function Parse(s: State, data: seq<byte>): State {
    var buffer := s.buffer + data;
    State(Remainder(buffer), s.trace + FlatMap(CuttingEvents, Cuttings(buffer)))
  }

  function ParseAll(s: State, chunks: seq<seq<byte>>): State {
    if chunks == [] then s else Parse(ParseAll(s, chunks[..|chunks| - 1]), chunks[|chunks| - 1])
  }
}
