/**
 What `Message::unmarshal` makes of a message told from its bytes: short
 commands, and then an ending that takes the rest of the payload or is refused.
 */
module MessagePayloads {
  import opened Bytes
  import opened OrderSpec
  import opened MessageSpec
  import MessageProofs

  /** A command that leaves the rest of the payload to the next one. */
  datatype Brief = Clear | ReadMdt(control1: byte, control2: byte)

  function BriefBytes(b: Brief): seq<byte> {
    match b
    case Clear => [0x04, 0x40]
    case ReadMdt(control1, control2) => [0x04, 0x52, control1, control2]
  }

  function BriefCommand(b: Brief): seq<Command> {
    [match b
     case Clear => ClearScreen(0x40)
     case ReadMdt(control1, control2) => ReadMdtFields(0x52, control1, control2)]
  }

  /** What may come after them. */
  datatype Ending =
    | Nothing
    | Display(control1: byte, control2: byte, body: seq<byte>)
    | Unknown(code: byte, more: seq<byte>)
    | Refused(bytes: seq<byte>)

  function EndingBytes(e: Ending): seq<byte> {
    match e
    case Nothing => []
    case Display(control1, control2, body) => [0x04, 0x11, control1, control2] + body
    case Unknown(code, more) => [0x04, code] + more
    case Refused(bytes) => bytes
  }

  /** An unknown command leaves a default command behind, a Clear Screen without a code. */
  function EndingCommands(e: Ending): seq<Command> {
    match e
    case Nothing => []
    case Display(control1, control2, body) => [WriteToDisplay(0x11, control1, control2, UnmarshalOrders(body))]
    case Unknown(_, _) => [ClearScreen(0)]
    case Refused(_) => []
  }

  /** Text that starts no command, or one that is cut off or whose body yields no order. */
  predicate Bad(s: seq<byte>) {
    s != [] &&
    (|| s[0] != 0x04 || |s| == 1
     || (s[1] == 0x52 && |s| < 4)
     || (s[1] == 0x11 && (|s| < 4 || (|s| > 4 && UnmarshalOrders(s[4..]) == []))))
  }

  predicate Fits(e: Ending) {
    match e
    case Nothing => true
    case Display(_, _, body) => body == [] || UnmarshalOrders(body) != []
    case Unknown(code, _) => code !in {0x40, 0x11, 0x52}
    case Refused(bytes) => Bad(bytes)
  }

  function Payload(briefs: seq<Brief>, e: Ending): seq<byte> {
    FlatMap(BriefBytes, briefs) + EndingBytes(e)
  }

  lemma BriefRead(b: Brief, rest: seq<byte>)
    ensures ParseCommand(BriefBytes(b) + rest) == ACommand(|BriefBytes(b)|, BriefCommand(b)[0])
    ensures BriefBytes(b) != [] && (BriefBytes(b) + rest)[|BriefBytes(b)|..] == rest
  {
    hide UnmarshalOrders;
  }

  lemma EndingRead(e: Ending)
    requires Fits(e)
    ensures ParseCommands(EndingBytes(e)) == ParsedCommands(EndingCommands(e), !e.Refused?)
  {
    hide UnmarshalOrders;
    var s := EndingBytes(e);
    match e
    case Nothing =>
    case Display(control1, control2, body) =>
      assert s[4..] == body && s[|s|..] == [];
      assert body == [] ==> UnmarshalOrders(body) == [] by { NoBodyNoOrders(); }
      assert ParseCommands([]) == ParsedCommands([], true);
    case Unknown(code, more) =>
      assert s[|s|..] == [];
      assert ParseCommands([]) == ParsedCommands([], true);
    case Refused(bytes) =>
  }

  lemma NoBodyNoOrders()
    ensures UnmarshalOrders([]) == []
  {
  }

  lemma {:induction false} PayloadRead(briefs: seq<Brief>, e: Ending)
    requires Fits(e)
    ensures ParseCommands(Payload(briefs, e)) ==
      ParsedCommands(FlatMap(BriefCommand, briefs) + EndingCommands(e), !e.Refused?)
    decreases |briefs|
  {
    hide ParseCommand, EndingBytes, EndingCommands, BriefBytes, Fits;
    if briefs == [] {
      EndingRead(e);
      assert Payload([], e) == EndingBytes(e) && [] + EndingCommands(e) == EndingCommands(e);
    } else {
      var b, rest := briefs[0], Payload(briefs[1..], e);
      FlatMapCons(BriefBytes, briefs);
      FlatMapCons(BriefCommand, briefs);
      hide FlatMap;
      assert Payload(briefs, e) == BriefBytes(b) + rest;
      BriefRead(b, rest);
      PayloadRead(briefs[1..], e);
      assert [BriefCommand(b)[0]] + (FlatMap(BriefCommand, briefs[1..]) + EndingCommands(e))
          == BriefCommand(b) + FlatMap(BriefCommand, briefs[1..]) + EndingCommands(e);
    }
  }

  /** The ending of a payload that does not go on with a short command. */
  function EndingOf(s: seq<byte>): Ending {
    if s == [] then Nothing
    else if Bad(s) then Refused(s)
    else if s[1] == 0x11 then Display(s[2], s[3], s[4..])
    else Unknown(s[1], s[2..])
  }

  predicate StartsBrief(s: seq<byte>) {
    |s| >= 2 && s[0] == 0x04 && (s[1] == 0x40 || (s[1] == 0x52 && |s| >= 4))
  }

  lemma EndingOfFits(s: seq<byte>)
    requires !StartsBrief(s)
    ensures Fits(EndingOf(s)) && EndingBytes(EndingOf(s)) == s
  {
    hide UnmarshalOrders;
    if s != [] && !Bad(s) && s[1] == 0x11 {
      assert s == s[..4] + s[4..];
    }
  }

  /** Every payload is short commands and an ending. */
  lemma {:induction false} EveryPayload(s: seq<byte>) returns (briefs: seq<Brief>, e: Ending)
    ensures s == Payload(briefs, e) && Fits(e)
    decreases |s|
  {
    hide Fits, EndingBytes, EndingOf;
    if StartsBrief(s) {
      var b := if s[1] == 0x40 then Clear else ReadMdt(s[2], s[3]);
      var n := |BriefBytes(b)|;
      briefs, e := EveryPayload(s[n..]);
      FlatMapAppend(BriefBytes, [b], briefs);
      FlatMapOne(BriefBytes, b);
      assert s == BriefBytes(b) + s[n..];
      hide FlatMap;
      assert Payload([b] + briefs, e) == BriefBytes(b) + Payload(briefs, e);
      briefs := [b] + briefs;
    } else {
      EndingOfFits(s);
      briefs, e := [], EndingOf(s);
      assert FlatMap(BriefBytes, []) + EndingBytes(e) == EndingBytes(e);
    }
  }

  /** The record length, type and reserved word, and a variable header as long as it says. */
  predicate IsHeader(h: seq<byte>) {
    |h| >= 10 && |h| == 6 + h[6] as int
  }

  /** The fields of `m` once a header has been read. */
  function Headed(m: Fields, h: seq<byte>): Fields
    requires IsHeader(h)
  {
    m.(recordLength := (h[0] as int * 256 + h[1] as int) as word,
       recordType := (h[2] as int * 256 + h[3] as int) as word,
       fixedReserved := (h[4] as int * 256 + h[5] as int) as word,
       variableLength := h[6], snaFlags := h[7], variableReserved := h[8], opcode := h[9])
  }

  /**
   Reading any message into any fields: the header is stored, the commands of
   the payload are appended to those already there, and the whole buffer is read
   unless the ending is refused. An unknown command takes all that is left, and
   a failure keeps the commands before it.
   */
  lemma MessageRead(m: Fields, h: seq<byte>, briefs: seq<Brief>, e: Ending)
    requires IsHeader(h) && Fits(e)
    ensures var s := h + Payload(briefs, e);
            var commands := m.commands + FlatMap(BriefCommand, briefs) + EndingCommands(e);
            UnmarshalMessage(m, s) == Outcome(Headed(m, h).(commands := commands), if e.Refused? then 0 else |s|)
  {
    hide ParseCommands, FlatMap, EndingCommands, Fits, Payload;
    var s := h + Payload(briefs, e);
    PayloadRead(briefs, e);
    assert s[|h|..] == Payload(briefs, e) && forall k :: 0 <= k < 10 ==> s[k] == h[k];
    assert m.commands + FlatMap(BriefCommand, briefs) + EndingCommands(e)
        == m.commands + (FlatMap(BriefCommand, briefs) + EndingCommands(e));
  }

  /** After its short commands, the payload is refused. */
  ghost predicate EndsBadly(s: seq<byte>) {
    exists briefs, bytes :: s == Payload(briefs, Refused(bytes)) && Bad(bytes)
  }

  /** Which buffers are rejected. */
  lemma RejectedExactly(m: Fields, s: seq<byte>)
    ensures UnmarshalMessage(m, s).read == 0 <==>
      |s| < 7 || s[6] < 4 || |s| < 6 + s[6] as int || EndsBadly(s[6 + s[6] as int..])
  {
    if |s| >= 7 && s[6] >= 4 && |s| >= 6 + s[6] as int {
      hide ParseCommands, Payload, Bad, UnmarshalOrders;
      var payload := s[6 + s[6] as int..];
      var briefs, e := EveryPayload(payload);
      PayloadRead(briefs, e);
      if EndsBadly(payload) {
        var briefs', bytes :| payload == Payload(briefs', Refused(bytes)) && Bad(bytes);
        PayloadRead(briefs', Refused(bytes));
      } else {
        assert !e.Refused?;
      }
    }
  }
}
