/** Round trip of messages, and their agreement with the decoder's framing. */
module MessageProofs {
  import opened Bytes
  import opened OrderSpec
  import opened MessageSpec
  import OrderProofs
  import Gds
  import DecoderSpec
  import DecoderProofs

  lemma WtdRoundTrip(c: Command)
    requires c.WriteToDisplay? && SoundCommand(c)
    ensures ParseCommand(MarshalCommand(c)) == ACommand(|MarshalCommand(c)|, c)
  {
    hide ScanOrders, MarshalAll, WellFormed;
    var s := MarshalCommand(c);
    OrderProofs.ListRoundTrip(c.orders);
    assert s[4..] == MarshalAll(c.orders);
    if c.orders == [] {
      assert MarshalAll([]) == [] by { NoOrders(); }
    }
  }

  lemma NoOrders()
    ensures MarshalAll([]) == []
  {
  }

  /** A command that does not run to the end of its buffer is read back from in front of anything. */
  lemma ShortRoundTrip(c: Command, rest: seq<byte>)
    requires !c.WriteToDisplay? && SoundCommand(c)
    ensures ParseCommand(MarshalCommand(c) + rest) == ACommand(|MarshalCommand(c)|, c)
  {
  }

  lemma {:induction false} CommandsRoundTrip(cs: seq<Command>)
    requires forall k :: 0 <= k < |cs| ==> SoundCommand(cs[k])
    requires WtdLast(cs)
    ensures ParseCommands(MarshalCommands(cs)) == ParsedCommands(cs, true)
    ensures |MarshalCommands(cs)| == 0 <==> cs == []
    decreases |cs|
  {
    hide ParseCommand, SoundCommand, MarshalCommand;
    if cs != [] {
      var c, s := cs[0], MarshalCommands(cs);
      var rest := MarshalCommands(cs[1..]);
      FlatMapCons(MarshalCommand, cs);
      assert s == MarshalCommand(c) + rest && s[|MarshalCommand(c)|..] == rest;
      CommandStarts(c);
      CommandsRoundTrip(cs[1..]);
      if c.WriteToDisplay? {
        assert cs[1..] == [] && rest == [];
        assert s == MarshalCommand(c);
        WtdRoundTrip(c);
      } else {
        ShortRoundTrip(c, rest);
      }
      assert [c] + cs[1..] == cs;
    }
  }

  lemma CommandStarts(c: Command)
    ensures MarshalCommand(c) != []
  {
  }

  /** A Write To Display swallows what follows it, so it is never read back in front of another command. */
  lemma {:induction false} ParsedWtdLast(s: seq<byte>)
    ensures ParseCommands(s).ok ==> WtdLast(ParseCommands(s).commands)
    decreases |s|
  {
    hide ParseCommand;
    ParseCommandReads(s);
    if s != [] && ParseCommand(s).ACommand? {
      var p := ParseCommand(s);
      var rest := ParseCommands(s[p.read..]);
      ParsedWtdLast(s[p.read..]);
      if p.command.WriteToDisplay? {
        WtdSwallows(s);
      }
      assert p.command.WriteToDisplay? ==> s[p.read..] == [];
      var cs := ParseCommands(s).commands;
      assert cs == [p.command] + rest.commands;
      assert forall k :: 0 < k < |cs| ==> cs[k] == rest.commands[k - 1];
    }
  }

  lemma WtdSwallows(s: seq<byte>)
    requires ParseCommand(s).ACommand? && ParseCommand(s).command.WriteToDisplay?
    ensures ParseCommand(s).read == |s|
  {
  }

  predicate Sound(m: Fields) {
    && TotalLength(m) <= 0xFFFF
    && forall k :: 0 <= k < |m.commands| ==> SoundCommand(m.commands[k])
  }

  /** What a round trip restores: everything, with the lengths as written. */
  function Restored(m: Fields): Fields
    requires Sound(m)
  {
    m.(recordLength := TotalLength(m) as word, variableLength := Max(m.variableLength, 4))
  }

  /** Where the parts of a marshalled message lie. */
  lemma MarshalLayout(m: Fields)
    requires Sound(m)
    ensures var s := MarshalMessage(m);
            var needed := 6 + Max(m.variableLength, 4) as int;
            && |s| == TotalLength(m) && 10 <= needed <= |s|
            && s[needed..] == MarshalCommands(m.commands)
            && Be16(s[0], s[1]) == TotalLength(m)
            && Be16(s[2], s[3]) == m.recordType as int && Be16(s[4], s[5]) == m.fixedReserved as int
            && s[6] == Max(m.variableLength, 4) && s[7] == m.snaFlags && s[8] == m.variableReserved && s[9] == m.opcode
  {
    hide MarshalCommands;
    Be16Inverse(TotalLength(m));
    Be16Inverse(m.recordType as int);
    Be16Inverse(m.fixedReserved as int);
    var header := HeaderBytes(m, TotalLength(m));
    assert |header| == 6 + Max(m.variableLength, 4) as int;
  }

  lemma UnmarshalMarshalled(m: Fields)
    requires Sound(m)
    ensures var p := ParseCommands(MarshalCommands(m.commands));
            UnmarshalMessage(FRESH, MarshalMessage(m)) ==
              Outcome(Restored(m).(commands := p.commands), if p.ok then |MarshalMessage(m)| else 0)
  {
    hide MarshalCommands, ParseCommands, MarshalMessage, TotalLength;
    MarshalLayout(m);
    var p := ParseCommands(MarshalCommands(m.commands));
    assert FRESH.commands + p.commands == p.commands;
  }

  /**
   Message round trip: reading back what was written consumes every byte and
   restores the message, up to the lengths as written, exactly when no Write To
   Display stands in front of another command.
   */
  lemma MessageRoundTrip(m: Fields)
    requires Sound(m)
    ensures UnmarshalMessage(FRESH, MarshalMessage(m)) == Outcome(Restored(m), |MarshalMessage(m)|) <==> WtdLast(m.commands)
  {
    hide MarshalCommands, ParseCommands, MarshalMessage, TotalLength, WtdLast, SoundCommand;
    UnmarshalMarshalled(m);
    MarshalLayout(m);
    ParsedWtdLast(MarshalCommands(m.commands));
    if WtdLast(m.commands) {
      CommandsRoundTrip(m.commands);
    }
  }

  /**
   The decoder cuts a marshalled message as exactly one record, and if it is a
   general data stream, takes it for a record with the same opcode and the same
   payload offset exactly when it has a command.
   */
  lemma DecoderFramesMessage(m: Fields)
    requires Sound(m) && m.recordType == 0x12A0
    ensures var s := MarshalMessage(m);
            && DecoderSpec.Cuttings(s) == [DecoderSpec.Record(s)] && DecoderSpec.Remainder(s) == []
            && (DecoderSpec.SoundHeader(s) <==> m.commands != [])
            && DecoderSpec.RecordEvents(s) ==
                 if m.commands != [] then DecoderSpec.OpcodeEvents(m.opcode, MarshalCommands(m.commands))
                 else [DecoderSpec.OnParseError(DecoderSpec.IncompleteVariableHeader)]
  {
    hide MarshalCommands, MarshalMessage, TotalLength, DecoderSpec.OpcodeEvents, Max;
    var s := MarshalMessage(m);
    MarshalLayout(m);
    TypeBytes(s[2], s[3]);
    assert |MarshalCommands(m.commands)| == 0 <==> m.commands == [] by {
      CommandsNonEmpty(m.commands);
    }
    OneRecord(s);
  }

  lemma TypeBytes(hi: byte, lo: byte)
    requires Be16(hi, lo) == 0x12A0
    ensures hi == Gds.RECORD_TYPE_HI && lo == Gds.RECORD_TYPE_LO
  {
  }

  lemma CommandsNonEmpty(cs: seq<Command>)
    ensures MarshalCommands(cs) == [] <==> cs == []
  {
    if cs != [] {
      FlatMapCons(MarshalCommand, cs);
      CommandStarts(cs[0]);
    }
  }

  lemma OneRecord(s: seq<byte>)
    requires |s| >= 6 && Be16(s[0], s[1]) == |s|
    ensures DecoderSpec.Cuttings(s) == [DecoderSpec.Record(s)] && DecoderSpec.Remainder(s) == []
  {
    assert s[..|s|] == s && s[|s|..] == [];
    DecoderProofs.CuttingsUnfold(s);
    DecoderProofs.CuttingsUnfold([]);
  }
}
