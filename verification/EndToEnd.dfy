/**
 The receive path as a whole: blocks delivered by the protocol handler go to
 the decoder, and no record of one block bleeds into the next.
 */
module EndToEnd {
  import opened Bytes
  import opened Telnet
  import Gds
  import H = HandlerSpec
  import F = HandlerFraming
  import D = DecoderSpec
  import DecoderProofs
  import M = MessageSpec
  import MessagePayloads

  /** What the decoder reports of the records a block tiles into. */
  function BlockEvents(block: seq<byte>): seq<D.Event> {
    FlatMap(D.RecordEvents, Gds.Parts(block))
  }

  lemma {:induction false} EventsOfRecords(parts: seq<seq<byte>>)
    ensures FlatMap(D.CuttingEvents, DecoderProofs.AsRecords(parts)) == FlatMap(D.RecordEvents, parts)
  {
    hide D.RecordEvents;
    if parts != [] {
      var front, last := parts[..|parts| - 1], parts[|parts| - 1];
      EventsOfRecords(front);
      FlatMapSnoc(D.CuttingEvents, DecoderProofs.AsRecords(front), D.Record(last));
    }
  }

  /** A block that its length fields tile passes through an empty decoder and leaves it empty. */
  lemma TiledBlock(s: D.State, block: seq<byte>)
    requires s.buffer == [] && Gds.Tiles(block)
    ensures D.Parse(s, block) == D.State([], s.trace + BlockEvents(block))
  {
    hide FlatMap, D.Cuttings, D.Remainder;
    assert s.buffer + block == block;
    DecoderProofs.TilesExactly(block);
    EventsOfRecords(Gds.Parts(block));
  }

  /**
   No stall: the decoder takes a repaired block apart at the boundaries of its
   length chain, skipping nothing and waiting for nothing, exactly when the
   chain of the block as received closes or its tail is a 12A0 record of 10 to
   65535 bytes; the tail is then the last record.
   */
  lemma NoStall(s: D.State, raw: seq<byte>)
    requires s.buffer == []
    ensures var block := Gds.Repair(raw);
            var tail := Gds.Tail(raw);
            && (Gds.Tiles(raw) || Gds.Repairable(tail) <==>
                D.Remainder(block) == [] && forall k :: 0 <= k < |D.Cuttings(block)| ==> D.Cuttings(block)[k].Record?)
            && (Gds.Tiles(raw) || Gds.Repairable(tail) ==>
                && D.Parse(s, block) == D.State([], s.trace + BlockEvents(block))
                && Gds.Parts(block) == Gds.Parts(raw) + (if Gds.Repairable(tail) then [Gds.WithLength(tail)] else []))
  {
    hide D.Cuttings, D.Remainder, Gds.Parts, D.Parse, BlockEvents, Gds.Repairable;
    var block := Gds.Repair(raw);
    Gds.RepairTilesExactly(raw);
    DecoderProofs.TilesExactly(block);
    if Gds.Repairable(Gds.Tail(raw)) {
      Gds.RepairChain(raw);
      TiledBlock(s, block);
    } else if Gds.Tiles(raw) {
      Gds.RepairKeepsTiled(raw);
      TiledBlock(s, block);
      assert Gds.Parts(raw) + [] == Gds.Parts(raw);
    }
  }

  /** Blocks that tile are decoded one by one, each as if it were alone. */
  lemma {:induction false} NoBleeding(s: D.State, blocks: seq<seq<byte>>)
    requires s.buffer == [] && forall b | b in blocks :: Gds.Tiles(b)
    ensures D.ParseAll(s, blocks) == D.State([], s.trace + FlatMap(BlockEvents, blocks))
  {
    hide D.Parse, BlockEvents, Gds.Tiles;
    if blocks == [] {
      assert s.trace + [] == s.trace;
    } else {
      var front, last := blocks[..|blocks| - 1], blocks[|blocks| - 1];
      assert last in blocks && forall b | b in front :: b in blocks;
      NoBleeding(s, front);
      hide FlatMap;
      TiledBlock(D.ParseAll(s, front), last);
      FlatMapSnoc(BlockEvents, front, last);
      assert blocks == front + [last];
      assert s.trace + FlatMap(BlockEvents, front) + BlockEvents(last)
          == s.trace + (FlatMap(BlockEvents, front) + BlockEvents(last));
    }
  }

  /** What the receiver's decoder reports of one message sent. */
  function MessageEvents(m: F.Message): seq<D.Event> {
    if m.payload == [] then [D.OnParseError(D.IncompleteVariableHeader)]
    else D.OpcodeEvents(m.opcode, m.payload)
  }

  lemma SentRecord(m: F.Message)
    requires m.Fits()
    ensures Gds.Tiles(F.RecordOf(m)[0]) && BlockEvents(F.RecordOf(m)[0]) == MessageEvents(m)
  {
    hide D.OpcodeEvents;
    var r := F.RecordOf(m)[0];
    Gds.RecordTiles(m.flagsHi, m.opcode, m.payload);
    FlatMapOne(D.RecordEvents, r);
    assert r[10..] == m.payload;
  }

  lemma {:induction false} SentRecords(ms: seq<F.Message>)
    requires forall m | m in ms :: m.Fits()
    ensures forall b | b in F.Records(ms) :: Gds.Tiles(b)
    ensures FlatMap(BlockEvents, F.Records(ms)) == FlatMap(MessageEvents, ms)
  {
    hide BlockEvents, MessageEvents, Gds.Tiles, Gds.Record;
    if ms != [] {
      var front, m := ms[..|ms| - 1], ms[|ms| - 1];
      assert m in ms && forall n | n in front :: n in ms;
      SentRecords(front);
      SentRecord(m);
      FlatMapSnoc(BlockEvents, F.Records(front), F.RecordOf(m)[0]);
      assert F.Records(ms) == F.Records(front) + F.RecordOf(m);
    }
  }

  /**
   End to end: what a handler sends for a list of `sendGDS` calls, cut into
   reads anywhere, is delivered by a framed handler as those records, and a
   decoder fed those deliveries reports each message's opcode and payload, in
   order, and is left empty.
   */
  lemma SentIsDecoded(sender: H.Handler, ms: seq<F.Message>, h: H.Handler, chunks: seq<seq<byte>>, d: D.State)
    requires forall m | m in ms :: m.Fits()
    requires h.rx == [] && F.Ready(h.core) && h.core.record == [] && d.buffer == []
    requires FlatMap(F.SentEvent, sender.core.trace) + Concat(chunks)
          == FlatMap(F.SentEvent, F.SendAll(sender, ms).core.trace)
    ensures var g := H.ReceiveAll(h, chunks);
            var delivered := F.Records(ms);
            && F.Blocks(g.core.trace) == F.Blocks(h.core.trace) + delivered
            && D.ParseAll(d, delivered) == D.State([], d.trace + FlatMap(MessageEvents, ms))
  {
    hide FlatMap, F.Blocks, F.SendAll, H.ReceiveAll, D.ParseAll;
    F.SenderReceiver(sender, ms, h, chunks);
    SentRecords(ms);
    NoBleeding(d, F.Records(ms));
  }

  /** The header of a record sent, as the message codec reads it. */
  lemma SentHeaderRead(m: F.Message, before: M.Fields)
    requires m.Fits()
    ensures var r := F.RecordOf(m)[0];
            var f := M.UnmarshalMessage(before, r).fields;
            && f.recordLength as int == 10 + |m.payload| && f.recordType == 0x12A0 && f.fixedReserved == 0
            && f.variableLength == 4 && f.snaFlags == m.flagsHi && f.variableReserved == 0 && f.opcode == m.opcode
  {
    var len := 10 + |m.payload|;
    var header := [Hi(len), Lo(len), 0x12, 0xA0, 0, 0, 4, m.flagsHi, 0, m.opcode];
    var briefs, ending := MessagePayloads.EveryPayload(m.payload);
    MessagePayloads.MessageRead(before, header, briefs, ending);
    Be16Inverse(len);
    hide M.UnmarshalMessage, MessagePayloads.Payload, MessagePayloads.Fits, Hi, Lo;
    assert F.RecordOf(m)[0] == header + m.payload;
  }
}
