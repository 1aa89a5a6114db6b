/**
 The exact limits of the framed receiver: which encodings of a record it
 recovers, and what a 0xFF inside a subnegotiation does to the next record.
 */
module HandlerTolerance {
  import opened Bytes
  import opened Telnet
  import opened HandlerSpec
  import opened HandlerFraming
  import opened HandlerStream
  import Agreement
  import Gds

  /** How many bytes have been delivered. */
  function Size(c: Core): nat {
    |Concat(Blocks(c.trace))|
  }

  /** No way of reading `s` makes more data bytes of it: IAC IAC counts as one, every other byte as one. */
  function Weight(s: seq<byte>): nat {
    if s == [] then 0
    else if |s| >= 2 && s[0] == IAC && s[1] == IAC then 1 + Weight(s[2..])
    else 1 + Weight(s[1..])
  }

  lemma {:induction false} WeightDrop(s: seq<byte>)
    requires s != []
    ensures Weight(s[1..]) <= Weight(s) <= 1 + Weight(s[1..])
  {
    if |s| >= 3 && s[0] == IAC && s[1] == IAC {
      WeightDrop(s[2..]);
      assert s[2..][1..] == s[1..][2..] == s[3..] && s[1..][1..] == s[2..];
    } else if |s| == 2 && s[0] == IAC && s[1] == IAC {
      assert s[1..][1..] == s[2..] == [];
    }
  }

  /** A token takes at least its data bytes off the weight, and a command two more. */
  lemma TokenWeight(rx: seq<byte>, c: Core)
    requires LexAt(rx, c).Lexeme?
    ensures var t := LexAt(rx, c).t;
            |WireOf(t)| <= |rx| &&
            |AppOf(t)| + (if t.Standalone? || t.Option? then 2 else 0) + Weight(rx[|WireOf(t)|..]) <= Weight(rx)
  {
    if |rx| >= 2 && rx[0] == IAC && rx[1] != IAC {
      assert Weight(rx) == 1 + Weight(rx[1..]);
      assert rx[1..][1..] == rx[2..];
      if |rx| >= 3 {
        WeightDrop(rx[2..]);
        assert rx[2..][1..] == rx[3..];
      }
    }
  }

  lemma BlocksSize(c: Core, d: Core)
    ensures Blocks(d.trace) == Blocks(c.trace) ==> Size(d) == Size(c)
    ensures forall block :: Blocks(d.trace) == Blocks(c.trace) + [block] ==> Size(d) == Size(c) + |block|
  {
    hide Blocks;
    forall block | Blocks(d.trace) == Blocks(c.trace) + [block]
      ensures Size(d) == Size(c) + |block|
    {
      FlatMapSnoc(Id, Blocks(c.trace), block);
    }
  }

  lemma FlushSizes(c: Core)
    ensures var d := FlushRecord(c); Size(d) + |d.record| == Size(c) + |c.record|
  {
    hide Blocks, Gds.Repair, Size;
    if c.record != [] {
      FlushBlocks(c);
      Gds.RepairIsLocal(c.record);
      BlocksSize(c, FlushRecord(c));
    }
  }

  lemma StandaloneSizes(c: Core, cmd: byte)
    requires Framed(c)
    ensures var d := HandleStandalone(c, cmd);
            && Size(d) + |d.record| == Size(c) + |c.record|
            && (cmd != EOR ==> Size(d) == Size(c))
  {
    hide Blocks, FlushRecord, HandleSubnegotiation, Size;
    if cmd == SE && c.inSub {
      HandleSubnegotiationMute(c);
      BlocksSize(c, HandleStandalone(c, cmd));
    } else if cmd == EOR {
      assert [] + c.record == c.record && c.(record := c.record, processed := []) == c;
      FlushSizes(c);
    }
  }

  /** A token of a framed handler moves bytes to the record, or the record to the application. */
  lemma ApplySizes(c: Core, t: Token)
    requires Framed(c)
    ensures var d := Apply(c, t);
            && Framed(d) && Size(d) + |d.record| == Size(c) + |c.record| + |AppOf(t)|
            && (t != Standalone(EOR) ==> Size(d) == Size(c))
  {
    hide Blocks, HandleStandalone, HandleOption, Size;
    var c1 := Emit(c, Lexed(t));
    EmitMute(c, Lexed(t));
    EmitMute(c1, OnLog);
    BlocksSize(c, c1);
    BlocksSize(c, Apply(c, t));
    assert c.record + [] == c.record;
    match t
    case Standalone(cmd) =>
      StandaloneKeepsFramed(c1, cmd);
      StandaloneSizes(c1, cmd);
    case Option(cmd, opt) => HandleOptionMute(c1, cmd, opt);
    case _ =>
  }

  /** What a stream delivers is bounded by its weight, less an IAC EOR for delivering at all. */
  lemma {:induction false} DrainSizes(rx: seq<byte>, c: Core)
    requires Framed(c)
    ensures var d := Drain(rx, c).core;
            && Size(d) + |d.record| <= Size(c) + |c.record| + Weight(rx)
            && (Size(d) == Size(c) || Size(d) + |d.record| + 2 <= Size(c) + |c.record| + Weight(rx))
    decreases |rx|
  {
    hide Drain, LexAt, Apply, Weight, Size, Framed;
    DrainStep(rx, c);
    if LexAt(rx, c).Lexeme? {
      var t := LexAt(rx, c).t;
      LexBound(rx, c);
      TokenWeight(rx, c);
      ApplySizes(c, t);
      DrainSizes(rx[|WireOf(t)|..], Apply(c, t));
    }
  }

  predicate EncodesAt(ts: seq<Token>, k: nat)
    requires k < |ts|
  {
    DataToken(ts[k]) && (ts[k].Bare? ==> k + 1 < |ts| && ts[k + 1].Plain?)
  }

  /** A record as data tokens that its wire text determines: a bare 0xFF stands before another byte than 0xFF. */
  predicate Encodes(ts: seq<Token>) {
    forall k :: 0 <= k < |ts| ==> EncodesAt(ts, k)
  }

  lemma EncodesData(ts: seq<Token>)
    requires Encodes(ts)
    ensures forall k :: 0 <= k < |ts| ==> DataToken(ts[k])
  {
    forall k | 0 <= k < |ts|
      ensures DataToken(ts[k])
    {
      assert EncodesAt(ts, k);
    }
  }

  lemma CloseWeight()
    ensures Weight([IAC, EOR]) == 2
  {
    assert [IAC, EOR][1..] == [EOR] && [EOR][1..] == [];
    assert Weight([EOR]) == 1;
  }

  lemma {:induction false} EncodedWeight(ts: seq<Token>)
    requires forall k :: 0 <= k < |ts| ==> DataToken(ts[k])
    ensures Weight(Wire(ts) + [IAC, EOR]) <= |ts| + 2 && |Data(ts)| == |ts|
    decreases |ts|
  {
    if ts == [] {
      CloseWeight();
      assert Wire(ts) + [IAC, EOR] == [IAC, EOR];
    } else {
      var w := Wire(ts[1..]) + [IAC, EOR];
      EncodedWeight(ts[1..]);
      WireCons(ts);
      hide FlatMap;
      var s := WireOf(ts[0]) + w;
      assert Wire(ts) + [IAC, EOR] == s;
      assert s[|WireOf(ts[0])|..] == w;
      WeightDrop(s);
    }
  }

  /** A bare 0xFF that is not tolerable is read as a command. */
  lemma LexIntolerable(ts: seq<Token>, c: Core)
    requires Ready(c) && ts != [] && Encodes(ts) && !TolerableAt(ts, 0, c.record == [])
    ensures var l := LexAt(Wire(ts) + [IAC, EOR], c); l.Lexeme? && (l.t.Standalone? || l.t.Option?)
  {
    assert EncodesAt(ts, 0) && EncodesAt(ts, 1);
    WireCons(ts);
    WireCons(ts[1..]);
    hide FlatMap;
    var b, w := ts[1].b, Wire(ts[1..][1..]) + [IAC, EOR];
    assert Wire(ts) + [IAC, EOR] == [IAC, b] + w;
  }

  lemma EncodesTail(ts: seq<Token>, atStart: bool)
    requires ts != [] && Encodes(ts) && !Tolerable(ts, atStart) && TolerableAt(ts, 0, atStart)
    ensures ts[1..] != [] && Encodes(ts[1..]) && !Tolerable(ts[1..], false)
    ensures ts[0].Bare? ==> DataToken(ts[1])
  {
    assert EncodesAt(ts, 0) && (ts[0].Bare? ==> EncodesAt(ts, 1));
    var k :| 0 <= k < |ts| && !TolerableAt(ts, k, atStart);
    assert !TolerableAt(ts[1..], k - 1, false);
    forall j | 0 <= j < |ts| - 1
      ensures EncodesAt(ts[1..], j)
    {
      assert EncodesAt(ts, j + 1);
    }
  }

  /** From an encoding that is not tolerable, too little is delivered. */
  lemma {:induction false} TooLittle(ts: seq<Token>, c: Core)
    requires Ready(c) && Encodes(ts) && !Tolerable(ts, c.record == [])
    ensures Size(Drain(Wire(ts) + [IAC, EOR], c).core) < Size(c) + |c.record| + |ts|
    decreases |ts|
  {
    var w := Wire(ts) + [IAC, EOR];
    if TolerableAt(ts, 0, c.record == []) {
      EncodesTail(ts, c.record == []);
      hide Drain, Blocks, Tolerable, Encodes, Wire, Apply, Size;
      DrainDatum(ts, [IAC, EOR], c);
      var d := Apply(c, ts[0]);
      BlocksSize(c, d);
      TooLittle(ts[1..], d);
    } else {
      EncodesData(ts);
      EncodedWeight(ts);
      LexIntolerable(ts, c);
      hide Drain, Blocks, Tolerable, Encodes, Wire, Apply, LexAt, Size, Weight;
      var t := LexAt(w, c).t;
      DrainStep(w, c);
      TokenWeight(w, c);
      ApplySizes(c, t);
      DrainSizes(w[|WireOf(t)|..], Apply(c, t));
    }
  }

  /**
   Tolerance, exactly: a framed receiver recovers a record from an encoding of
   it, however cut into reads, exactly when no bare 0xFF stands before 0xEF
   and none that starts the record stands before a command byte.
   */
  lemma RecoveredExactly(h: Handler, ts: seq<Token>, chunks: seq<seq<byte>>)
    requires h.rx == [] && Ready(h.core) && h.core.record == []
    requires ts != [] && Encodes(ts)
    requires Concat(chunks) == Wire(ts) + [IAC, EOR]
    ensures Blocks(ReceiveAll(h, chunks).core.trace) == Blocks(h.core.trace) + [Gds.Repair(Data(ts))]
            <==> Tolerable(ts, true)
  {
    hide Drain, Blocks, FlatMap, Receive, ReceiveAll, Wire, Data, Size, Tolerable, Gds.Repair;
    if Tolerable(ts, true) {
      BareTolerance(h, ts, chunks);
    } else {
      ChunkIndependence(h, chunks);
      ReceiveFramed(h, Concat(chunks));
      assert h.rx + Concat(chunks) == Wire(ts) + [IAC, EOR];
      TooLittle(ts, h.core);
      EncodesData(ts);
      EncodedWeight(ts);
      Gds.RepairIsLocal(Data(ts));
      BlocksSize(h.core, ReceiveAll(h, chunks).core);
    }
  }

  /** What becomes of a bare 0xFF that starts a record before any command byte: the command, and no data. */
  lemma BareAtStartLost(c: Core, cmd: byte, opt: byte, rest: seq<byte>) returns (d: Core)
    requires Ready(c) && c.record == [] && EOR <= cmd < IAC
    ensures Drain([IAC, cmd] + (if IsStandalone(cmd) then [] else [opt]) + rest, c) == Drain(rest, d)
    ensures Framed(d) && d.record == [] && Blocks(d.trace) == Blocks(c.trace)
    ensures d.inSub <==> cmd == SB
  {
    hide Drain, Blocks;
    var t := if IsStandalone(cmd) then Standalone(cmd) else Option(cmd, opt);
    assert WireOf(t) == [IAC, cmd] + (if IsStandalone(cmd) then [] else [opt]);
    d := DrainMute(t, rest, c);
    assert Agreement.ScannerOf(d).inSub <==> cmd == SB;
  }

  /** A bare 0xFF before 0xEF inside a record ends the record there. */
  lemma BareBeforeEorSplits(c: Core, rest: seq<byte>) returns (d: Core)
    requires Ready(c) && c.record != []
    ensures Drain([IAC, EOR] + rest, c) == Drain(rest, d)
    ensures Ready(d) && d.record == [] && Blocks(d.trace) == Blocks(c.trace) + [Gds.Repair(c.record)]
  {
    hide Drain, LexAt, Apply, Blocks, Gds.Repair;
    LexEor(rest, c);
    assert WireOf(Standalone(EOR)) == [IAC, EOR];
    DrainToken(Standalone(EOR), rest, c);
    ApplyEor(c);
    d := Apply(c, Standalone(EOR));
  }

  // ----- a 0xFF inside a subnegotiation

  function StrayByte(b: byte): seq<byte> {
    if b == IAC then [IAC] else []
  }

  /** The bytes of a subnegotiation that are taken for application data. */
  function Strays(data: seq<byte>): seq<byte> {
    FlatMap(StrayByte, data)
  }

  lemma {:induction false} StraysExactly(data: seq<byte>)
    ensures Strays(data) == [] <==> IAC !in data
  {
    if data != [] {
      StraysExactly(data[..|data| - 1]);
      assert data == data[..|data| - 1] + [data[|data| - 1]];
    }
  }

  lemma ApplyInSub(c: Core, b: byte)
    requires Framed(c) && c.inSub
    ensures var d := Apply(c, if b == IAC then Doubled else SubByte(b));
            Framed(d) && d.inSub && d.record == c.record + StrayByte(b) && Blocks(d.trace) == Blocks(c.trace)
  {
    hide Blocks;
    EmitMute(c, Lexed(if b == IAC then Doubled else SubByte(b)));
    assert c.record + [] == c.record;
  }

  lemma {:induction false} DrainSubStrays(data: seq<byte>, rest: seq<byte>, c: Core) returns (d: Core)
    requires Framed(c) && c.inSub
    ensures Drain(Escape(data) + rest, c) == Drain(rest, d)
    ensures Framed(d) && d.inSub && d.record == c.record + Strays(data) && Blocks(d.trace) == Blocks(c.trace)
  {
    hide Drain, LexAt, Blocks, Apply, Framed;
    if data == [] {
      d := c;
      assert Escape(data) + rest == rest && c.record + [] == c.record;
    } else {
      var front, b := data[..|data| - 1], data[|data| - 1];
      var t := if b == IAC then Doubled else SubByte(b);
      assert Escape(data) == Escape(front) + Double(b) && Strays(data) == Strays(front) + StrayByte(b);
      hide FlatMap;
      var e := DrainSubStrays(front, Double(b) + rest, c);
      assert Escape(data) + rest == Escape(front) + (Double(b) + rest);
      Agreement.LexSubByte(b, rest, e);
      DrainToken(t, rest, e);
      ApplyInSub(e, b);
      d := Apply(e, t);
      assert c.record + Strays(front) + StrayByte(b) == c.record + (Strays(front) + StrayByte(b));
    }
  }

  lemma ApplySe(c: Core)
    requires Framed(c) && c.inSub
    ensures var d := Apply(c, Standalone(SE));
            Ready(d) && d.record == c.record && Blocks(d.trace) == Blocks(c.trace)
  {
    hide Blocks, HandleSubnegotiation;
    EmitMute(c, Lexed(Standalone(SE)));
    HandleSubnegotiationMute(Emit(c, Lexed(Standalone(SE))));
  }

  /** A subnegotiation leaves its 0xFF bytes in the record buffer. */
  lemma DrainSubSpills(opt: byte, data: seq<byte>, rest: seq<byte>, c: Core) returns (d: Core)
    requires Ready(c) && c.record == []
    ensures Drain(Print(Subnegotiated(opt, data)) + rest, c) == Drain(rest, d)
    ensures Ready(d) && d.record == Strays(data) && Blocks(d.trace) == Blocks(c.trace)
  {
    hide Drain, LexAt, Blocks, FlatMap, Strays;
    var body := Escape(data) + ([IAC, SE] + rest);
    assert Print(Subnegotiated(opt, data)) + rest == [IAC, SB, opt] + body;
    Agreement.LexCommands(body, c);
    assert WireOf(Option(SB, opt)) == [IAC, SB, opt] && WireOf(Standalone(SE)) == [IAC, SE];
    var c1 := DrainMute(Option(SB, opt), body, c);
    assert Agreement.ScannerOf(c1).inSub;
    var c2 := DrainSubStrays(data, [IAC, SE] + rest, c1);
    assert [] + Strays(data) == Strays(data);
    Agreement.LexCommands(rest, c2);
    DrainToken(Standalone(SE), rest, c2);
    ApplySe(c2);
    d := Apply(c2, Standalone(SE));
  }

  /**
   Why a subnegotiation between records must carry no 0xFF: each one it carries
   opens the next record. A record behind the subnegotiation is delivered with
   those bytes in front, so as it was sent exactly when there are none.
   */
  lemma SubnegotiationSpills(h: Handler, opt: byte, data: seq<byte>, ts: seq<Token>, chunks: seq<seq<byte>>)
    requires h.rx == [] && Ready(h.core) && h.core.record == []
    requires ts != [] && Tolerable(ts, true)
    requires Concat(chunks) == Print(Subnegotiated(opt, data)) + (Wire(ts) + [IAC, EOR])
    ensures var g := ReceiveAll(h, chunks);
            && Blocks(g.core.trace) == Blocks(h.core.trace) + [Gds.Repair(Strays(data) + Data(ts))]
            && (Blocks(g.core.trace) == Blocks(h.core.trace) + [Gds.Repair(Data(ts))] <==> IAC !in data)
            && g.rx == [] && Ready(g.core) && g.core.record == []
  {
    hide Drain, Blocks, FlatMap, Receive, ReceiveAll, Wire, Data, Strays, Gds.Repair, Print;
    ChunkIndependence(h, chunks);
    ReceiveFramed(h, Concat(chunks));
    assert h.rx + Concat(chunks) == Concat(chunks);
    var c := DrainSubSpills(opt, data, Wire(ts) + [IAC, EOR], h.core);
    StraysExactly(data);
    TolerableInside(ts);
    var e := DrainData(ts, [IAC, EOR], c);
    EncodedWeight(ts);
    LexEor([], e);
    var d := BareBeforeEorSplits(e, []);
    assert [IAC, EOR] + [] == [IAC, EOR];
    DrainNothing(d);
    Gds.RepairIsLocal(Strays(data) + Data(ts));
    Gds.RepairIsLocal(Data(ts));
    if IAC !in data {
      assert Strays(data) + Data(ts) == Data(ts);
    } else {
      assert |Strays(data) + Data(ts)| != |Data(ts)|;
      var blocks := Blocks(h.core.trace);
      assert (blocks + [Gds.Repair(Strays(data) + Data(ts))])[|blocks|] == Gds.Repair(Strays(data) + Data(ts));
      assert (blocks + [Gds.Repair(Data(ts))])[|blocks|] == Gds.Repair(Data(ts));
    }
  }

  lemma TolerableInside(ts: seq<Token>)
    requires Tolerable(ts, true)
    ensures Tolerable(ts, false) && forall k :: 0 <= k < |ts| ==> DataToken(ts[k])
  {
    forall k | 0 <= k < |ts|
      ensures TolerableAt(ts, k, false) && DataToken(ts[k])
    {
      assert TolerableAt(ts, k, true);
    }
  }
}
