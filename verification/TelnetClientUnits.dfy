/**
 How the Telnet client divides any stream, malformed commands included, told
 from the bytes.
 */
module TelnetClientUnits {
  import opened Bytes
  import opened Telnet
  import opened TelnetClient
  import opened TelnetClientProofs

  /** A piece of the text of a subnegotiation; 0xFF before another byte than 0xFF and 0xF0 is dropped with it. */
  datatype Part = Kept(b: byte) | DoubledPart | DroppedPart(b: byte)

  function PartBytes(p: Part): seq<byte> {
    match p
    case Kept(b) => [b]
    case DoubledPart => [0xFF, 0xFF]
    case DroppedPart(b) => [0xFF, b]
  }

  function PartData(p: Part): seq<byte> {
    match p
    case Kept(b) => [b]
    case DoubledPart => [0xFF]
    case DroppedPart(_) => []
  }

  predicate IsPart(p: Part) {
    match p
    case Kept(b) => b != 0xFF
    case DoubledPart => true
    case DroppedPart(b) => b != 0xFF && b != 0xF0
  }

  datatype Unit =
    | Byte(b: byte)
    | DoubledByte
    | Plain(c: byte)                                  // a command without an option
    | Negotiation(cmd: byte, opt: byte)
    | Subnegotiation(opt: byte, parts: seq<Part>)

  predicate IsUnit(u: Unit) {
    match u
    case Byte(b) => b != 0xFF
    case DoubledByte => true
    case Plain(c) => 0xEF <= c <= 0xF9
    case Negotiation(cmd, _) => !(0xEF <= cmd <= 0xFA) && cmd != 0xFF
    case Subnegotiation(_, parts) => forall p | p in parts :: IsPart(p)
  }

  function UnitBytes(u: Unit): seq<byte> {
    match u
    case Byte(b) => [b]
    case DoubledByte => [0xFF, 0xFF]
    case Plain(c) => [0xFF, c]
    case Negotiation(cmd, opt) => [0xFF, cmd, opt]
    case Subnegotiation(opt, parts) => [0xFF, 0xFA, opt] + FlatMap(PartBytes, parts) + [0xFF, 0xF0]
  }

  /** A 0xF0 outside a subnegotiation says nothing; a negotiation is any other command with its option. */
  function UnitSays(u: Unit): seq<Elem> {
    match u
    case Byte(b) => [AppByte(b)]
    case DoubledByte => [AppByte(0xFF)]
    case Plain(c) => if c == 0xF0 then [] else [Command(c)]
    case Negotiation(cmd, opt) => [Negotiated(cmd, opt)]
    case Subnegotiation(opt, parts) => [Subnegotiated(opt, FlatMap(PartData, parts))]
  }

  /** Text that is not yet a unit. */
  ghost predicate Unfinished(s: seq<byte>) {
    || s == [] || s == [0xFF]
    || (|s| == 2 && s[0] == 0xFF && s[1] != 0xFF && !(0xEF <= s[1] <= 0xF9))
    || exists opt, parts, more :: IsOpenSub(s, opt, parts, more)
  }

  predicate IsOpenSub(s: seq<byte>, opt: byte, parts: seq<Part>, more: seq<byte>) {
    s == [0xFF, 0xFA, opt] + FlatMap(PartBytes, parts) + more && (forall p | p in parts :: IsPart(p))
    && (more == [] || more == [0xFF])
  }

  lemma RunPart(p: Parser, part: Part)
    requires p.state == SubnegotiationData && IsPart(part)
    ensures Run(p, PartBytes(part)) == p.(sb := p.sb + PartData(part))
  {
    match part
    case Kept(b) => RunOne(p, b);
    case DoubledPart => RunTwo(p, 0xFF, 0xFF);
    case DroppedPart(b) =>
      RunTwo(p, 0xFF, b);
      assert p.sb + [] == p.sb;
  }

  lemma {:induction false} RunParts(p: Parser, parts: seq<Part>)
    requires p.state == SubnegotiationData && forall part | part in parts :: IsPart(part)
    ensures Run(p, FlatMap(PartBytes, parts)) == p.(sb := p.sb + FlatMap(PartData, parts))
  {
    hide Step, IsPart;
    if parts == [] {
      assert p.sb + FlatMap(PartData, parts) == p.sb;
    } else {
      var front, part := parts[..|parts| - 1], parts[|parts| - 1];
      assert part in parts && forall x | x in front :: x in parts;
      RunParts(p, front);
      var q := p.(sb := p.sb + FlatMap(PartData, front));
      RunAppend(p, FlatMap(PartBytes, front), PartBytes(part));
      RunPart(q, part);
      assert p.sb + FlatMap(PartData, front) + PartData(part) == p.sb + (FlatMap(PartData, front) + PartData(part));
    }
  }

  lemma RunSub(p: Parser, opt: byte, parts: seq<Part>)
    requires p.state == Data && forall part | part in parts :: IsPart(part)
    ensures var q, r := Run(p, [0xFF, 0xFA, opt] + FlatMap(PartBytes, parts)), Run(p, UnitBytes(Subnegotiation(opt, parts)));
            && q.state == SubnegotiationData && q.app == [] && Said(q) == Said(p)
            && r.state == Data && Said(r) == Said(p) + UnitSays(Subnegotiation(opt, parts))
  {
    var r := RunSubnegotiationHead(p, opt);
    hide Step, Said;
    RunAppend(p, [0xFF, 0xFA, opt], FlatMap(PartBytes, parts));
    RunParts(r, parts);
    var data := FlatMap(PartData, parts);
    assert r.sb + data == data;
    var q := r.(sb := data);
    RunAppend(p, [0xFF, 0xFA, opt] + FlatMap(PartBytes, parts), [0xFF, 0xF0]);
    assert Said(q) == Said(r) by { SaidOfTrace(q, r); }
    RunSubnegotiationTail(q);
  }

  lemma SaidOfTrace(p: Parser, q: Parser)
    requires p.trace == q.trace && p.app == q.app
    ensures Said(p) == Said(q)
  {
  }

  lemma RunUnit(p: Parser, u: Unit)
    requires p.state == Data && IsUnit(u)
    ensures Run(p, UnitBytes(u)).state == Data && Said(Run(p, UnitBytes(u))) == Said(p) + UnitSays(u)
  {
    match u
    case Byte(b) => RunPrintedByte(p, b);
    case DoubledByte => RunPrintedByte(p, 0xFF);
    case Negotiation(cmd, opt) => RunPrintedNegotiation(p, cmd, opt);
    case Plain(c) =>
      RunTwo(p, IAC, c);
      StepSaysIt(p, IAC);
      StepSaysIt(Step(p, IAC), c);
    case Subnegotiation(opt, parts) => RunSub(p, opt, parts);
  }

  lemma {:induction false} RunUnits(p: Parser, us: seq<Unit>)
    requires p.state == Data && forall u | u in us :: IsUnit(u)
    ensures var q := Run(p, FlatMap(UnitBytes, us)); q.state == Data && Said(q) == Said(p) + FlatMap(UnitSays, us)
  {
    hide Step, Said, IsUnit, UnitBytes, UnitSays;
    if us == [] {
      assert Said(p) + [] == Said(p);
    } else {
      var front, u := us[..|us| - 1], us[|us| - 1];
      assert u in us && forall x | x in front :: x in us;
      RunUnits(p, front);
      RunAppend(p, FlatMap(UnitBytes, front), UnitBytes(u));
      RunUnit(Run(p, FlatMap(UnitBytes, front)), u);
      assert Said(p) + FlatMap(UnitSays, front) + UnitSays(u) == Said(p) + (FlatMap(UnitSays, front) + UnitSays(u));
    }
  }

  /** An unfinished end says nothing. */
  lemma RunUnfinished(p: Parser, s: seq<byte>)
    requires p.state == Data && Unfinished(s)
    ensures Said(Run(p, s)) == Said(p) && (s != [] ==> Run(p, s).state != Data && Run(p, s).app == [])
  {
    if s == [] {
    } else if |s| <= 2 {
      RunOne(p, 0xFF);
      StepSaysIt(p, 0xFF);
      if |s| == 2 {
        assert s == [0xFF, s[1]] || exists opt, parts, more :: IsOpenSub(s, opt, parts, more);
        RunTwo(p, 0xFF, s[1]);
        StepSaysIt(Step(p, 0xFF), s[1]);
      } else {
        assert s == [0xFF];
      }
    } else {
      var opt, parts, more :| IsOpenSub(s, opt, parts, more);
      RunOpenSub(p, opt, parts, more);
    }
  }

  lemma RunOpenSub(p: Parser, opt: byte, parts: seq<Part>, more: seq<byte>)
    requires p.state == Data && (forall part | part in parts :: IsPart(part)) && (more == [] || more == [0xFF])
    ensures var q := Run(p, [0xFF, 0xFA, opt] + FlatMap(PartBytes, parts) + more);
            Said(q) == Said(p) && q.state != Data && q.app == []
  {
    var open := [0xFF, 0xFA, opt] + FlatMap(PartBytes, parts);
    RunSub(p, opt, parts);
    RunAppend(p, open, more);
    if more == [0xFF] {
      RunOne(Run(p, open), 0xFF);
      SaidOfTrace(Run(p, open), Run(p, open + more));
    } else {
      assert open + more == open;
    }
  }

  /**
   Any stream, in any reads: the client reports exactly what the units say into
   which the bytes divide, and of an unfinished one nothing.
   */
  lemma StreamDivided(p: Parser, us: seq<Unit>, tail: seq<byte>, chunks: seq<seq<byte>>)
    requires p.state == Data && p.app == [] && (forall u | u in us :: IsUnit(u)) && Unfinished(tail)
    requires Concat(chunks) == FlatMap(UnitBytes, us) + tail
    ensures var q := FeedAll(p, chunks);
            q.app == [] && Reported(q) == Reported(p) + FlatMap(UnitSays, us) && (q.state == Data <==> tail == [])
  {
    hide Step, Said, FlatMap, FeedAll, Unfinished;
    ChunkIndependence(p, chunks);
    RunUnits(p, us);
    RunAppend(p, FlatMap(UnitBytes, us), tail);
    RunUnfinished(Run(p, FlatMap(UnitBytes, us)), tail);
    assert tail == [] ==> Run(p, FlatMap(UnitBytes, us) + tail) == Run(p, FlatMap(UnitBytes, us));
    SaidWhenFlushed(p);
    SaidWhenFlushed(FeedAll(p, chunks));
    FlushedAfter(p, chunks);
  }

  lemma FlushedAfter(p: Parser, chunks: seq<seq<byte>>)
    requires p.app == []
    ensures FeedAll(p, chunks).app == []
  {
    if chunks != [] {
      FeedAllFlushes(p, chunks);
    }
  }

  // ----- every stream divides so

  lemma PartsCons(p: Part, parts: seq<Part>, more: seq<byte>)
    ensures FlatMap(PartBytes, [p] + parts) + more == PartBytes(p) + (FlatMap(PartBytes, parts) + more)
  {
    FlatMapAppend(PartBytes, [p], parts);
    FlatMapOne(PartBytes, p);
  }

  /** The parts of a subnegotiation's text, up to its end or the end of the stream. */
  lemma {:induction false} EveryText(s: seq<byte>) returns (parts: seq<Part>, more: seq<byte>)
    ensures s == FlatMap(PartBytes, parts) + more && (forall p | p in parts :: IsPart(p))
    ensures more == [] || more == [0xFF] || [0xFF, 0xF0] <= more
    decreases |s|
  {
    if s == [] || s == [0xFF] || [0xFF, 0xF0] <= s {
      parts, more := [], s;
      assert FlatMap(PartBytes, []) + s == s;
    } else {
      var p := if s[0] != 0xFF then Kept(s[0]) else if s[1] == 0xFF then DoubledPart else DroppedPart(s[1]);
      var n := |PartBytes(p)|;
      assert s[..n] == PartBytes(p) && (|s| >= 2 ==> s[..2] == [s[0], s[1]]);
      parts, more := EveryText(s[n..]);
      hide FlatMap, PartBytes;
      PartsCons(p, parts, more);
      assert s == s[..n] + s[n..];
      parts := [p] + parts;
    }
  }

  /** The first unit of a stream, or the whole stream if that is unfinished. */
  lemma FirstUnit(s: seq<byte>) returns (finished: bool, u: Unit)
    ensures if finished then IsUnit(u) && UnitBytes(u) <= s && UnitBytes(u) != [] else Unfinished(s)
  {
    finished, u := true, DoubledByte;
    if s == [] || s == [0xFF] {
      finished := false;
    } else if s[0] != 0xFF {
      u := Byte(s[0]);
    } else if s[1] == 0xFF {
      u := DoubledByte;
    } else if 0xEF <= s[1] <= 0xF9 {
      u := Plain(s[1]);
    } else if |s| == 2 {
      finished := false;
    } else if s[1] != 0xFA {
      u := Negotiation(s[1], s[2]);
    } else {
      var parts, more := EveryText(s[3..]);
      hide FlatMap;
      assert s == [0xFF, 0xFA, s[2]] + s[3..];
      if [0xFF, 0xF0] <= more {
        u := Subnegotiation(s[2], parts);
        assert more == [0xFF, 0xF0] + more[2..];
        assert s == UnitBytes(u) + more[2..];
      } else {
        finished := false;
        assert IsOpenSub(s, s[2], parts, more);
      }
    }
  }

  lemma {:induction false} EveryStream(s: seq<byte>) returns (us: seq<Unit>, tail: seq<byte>)
    ensures s == FlatMap(UnitBytes, us) + tail && (forall u | u in us :: IsUnit(u)) && Unfinished(tail)
    decreases |s|
  {
    hide IsUnit, UnitBytes, Unfinished;
    var finished, u := FirstUnit(s);
    if finished {
      us, tail := EveryStream(s[|UnitBytes(u)|..]);
      FlatMapAppend(UnitBytes, [u], us);
      FlatMapOne(UnitBytes, u);
      hide FlatMap;
      assert s == UnitBytes(u) + s[|UnitBytes(u)|..];
      assert UnitBytes(u) + FlatMap(UnitBytes, us) + tail == UnitBytes(u) + (FlatMap(UnitBytes, us) + tail);
      us := [u] + us;
    } else {
      us, tail := [], s;
      assert FlatMap(UnitBytes, []) + s == s;
    }
  }
}
