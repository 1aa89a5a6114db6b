/**
 The server seed of a NEW-ENVIRON request (section 5 of RFC 4777), from the
 bytes a host sends to the field the handler keeps it in.
 */
module HandlerSeed {
  import opened Bytes
  import opened Telnet
  import opened HandlerSpec
  import opened Agreement
  import HandlerFraming

  // ----- a subnegotiation may be cut anywhere

  /** The rest of the text of a subnegotiation, up to its IAC SE or cut short. */
  predicate SubTail(s: seq<byte>) {
    s == [] || s == [IAC] || s == [IAC, SE]
    || (s[0] != IAC && SubTail(s[1..]))
    || (|s| >= 2 && s[0] == IAC && s[1] == IAC && SubTail(s[2..]))
  }

  /** The text of one subnegotiation and nothing else. */
  predicate SubText(s: seq<byte>) {
    |s| >= 3 && s[0] == IAC && s[1] == SB && SubTail(s[3..])
  }

  /** `s` is what `c` has not consumed yet of one subnegotiation. */
  predicate Awaits(c: Core, s: seq<byte>) {
    if c.inSub then SubTail(s) else s == [] || (!c.MidRecord() && c.processed == [] && SubText(s))
  }

  lemma SubTailStep(rx: seq<byte>, more: seq<byte>, c: Core, d: Core)
    requires c.inSub && d.inSub && SubTail(rx + more)
    ensures LexAt(rx, c) == LexAt(rx, d)
    ensures LexAt(rx, c).Lexeme? ==>
      var t := LexAt(rx, c).t;
      var rest := rx[|WireOf(t)|..];
      || (t == Standalone(SE) && rest == [] && more == [] && SubTail([]))
      || ((t.SubByte? || t.Doubled?) && SubTail(rest + more))
  {
    var s := rx + more;
    if |rx| >= 1 {
      assert s[0] == rx[0] && s[1..] == rx[1..] + more;
    }
    if |rx| >= 2 {
      assert s[1] == rx[1] && s[2..] == rx[2..] + more;
    }
  }

  /** Two handlers inside the same subnegotiation go on alike, whatever else they hold. */
  lemma {:induction false} DrainSubTail(rx: seq<byte>, more: seq<byte>, c: Core, d: Core)
    requires Same(c, d) && c.inSub && SubTail(rx + more)
    ensures var g, h := Drain(rx, c), Drain(rx, d);
            && g.rx == h.rx && Same(g.core, h.core)
            && Awaits(g.core, g.rx + more) && Awaits(h.core, h.rx + more)
    decreases |rx|
  {
    hide Drain, LexAt, Apply, Said, SubTail, SeedAfter;
    DrainStep(rx, c);
    DrainStep(rx, d);
    SubTailStep(rx, more, c, d);
    if LexAt(rx, c).Lexeme? {
      var t := LexAt(rx, c).t;
      HandlerFraming.LexBound(rx, c);
      var rest := rx[|WireOf(t)|..];
      ApplyScans(c, t);
      ApplyScans(d, t);
      assert Scan(ScannerOf(c), t).inSub <==> t != Standalone(SE);
      if t == Standalone(SE) {
        HandlerFraming.DrainNothing(Apply(c, t));
        HandlerFraming.DrainNothing(Apply(d, t));
      } else {
        DrainSubTail(rest, more, Apply(c, t), Apply(d, t));
      }
    }
  }

  lemma LexSubText(rx: seq<byte>, more: seq<byte>, c: Core)
    requires !c.inSub && rx + more != [] && Awaits(c, rx + more)
    ensures LexAt(rx, c) == if |rx| < 3 then Incomplete else Lexeme(Option(SB, rx[2]))
    ensures |rx| >= 3 ==> SubTail(rx[3..] + more)
  {
    var s := rx + more;
    assert forall k :: 0 <= k < |rx| ==> s[k] == rx[k];
    if |rx| >= 3 {
      assert s[3..] == rx[3..] + more;
    }
  }

  /** The same from any point of a subnegotiation on, its first bytes included. */
  lemma DrainAwaited(rx: seq<byte>, more: seq<byte>, c: Core, d: Core)
    requires Same(c, d) && Awaits(c, rx + more) && Awaits(d, rx + more)
    ensures var g, h := Drain(rx, c), Drain(rx, d);
            && g.rx == h.rx && Same(g.core, h.core)
            && Awaits(g.core, g.rx + more) && Awaits(h.core, h.rx + more)
  {
    if c.inSub {
      DrainSubTail(rx, more, c, d);
    } else if rx + more == [] {
    } else {
      LexSubText(rx, more, c);
      LexSubText(rx, more, d);
      hide Drain, LexAt, Apply, Said, SubTail, SubText;
      DrainStep(rx, c);
      DrainStep(rx, d);
      if |rx| >= 3 {
        var t := Option(SB, rx[2]);
        ApplyScans(c, t);
        ApplyScans(d, t);
        DrainSubTail(rx[3..], more, Apply(c, t), Apply(d, t));
      }
    }
  }

  lemma EndReadAwaits(c: Core, s: seq<byte>)
    requires Awaits(c, s)
    ensures Awaits(EndRead(c), s) && Awaits(c.(processed := []), s)
  {
    hide SubTail, SubText, CheckComplete, Said;
    EndReadSame(c);
  }

  /** However a subnegotiation is cut, the handler makes the same of it. */
  lemma {:induction false} SubnegotiationCuts(h: Handler, chunks: seq<seq<byte>>, more: seq<byte>)
    requires h.rx == [] && Awaits(h.core, Concat(chunks) + more)
    ensures var one, g := Drain(Concat(chunks), h.core), ReceiveAll(h, chunks);
            && g.rx == one.rx && Same(one.core, g.core)
            && Awaits(one.core, one.rx + more) && Awaits(g.core, g.rx + more)
  {
    hide Drain, Said, Awaits, Receive, EndRead;
    if chunks == [] {
      HandlerFraming.DrainNothing(h.core);
      assert Concat(chunks) + more == [] + more;
    } else {
      var front, last := chunks[..|chunks| - 1], chunks[|chunks| - 1];
      assert Concat(chunks) == Concat(front) + last;
      hide FlatMap;
      assert Concat(front) + last + more == Concat(front) + (last + more);
      SubnegotiationCuts(h, front, last + more);
      HandlerFraming.DrainAppend(Concat(front), last, h.core);
      var one, g := Drain(Concat(front), h.core), ReceiveAll(h, front);
      assert one.rx + (last + more) == one.rx + last + more;
      var d := g.core.(processed := []);
      EndReadAwaits(g.core, g.rx + last + more);
      ClearedSame(g.core);
      DrainAwaited(g.rx + last, more, one.core, d);
      ReceiveAwaits(g, last, more);
    }
  }

  lemma ReceiveAwaits(g: Handler, data: seq<byte>, more: seq<byte>)
    requires var d := Drain(g.rx + data, g.core.(processed := [])); Awaits(d.core, d.rx + more)
    ensures var d, h := Drain(g.rx + data, g.core.(processed := [])), Receive(g, data);
            h.rx == d.rx && Same(d.core, h.core) && Awaits(h.core, h.rx + more)
  {
    hide Drain, Said, Awaits, EndRead;
    var d := Drain(g.rx + data, g.core.(processed := []));
    ReceiveSame(g, data);
    EndReadAwaits(d.core, d.rx + more);
  }

  lemma {:induction false} EscapedTail(data: seq<byte>)
    ensures SubTail(Escape(data) + [IAC, SE])
  {
    if data == [] {
      assert Escape(data) + [IAC, SE] == [IAC, SE];
    } else {
      FlatMapCons(Double, data);
      EscapedTail(data[1..]);
      var s, rest := Escape(data) + [IAC, SE], Escape(data[1..]) + [IAC, SE];
      assert s == Double(data[0]) + rest;
      assert s[|Double(data[0])|..] == rest;
    }
  }

  // ----- the request

  /** The escaping of section 2 of RFC 1572: ESC before VAR, VALUE, ESC and USERVAR. */
  function EscapeEnv(b: byte): seq<byte> {
    if b <= 0x03 then [0x02, b] else [b]
  }

  /** VAR and USERVAR without a name, which ask for all there are. */
  predicate AsksForAll(wants: seq<byte>) {
    forall b | b in wants :: b == 0x00 || b == 0x03
  }

  /** SEND, a USERVAR that names the seed, and what else the host wants. */
  function Request(seed: seq<byte>, wants: seq<byte>): seq<byte> {
    [0x01, 0x03] + IBMRSEED + FlatMap(EscapeEnv, seed) + wants
  }

  /** The bytes a host sends. */
  function RequestText(seed: seq<byte>, wants: seq<byte>): seq<byte> {
    Print(Subnegotiated(NEW_ENVIRON, Request(seed, wants)))
  }

  /** What the handler's subnegotiation buffer keeps of the escaped seed. */
  function Arrived(seed: seq<byte>): seq<byte> {
    FlatMap(Kept, FlatMap(EscapeEnv, seed))
  }

  /** A byte at which the scan ends a name. */
  predicate Separator(b: byte) {
    b == 0x00 || b == 0x01 || b == 0x03
  }

  lemma ArrivedSnoc(front: seq<byte>, b: byte)
    ensures Arrived([]) == []
    ensures Arrived(front + [b]) == Arrived(front) + if b == IAC then [] else EscapeEnv(b)
  {
    FlatMapSnoc(EscapeEnv, front, b);
    FlatMapAppend(Kept, FlatMap(EscapeEnv, front), EscapeEnv(b));
    StraySize(EscapeEnv(b));
    FlatMapOne(Kept, b);
  }

  lemma {:induction false} WhatArrives(seed: seq<byte>)
    ensures IAC !in Arrived(seed)
    ensures (forall b | b in seed :: !Separator(b) && b != IAC) ==>
              && (forall b | b in Arrived(seed) :: !Separator(b))
              && (if 0x02 in seed then |Arrived(seed)| > |seed| else Arrived(seed) == seed)
  {
    hide Arrived;
    if seed == [] {
      ArrivedSnoc([], 0);
    } else {
      var front, b := seed[..|seed| - 1], seed[|seed| - 1];
      WhatArrives(front);
      ArrivedSnoc(front, b);
      assert seed == front + [b] && b in seed && (forall x | x in front :: x in seed);
      if forall x | x in seed :: !Separator(x) && x != IAC {
        assert forall x | x in seed :: x in front || x == b;
        assert EscapeEnv(b) == if b == 0x02 then [0x02, 0x02] else [b];
      }
    }
  }

  lemma {:induction false} NameEnds(d: seq<byte>)
    ensures forall k :: 0 <= k < NameLength(d) ==> !Separator(d[k])
    ensures NameLength(d) < |d| ==> Separator(d[NameLength(d)])
  {
    if d != [] && !Separator(d[0]) {
      NameEnds(d[1..]);
      assert forall k :: 0 < k < |d| ==> d[k] == d[1..][k - 1];
    }
  }

  /** A scan finds a seed in the names of what it scans, and no name holds a separator. */
  lemma {:induction false} ScanFinds(d: seq<byte>, seed: seq<byte>)
    ensures forall b | b in ScanSeed(d, seed) :: b in seed || (b in d && !Separator(b))
    decreases |d|
  {
    if d == [] {
    } else if d[0] == 0x00 || d[0] == 0x03 {
      var n := NameLength(d[1..]);
      var name := d[1..1 + n];
      NameEnds(d[1..]);
      assert forall k :: 0 <= k < n ==> name[k] == d[1..][k] == d[1 + k];
      ScanFinds(d[1 + n..], if IBMRSEED < name then name[|IBMRSEED|..] else seed);
    } else {
      ScanFinds(d[1..], seed);
    }
  }

  lemma {:induction false} ScanUnnamed(wants: seq<byte>, seed: seq<byte>)
    requires AsksForAll(wants)
    ensures ScanSeed(wants, seed) == seed
  {
    if wants != [] {
      assert wants[0] in wants && (|wants| > 1 ==> wants[1] in wants);
      assert NameLength(wants[1..]) == 0;
      assert wants[1..1] == [] && wants[1 + 0..] == wants[1..];
      assert forall b | b in wants[1..] :: b in wants;
      ScanUnnamed(wants[1..], seed);
    }
  }

  lemma NameOfSeed(name: seq<byte>, wants: seq<byte>)
    requires (forall b | b in name :: !Separator(b)) && AsksForAll(wants)
    ensures NameLength(IBMRSEED + name + wants) == |IBMRSEED + name|
  {
    var body, n := IBMRSEED + name + wants, |IBMRSEED + name|;
    forall k | 0 <= k < n
      ensures !Separator(body[k])
    {
      assert k >= 8 ==> body[k] == name[k - 8] && name[k - 8] in name;
    }
    assert wants != [] ==> body[n] == wants[0] && wants[0] in wants;
    NameEnds(body);
  }

  lemma ScanOneName(name: seq<byte>, wants: seq<byte>)
    requires (forall b | b in name :: !Separator(b)) && AsksForAll(wants)
    ensures ScanSeed([0x03] + IBMRSEED + name + wants, []) == name
  {
    hide ScanSeed, NameLength, AsksForAll;
    var d, tagged := [0x03] + IBMRSEED + name + wants, IBMRSEED + name;
    NameOfSeed(name, wants);
    assert d[1..] == tagged + wants;
    assert d[1..1 + |tagged|] == tagged && d[1 + |tagged|..] == wants;
    ScanNamed(d, |tagged|);
    assert tagged[8..] == name && (name != [] <==> IBMRSEED < tagged);
    ScanUnnamed(wants, name);
  }

  lemma ScanNamed(d: seq<byte>, n: nat)
    requires d != [] && d[0] == 0x03 && NameLength(d[1..]) == n
    ensures ScanSeed(d, []) ==
      ScanSeed(d[1 + n..], if IBMRSEED < d[1..1 + n] then d[1..1 + n][|IBMRSEED|..] else [])
  {
  }

  /** What the scan makes of a seed that has arrived, against the seed as sent. */
  lemma ScanArrived(seed: seq<byte>, wants: seq<byte>)
    requires AsksForAll(wants)
    ensures ScanSeed([0x03] + IBMRSEED + Arrived(seed) + wants, []) == seed
            <==> forall b | b in seed :: b > 0x03 && b != IAC
  {
    hide ScanSeed, FlatMap;
    var d := [0x03] + IBMRSEED + Arrived(seed) + wants;
    WhatArrives(seed);
    if b :| b in seed && (Separator(b) || b == IAC) {
      ScanFinds(d, []);
      assert IAC !in d;
      assert b !in ScanSeed(d, []);
    } else {
      ScanOneName(Arrived(seed), wants);
    }
  }

  /** The subnegotiation buffer when the request is complete. */
  lemma RequestArrives(seed: seq<byte>, wants: seq<byte>)
    requires AsksForAll(wants)
    ensures FlatMap(Kept, Request(seed, wants)) == [0x01] + ([0x03] + IBMRSEED + Arrived(seed) + wants)
  {
    hide FlatMap;
    var head := [0x01, 0x03] + IBMRSEED;
    FlatMapAppend(Kept, head + FlatMap(EscapeEnv, seed), wants);
    FlatMapAppend(Kept, head, FlatMap(EscapeEnv, seed));
    StraySize(head);
    StraySize(wants);
    assert head + Arrived(seed) + wants == [0x01] + ([0x03] + IBMRSEED + Arrived(seed) + wants);
  }

  /**
   The server seed a host sends in a request, escaped as the standards say and
   cut into reads anywhere, is the seed the handler then holds exactly when it
   has no byte 0x00 to 0x03 and no 0xFF: the scan ends a name at a separator,
   escaped or not, keeps the escape of an 0x02, and never sees a doubled 0xFF.
   */
  lemma SeedRecovered(h: Handler, seed: seq<byte>, wants: seq<byte>, chunks: seq<seq<byte>>)
    requires h.rx == [] && !h.core.inSub && !h.core.MidRecord() && h.core.processed == []
    requires AsksForAll(wants) && Concat(chunks) == RequestText(seed, wants)
    ensures ReceiveAll(h, chunks).core.serverSeed == seed <==> forall b | b in seed :: b > 0x03 && b != IAC
  {
    hide Drain, Said, FlatMap, ReceiveAll, ScanSeed, SubTail, Request;
    var text := RequestText(seed, wants);
    var data := Request(seed, wants);
    EscapedTail(data);
    assert text == [IAC, SB, NEW_ENVIRON] + (Escape(data) + [IAC, SE]);
    assert text[3..] == Escape(data) + [IAC, SE];
    assert text + [] == text;
    SubnegotiationCuts(h, chunks, []);
    var d := DrainSubnegotiation(NEW_ENVIRON, data, [], h.core);
    HandlerFraming.DrainNothing(d);
    RequestArrives(seed, wants);
    var sub := FlatMap(Kept, data);
    assert sub[1..] == [0x03] + IBMRSEED + Arrived(seed) + wants;
    ScanArrived(seed, wants);
  }

  // ----- requests for several variables

  /** VAR, USERVAR or another byte, and the text up to the next separator. */
  datatype Want = Want(kind: byte, name: seq<byte>)

  function WantBytes(w: Want): seq<byte> {
    [w.kind] + w.name
  }

  predicate Wanted(w: Want) {
    Separator(w.kind) && forall b | b in w.name :: !Separator(b)
  }

  /** The seed after a variable: the text behind IBMRSEED in a VAR or USERVAR name. */
  function SeedIn(w: Want, seed: seq<byte>): seq<byte> {
    if w.kind != 0x01 && |w.name| > 8 && w.name[..8] == [0x49, 0x42, 0x4D, 0x52, 0x53, 0x45, 0x45, 0x44]
    then w.name[8..] else seed
  }

  function LastSeed(ws: seq<Want>, seed: seq<byte>): seq<byte>
    decreases |ws|
  {
    if ws == [] then seed else LastSeed(ws[1..], SeedIn(ws[0], seed))
  }

  lemma NameStops(name: seq<byte>, rest: seq<byte>)
    requires (forall b | b in name :: !Separator(b)) && (rest == [] || Separator(rest[0]))
    ensures NameLength(name + rest) == |name|
  {
    var d := name + rest;
    NameEnds(d);
    assert forall k :: 0 <= k < |name| ==> d[k] == name[k] && name[k] in name;
    assert rest != [] ==> d[|name|] == rest[0];
  }

  lemma {:induction false} SkipText(name: seq<byte>, rest: seq<byte>, seed: seq<byte>)
    requires forall b | b in name :: !Separator(b)
    ensures ScanSeed(name + rest, seed) == ScanSeed(rest, seed)
  {
    if name == [] {
      assert name + rest == rest;
    } else {
      assert name[0] in name && forall b | b in name[1..] :: b in name;
      SkipText(name[1..], rest, seed);
      assert (name + rest)[1..] == name[1..] + rest;
    }
  }

  lemma ScanWant(w: Want, rest: seq<byte>, seed: seq<byte>)
    requires Wanted(w) && (rest == [] || Separator(rest[0]))
    ensures ScanSeed(WantBytes(w) + rest, seed) == ScanSeed(rest, SeedIn(w, seed))
  {
    var d := WantBytes(w) + rest;
    assert d[1..] == w.name + rest;
    if w.kind == 0x01 {
      SkipText(w.name, rest, seed);
    } else {
      NameStops(w.name, rest);
      assert d[1..1 + |w.name|] == w.name && d[1 + |w.name|..] == rest;
      assert IBMRSEED < w.name <==> |w.name| > 8 && w.name[..8] == IBMRSEED;
    }
  }

  /** From a list of variables the scan takes the seed of the last one that names one. */
  lemma {:induction false} LastSeedWins(ws: seq<Want>, seed: seq<byte>)
    requires forall w | w in ws :: Wanted(w)
    ensures ScanSeed(FlatMap(WantBytes, ws), seed) == LastSeed(ws, seed)
    ensures ws != [] ==> FlatMap(WantBytes, ws) != [] && Separator(FlatMap(WantBytes, ws)[0])
    decreases |ws|
  {
    if ws != [] {
      hide SeedIn;
      assert ws[0] in ws && forall w | w in ws[1..] :: w in ws;
      FlatMapCons(WantBytes, ws);
      LastSeedWins(ws[1..], SeedIn(ws[0], seed));
      LastSeedWins(ws[1..], seed);
      hide FlatMap;
      ScanWant(ws[0], FlatMap(WantBytes, ws[1..]), seed);
    }
  }
}
