/**
 GDS records (section 3 of RFC 1205): the chain of length fields inside one
 EOR-delimited block, its repair, and the record a sender builds.
 */
module Gds {
  import opened Bytes

  const MIN_RECORD_LEN := 6
  const MAX_RECORD_LEN := 65535
  const HEADER_SIZE := 10
  const RECORD_TYPE_HI: byte := 0x12
  const RECORD_TYPE_LO: byte := 0xA0
  const VAR_HDR_LEN: byte := 0x04
  const OPCODE_PUT_GET: byte := 0x03

  /** `s` starts with a length field that names a record lying inside `s`. */
  predicate Links(s: seq<byte>) {
    |s| >= 2 && MIN_RECORD_LEN <= Be16(s[0], s[1]) <= |s|
  }

  /** The records the length fields of `s` cut off before the chain breaks. */
  function Parts(s: seq<byte>): seq<seq<byte>> {
    if Links(s) then
      var len := Be16(s[0], s[1]);
      [s[..len]] + Parts(s[len..])
    else []
  }

  /** What is left of `s` where the chain breaks. */
  function Tail(s: seq<byte>): (tail: seq<byte>)
    ensures |tail| <= |s|
  {
    if Links(s) then Tail(s[Be16(s[0], s[1])..]) else s
  }

  lemma TailStep(s: seq<byte>)
    ensures Tail(s) == if Links(s) then Tail(s[Be16(s[0], s[1])..]) else s
  {
  }

  /** The length fields of `s` lead exactly to its end. */
  predicate Tiles(s: seq<byte>) {
    Tail(s) == []
  }

  /** A tail whose length field may be overwritten with its true length. */
  predicate Repairable(tail: seq<byte>) {
    && HEADER_SIZE <= |tail| <= MAX_RECORD_LEN
    && tail[2] == RECORD_TYPE_HI && tail[3] == RECORD_TYPE_LO
  }

  /** `s` with its first two bytes replaced by its length. */
  function WithLength(s: seq<byte>): seq<byte>
    requires |s| >= 2
  {
    [Hi(|s|), Lo(|s|)] + s[2..]
  }

  function Repair(s: seq<byte>): seq<byte> {
    var tail := Tail(s);
    if Repairable(tail) then s[..|s| - |tail|] + WithLength(tail) else s
  }

  /** The record `sendGDS` builds; a length over 16 bits is truncated. */
  function Record(flagsHi: byte, opcode: byte, payload: seq<byte>): seq<byte> {
    var len := HEADER_SIZE + |payload|;
    [Hi(len), Lo(len), RECORD_TYPE_HI, RECORD_TYPE_LO, 0, 0, VAR_HDR_LEN, flagsHi, 0, opcode] + payload
  }

  lemma {:induction false} TailIsSuffix(s: seq<byte>)
    ensures Tail(s) == s[|s| - |Tail(s)|..] && !Links(Tail(s))
  {
    if Links(s) {
      TailIsSuffix(s[Be16(s[0], s[1])..]);
    }
  }

  lemma Patch(s: seq<byte>, at: nat)
    requires at + 2 <= |s|
    ensures s[at := Hi(|s| - at)][at + 1 := Lo(|s| - at)] == s[..at] + WithLength(s[at..])
  {
  }

  /** Repair as an overwriting of two bytes where the chain breaks. */
  lemma RepairInPlace(s: seq<byte>, at: nat)
    requires at <= |s| && Tail(s) == s[at..]
    ensures Repair(s) ==
      if HEADER_SIZE <= |s| - at <= MAX_RECORD_LEN && s[at + 2] == RECORD_TYPE_HI && s[at + 3] == RECORD_TYPE_LO then
        s[at := Hi(|s| - at)][at + 1 := Lo(|s| - at)]
      else s
  {
    hide Tail;
    if at + 2 <= |s| {
      Patch(s, at);
    }
  }

  /** The parts and the tail are all of the block, in order. */
  lemma {:induction false} PartsAndTail(s: seq<byte>)
    ensures Concat(Parts(s)) + Tail(s) == s
  {
    if Links(s) {
      var len := Be16(s[0], s[1]);
      var head, rest := s[..len], s[len..];
      PartsAndTail(rest);
      FlatMapAppend(Id, [head], Parts(rest));
      FlatMapOne(Id, head);
      assert Concat(Parts(s)) == head + Concat(Parts(rest));
      assert head + (Concat(Parts(rest)) + Tail(rest)) == s;
    } else {
      assert Concat([]) + s == s;
    }
  }

  /** A chain that closes can be followed by any other chain. */
  lemma {:induction false} ChainAppend(a: seq<byte>, b: seq<byte>)
    requires Tiles(a)
    ensures Parts(a + b) == Parts(a) + Parts(b)
    ensures Tail(a + b) == Tail(b)
  {
    if a == [] {
      assert a + b == b;
    } else {
      var len := Be16(a[0], a[1]);
      var ab, rest := a + b, a[len..];
      ChainAppend(rest, b);
      assert Links(ab) && Be16(ab[0], ab[1]) == len;
      assert ab[len..] == rest + b && ab[..len] == a[..len];
      hide Links;
      assert [a[..len]] + (Parts(rest) + Parts(b)) == ([a[..len]] + Parts(rest)) + Parts(b);
    }
  }

  /** The block without its tail is a chain that closes. */
  lemma {:induction false} ChainBeforeTail(s: seq<byte>)
    ensures var linked := s[..|s| - |Tail(s)|]; Tiles(linked) && Parts(linked) == Parts(s)
  {
    if Links(s) {
      var len := Be16(s[0], s[1]);
      var rest := s[len..];
      ChainBeforeTail(rest);
      var linked := s[..|s| - |Tail(s)|];
      assert linked[..len] == s[..len];
      assert linked[len..] == rest[..|rest| - |Tail(rest)|];
    }
  }

  lemma WithLengthLinks(tail: seq<byte>)
    requires Repairable(tail)
    ensures Tiles(WithLength(tail)) && Parts(WithLength(tail)) == [WithLength(tail)]
  {
    var t := WithLength(tail);
    Be16Inverse(|tail|);
    assert t[|t|..] == [] && t[..|t|] == t;
  }

  /** The repaired block is the old chain, and then the tail as one more record. */
  lemma RepairChain(s: seq<byte>)
    requires Repairable(Tail(s))
    ensures Tiles(Repair(s)) && Parts(Repair(s)) == Parts(s) + [WithLength(Tail(s))]
  {
    ChainBeforeTail(s);
    WithLengthLinks(Tail(s));
    ChainAppend(s[..|s| - |Tail(s)|], WithLength(Tail(s)));
  }

  /**
   Repair makes the length fields tile the block exactly when they already did
   or the tail is a repairable record.
   */
  lemma RepairTilesExactly(s: seq<byte>)
    ensures Tiles(Repair(s)) <==> Tiles(s) || Repairable(Tail(s))
  {
    if Repairable(Tail(s)) {
      RepairChain(s);
    }
  }

  /** Repair keeps the size and touches at most the length field where the chain breaks. */
  lemma RepairIsLocal(s: seq<byte>)
    ensures |Repair(s)| == |s|
    ensures var at := |s| - |Tail(s)|;
            forall k :: 0 <= k < |s| && k != at && k != at + 1 ==> Repair(s)[k] == s[k]
  {
    hide Repair, Tail;
    TailIsSuffix(s);
    RepairInPlace(s, |s| - |Tail(s)|);
  }

  /** A block whose chain closes is left alone. */
  lemma RepairKeepsTiled(s: seq<byte>)
    requires Tiles(s)
    ensures Repair(s) == s
  {
  }

  lemma RepairIdempotent(s: seq<byte>)
    ensures Repair(Repair(s)) == Repair(s)
  {
    if Repairable(Tail(s)) {
      RepairChain(s);
      RepairKeepsTiled(Repair(s));
    }
  }

  /** A record built from a payload that fits names its own length. */
  lemma RecordTiles(flagsHi: byte, opcode: byte, payload: seq<byte>)
    requires |payload| <= MAX_RECORD_LEN - HEADER_SIZE
    ensures var r := Record(flagsHi, opcode, payload);
            Tiles(r) && Parts(r) == [r] && Be16(r[0], r[1]) == |r|
  {
    var r := Record(flagsHi, opcode, payload);
    Be16Inverse(|r|);
    assert r[|r|..] == [] && r[..|r|] == r;
  }

  /** No link is longer than a length field can say. */
  lemma {:induction false} PartsAreShort(s: seq<byte>)
    ensures forall part | part in Parts(s) :: |part| <= MAX_RECORD_LEN
  {
    if Links(s) {
      PartsAreShort(s[Be16(s[0], s[1])..]);
    }
  }

  /**
   A record reaches the receiver, repair included, as the one link it is
   exactly when its payload fits. A longer one is sent with a truncated length,
   and what the receiver then sees is at best several records.
   */
  lemma OneLinkExactly(flagsHi: byte, opcode: byte, payload: seq<byte>)
    ensures var r := Record(flagsHi, opcode, payload);
            Parts(Repair(r)) == [r] <==> |payload| <= MAX_RECORD_LEN - HEADER_SIZE
  {
    var r := Record(flagsHi, opcode, payload);
    if |payload| <= MAX_RECORD_LEN - HEADER_SIZE {
      RecordTiles(flagsHi, opcode, payload);
      RepairKeepsTiled(r);
    } else {
      hide Parts, Repair, Record;
      PartsAreShort(Repair(r));
      assert r in [r];
    }
  }
}
