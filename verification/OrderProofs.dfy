/** Round trip and canonical form of order lists. */
module OrderProofs {
  import opened Bytes
  import opened OrderSpec

  lemma {:induction false} TextStops(text: seq<byte>, rest: seq<byte>)
    requires TextLength(text) == |text|
    requires rest == [] || IsOrderCode(rest[0])
    ensures TextLength(text + rest) == |text|
  {
    if text == [] {
      assert text + rest == rest;
    } else {
      TextStops(text[1..], rest);
      assert (text + rest)[1..] == text[1..] + rest;
    }
  }

  lemma {:induction false} TextTaken(s: seq<byte>)
    ensures TextLength(s[..TextLength(s)]) == TextLength(s)
    ensures TextLength(s) < |s| ==> IsOrderCode(s[TextLength(s)])
  {
    if s != [] && !IsOrderCode(s[0]) {
      TextTaken(s[1..]);
      var t := s[..TextLength(s)];
      assert t[0] == s[0] && t[1..] == s[1..][..TextLength(s[1..])];
    }
  }

  predicate ControlWord(w: word) {
    !IsAttribute(Hi(w as int))
  }

  /** Control words are read back up to the attribute byte. */
  lemma {:induction false} WordsRoundTrip(ws: seq<word>, rest: seq<byte>)
    requires forall k :: 0 <= k < |ws| ==> ControlWord(ws[k])
    requires rest != [] && IsAttribute(rest[0])
    ensures var bytes := FlatMap(WordBytes, ws);
            ControlWordsLength(bytes + rest) == |bytes| && Words(bytes) == ws
    decreases |ws|
  {
    var bytes := FlatMap(WordBytes, ws);
    if ws == [] {
      assert bytes + rest == rest;
    } else {
      FlatMapCons(WordBytes, ws);
      WordsRoundTrip(ws[1..], rest);
      Be16Inverse(ws[0] as int);
      var tail := FlatMap(WordBytes, ws[1..]);
      hide FlatMap;
      assert ControlWord(ws[0]);
      assert bytes[2..] == tail && (bytes + rest)[2..] == tail + rest;
      assert [ws[0]] + ws[1..] == ws;
    }
  }

  lemma {:induction false} WordsTaken(s: seq<byte>)
    ensures ControlWordsLength(s) + 2 <= |s| ==> IsAttribute(s[ControlWordsLength(s)])
    ensures forall k :: 0 <= k < |Words(s[..ControlWordsLength(s)])| ==> ControlWord(Words(s[..ControlWordsLength(s)])[k])
  {
    if |s| >= 2 && !IsAttribute(s[0]) {
      WordsTaken(s[2..]);
      var n := ControlWordsLength(s);
      var t := s[..n];
      assert t[0] == s[0] && t[1] == s[1] && t[2..] == s[2..][..n - 2];
      Be16Parts(s[0], s[1]);
      assert forall k :: 0 < k < |Words(t)| ==> Words(t)[k] == Words(t[2..])[k - 1];
    }
  }

  lemma Be16Parts(hi: byte, lo: byte)
    ensures Hi(Be16(hi, lo)) == hi && Lo(Be16(hi, lo)) == lo
  {
  }

  /** Where the parts of a start field lie. */
  lemma SfLayout(head: seq<byte>, words: seq<byte>, field: seq<byte>, text: seq<byte>, rest: seq<byte>)
    requires |head| == 3 && |field| == 3
    ensures var s := head + words + field + text + rest;
            var attr := 3 + |words|;
            && s[0] == head[0] && s[1] == head[1] && s[2] == head[2]
            && s[3..] == words + (field + text + rest) && s[3..attr] == words
            && s[attr] == field[0] && s[attr + 1] == field[1] && s[attr + 2] == field[2]
            && s[attr + 3..attr + 3 + |text|] == text
  {
  }

  lemma SfRoundTrip(o: Order, rest: seq<byte>)
    requires o.Sf? && WellFormed(o)
    ensures ParseOrder(Marshal(o) + rest) == AnOrder(|Marshal(o)|, o)
  {
    var words := FlatMap(WordBytes, o.controlWords);
    var field := [o.attributes, Hi(|o.text|), Lo(|o.text|)];
    SfLayout([o.code, o.formatWord1, o.formatWord2], words, field, o.text, rest);
    assert forall k :: 0 <= k < |o.controlWords| ==> ControlWord(o.controlWords[k]);
    WordsRoundTrip(o.controlWords, field + o.text + rest);
    Be16Inverse(|o.text|);
    hide FlatMap, ControlWordsLength, Words, Hi, Lo;
  }

  lemma SbaRoundTrip(o: Order, rest: seq<byte>)
    requires o.Sba? && WellFormed(o)
    requires rest == [] || IsOrderCode(rest[0])
    ensures ParseOrder(Marshal(o) + rest) == AnOrder(|Marshal(o)|, o)
  {
    var s := Marshal(o) + rest;
    TextStops(o.text, rest);
    assert s[3..] == o.text + rest && s[3..3 + |o.text|] == o.text;
  }

  lemma OrderRoundTrip(o: Order, rest: seq<byte>)
    requires WellFormed(o)
    requires rest == [] || IsOrderCode(rest[0])
    ensures ParseOrder(Marshal(o) + rest) == AnOrder(|Marshal(o)|, o)
    ensures Marshal(o) != [] && IsOrderCode(Marshal(o)[0])
  {
    match o
    case Sba(_, _, _, _) => SbaRoundTrip(o, rest);
    case Sf(_, _, _, _, _, _, _) => SfRoundTrip(o, rest);
    case _ =>
  }

  /** Any list of well-formed orders is read back from its wire form. */
  lemma {:induction false} ListRoundTrip(os: seq<Order>)
    requires forall k :: 0 <= k < |os| ==> WellFormed(os[k])
    ensures ScanOrders(MarshalAll(os)) == Orders(os)
    ensures os != [] ==> MarshalAll(os) != [] && IsOrderCode(MarshalAll(os)[0])
    decreases |os|
  {
    hide Marshal, ParseOrder, WellFormed;
    if os != [] {
      var s, rest := MarshalAll(os), MarshalAll(os[1..]);
      FlatMapCons(Marshal, os);
      hide FlatMap;
      ListRoundTrip(os[1..]);
      OrderRoundTrip(os[0], rest);
      assert s == Marshal(os[0]) + rest && s[|Marshal(os[0])|..] == rest;
      assert s[0] == Marshal(os[0])[0];
      assert [os[0]] + os[1..] == os;
    }
  }

  lemma MarshalCanon(o: Order)
    ensures Marshal(Canon(o)) == Marshal(o)
  {
  }

  /** What is parsed is well-formed but for the length of a start field cut off by the end of the buffer. */
  lemma ParsedIsCanonical(s: seq<byte>)
    requires ParseOrder(s).AnOrder?
    ensures var p := ParseOrder(s);
            && WellFormed(Canon(p.order))
            && (Canon(p.order) != p.order ==> p.order.Sf? && p.read == |s| && |p.order.text| < p.order.fieldLength as int)
  {
    if s[0] == SET_BUFFER_ADDRESS {
      TextTaken(s[3..]);
      assert s[3..3 + TextLength(s[3..])] == s[3..][..TextLength(s[3..])];
    } else if s[0] == START_FIELD {
      var n := ControlWordsLength(s[3..]);
      WordsTaken(s[3..]);
      assert s[3..3 + n] == s[3..][..n] && s[3..][n] == s[3 + n];
      var ws := Words(s[3..3 + n]);
      assert forall k :: 0 <= k < |ws| ==> ControlWord(ws[k]);
    }
  }

  function CanonAll(os: seq<Order>): seq<Order> {
    seq(|os|, k requires 0 <= k < |os| => Canon(os[k]))
  }

  predicate IsCanonical(o: Order) {
    Canon(o) == o
  }

  predicate CanonicalButLast(os: seq<Order>) {
    forall k :: 0 <= k < |os| - 1 ==> IsCanonical(os[k])
  }

  /** In a parsed buffer, only the last order may differ from its canonical form. */
  lemma {:induction false} ScannedIsCanonical(s: seq<byte>)
    requires ScanOrders(s).Orders?
    ensures var os := ScanOrders(s).orders;
            (forall k :: 0 <= k < |os| ==> WellFormed(Canon(os[k]))) && CanonicalButLast(os)
    decreases |s|
  {
    hide ParseOrder, WellFormed, Canon, IsOrderCode;
    ParseOrderReads(s);
    if s == [] {
    } else if !IsOrderCode(s[0]) {
      ScannedIsCanonical(s[1..]);
    } else {
      var p := ParseOrder(s);
      ParsedIsCanonical(s);
      ScannedIsCanonical(s[p.read..]);
      var os, rest := ScanOrders(s).orders, ScanOrders(s[p.read..]).orders;
      assert os == [p.order] + rest;
      if Canon(p.order) != p.order {
        assert s[p.read..] == [];
        assert rest == [];
      }
    }
  }

  lemma {:induction false} MarshalCanonAll(os: seq<Order>)
    ensures MarshalAll(CanonAll(os)) == MarshalAll(os)
  {
    hide Marshal, Canon;
    if os != [] {
      var front := os[..|os| - 1];
      MarshalCanonAll(front);
      MarshalCanon(os[|os| - 1]);
      assert CanonAll(os)[..|os| - 1] == CanonAll(front);
    }
  }

  /**
   Canonicalisation: for every buffer, writing what was read and reading it
   again gives the same orders up to the length of a start field cut off by the
   end of the buffer, and writing once more gives the same bytes.
   */
  lemma Canonicalisation(s: seq<byte>)
    ensures var os := UnmarshalOrders(s);
            && UnmarshalOrders(MarshalAll(os)) == CanonAll(os)
            && MarshalAll(CanonAll(os)) == MarshalAll(os)
            && CanonicalButLast(os)
  {
    hide ScanOrders, Marshal, WellFormed, Canon;
    var os := UnmarshalOrders(s);
    if ScanOrders(s).Orders? {
      ScannedIsCanonical(s);
    }
    MarshalCanonAll(os);
    ListRoundTrip(CanonAll(os));
  }
}
