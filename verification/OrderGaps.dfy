/**
 Which buffers hold which orders, told from the bytes: gaps without an order
 code between orders printed byte by byte, and at most one order too short to
 be read at the end.
 */
module OrderGaps {
  import opened Bytes
  import opened OrderSpec
  import opened OrderProofs

  /** No byte of `s` is the code of an order. */
  predicate CodeFree(s: seq<byte>) {
    forall b | b in s :: b !in {0x01, 0x02, 0x03, 0x11, 0x1D}
  }

  predicate StartsOrder(s: seq<byte>) {
    s != [] && s[0] in {0x01, 0x02, 0x03, 0x11, 0x1D}
  }

  /** An order, byte by byte. A start field is printed with the length it states, not that of its text. */
  function Printed(o: Order): seq<byte> {
    match o
    case Soh(_, length, flags, reserved, resequence, errorRow, key1, key2, key3) =>
      [0x01, length, flags, reserved, resequence, errorRow, key1, key2, key3]
    case Ra(_, row, column, text) => [0x02, row, column] + text
    case Ic(_, row, column) => [0x03, row, column]
    case Sba(_, row, column, text) => [0x11, row, column] + text
    case Sf(_, word1, word2, controlWords, attributes, length, text) =>
      [0x1D, word1, word2] + FlatMap(WordBytes, controlWords)
      + [attributes, Hi(length as int), Lo(length as int)] + text
  }

  /**
   In front of `rest`, the printed order ends where it should: an address takes
   all text up to the next order code, and only the end of the buffer may cut
   the text of a start field short.
   */
  predicate Stands(o: Order, rest: seq<byte>) {
    match o
    case Soh(code, _, _, _, _, _, _, _, _) => code == 0x01
    case Ra(code, _, _, text) => code == 0x02 && |text| == 1
    case Ic(code, _, _) => code == 0x03
    case Sba(code, _, _, text) => code == 0x11 && CodeFree(text) && (rest == [] || StartsOrder(rest))
    case Sf(code, _, _, controlWords, attributes, length, text) =>
      && code == 0x1D
      && (forall k :: 0 <= k < |controlWords| ==> ControlWord(controlWords[k]))
      && 0x20 <= attributes < 0x40
      && (|text| == length as int || (|text| < length as int && rest == []))
  }

  /** An order behind a gap. */
  datatype Slot = Slot(gap: seq<byte>, order: Order)

  function Text(slots: seq<Slot>, last: seq<byte>): seq<byte> {
    if slots == [] then last
    else slots[0].gap + Printed(slots[0].order) + Text(slots[1..], last)
  }

  predicate Laid(slots: seq<Slot>, last: seq<byte>) {
    slots == [] ||
    (CodeFree(slots[0].gap) && Stands(slots[0].order, Text(slots[1..], last)) && Laid(slots[1..], last))
  }

  function OrdersIn(slots: seq<Slot>): seq<Order> {
    seq(|slots|, k requires 0 <= k < |slots| => slots[k].order)
  }

  /**
   An order code with too few bytes behind it; for a start field, no attribute
   byte where one is looked for that has two more bytes behind it.
   */
  predicate Short(s: seq<byte>) {
    StartsOrder(s) &&
    match s[0]
    case 0x01 => |s| < 9
    case 0x02 => |s| < 4
    case 0x1D => forall k | 3 <= k < |s| - 2 && k % 2 == 1 :: !(0x20 <= s[k] < 0x40)
    case _ => |s| < 3
  }

  lemma CodeFreeStep(s: seq<byte>)
    requires s != []
    ensures CodeFree(s) <==> !StartsOrder(s) && CodeFree(s[1..])
  {
    assert s[0] in s && (forall b | b in s[1..] :: b in s) && s == [s[0]] + s[1..];
  }

  lemma {:induction false} GapScan(gap: seq<byte>, rest: seq<byte>)
    requires CodeFree(gap)
    ensures ScanOrders(gap + rest) == ScanOrders(rest)
  {
    if gap == [] {
      assert gap + rest == rest;
    } else {
      CodeFreeStep(gap);
      GapScan(gap[1..], rest);
      assert (gap + rest)[1..] == gap[1..] + rest;
    }
  }

  lemma {:induction false} CodeFreeText(text: seq<byte>)
    ensures CodeFree(text) <==> TextLength(text) == |text|
  {
    if text != [] {
      CodeFreeText(text[1..]);
      CodeFreeStep(text);
    }
  }

  lemma SfStands(o: Order, rest: seq<byte>)
    requires o.Sf? && Stands(o, rest)
    ensures ParseOrder(Printed(o) + rest) == AnOrder(|Printed(o)|, o)
  {
    var words := FlatMap(WordBytes, o.controlWords);
    var field := [o.attributes, Hi(o.fieldLength as int), Lo(o.fieldLength as int)];
    SfLayout([0x1D, o.formatWord1, o.formatWord2], words, field, o.text, rest);
    WordsRoundTrip(o.controlWords, field + o.text + rest);
    Be16Inverse(o.fieldLength as int);
    hide FlatMap, ControlWordsLength, Words, Hi, Lo;
  }

  lemma SbaStands(o: Order, rest: seq<byte>)
    requires o.Sba? && Stands(o, rest)
    ensures ParseOrder(Printed(o) + rest) == AnOrder(|Printed(o)|, o)
  {
    var s := Printed(o) + rest;
    CodeFreeText(o.text);
    TextStops(o.text, rest);
    hide TextLength, CodeFree;
    assert s[3..] == o.text + rest && s[3..3 + |o.text|] == o.text;
  }

  lemma PrintedStarts(o: Order)
    ensures StartsOrder(Printed(o))
  {
    hide FlatMap;
  }

  /** A standing order is read as it was printed. */
  lemma StandingRead(o: Order, rest: seq<byte>)
    requires Stands(o, rest)
    ensures ParseOrder(Printed(o) + rest) == AnOrder(|Printed(o)|, o) && StartsOrder(Printed(o))
  {
    PrintedStarts(o);
    hide FlatMap, TextLength, ControlWordsLength, Words;
    match o
    case Sba(_, _, _, _) => SbaStands(o, rest);
    case Sf(_, _, _, _, _, _, _) => SfStands(o, rest);
    case _ =>
  }

  lemma {:induction false} LaidScan(slots: seq<Slot>, last: seq<byte>)
    requires Laid(slots, last)
    ensures ScanOrders(Text(slots, last)) ==
      if ScanOrders(last).Failed? then Failed else Orders(OrdersIn(slots) + ScanOrders(last).orders)
    decreases |slots|
  {
    hide Stands, Printed, ParseOrder, CodeFree;
    if slots == [] {
      assert ScanOrders(last).Orders? ==> [] + ScanOrders(last).orders == ScanOrders(last).orders;
    } else {
      var gap, o, rest := slots[0].gap, slots[0].order, Text(slots[1..], last);
      LaidScan(slots[1..], last);
      GapScan(gap, Printed(o) + rest);
      StandingRead(o, rest);
      assert gap + Printed(o) + rest == gap + (Printed(o) + rest);
      assert (Printed(o) + rest)[|Printed(o)|..] == rest;
      assert OrdersIn(slots) == [o] + OrdersIn(slots[1..]);
      assert forall tail: seq<Order> :: OrdersIn(slots) + tail == [o] + (OrdersIn(slots[1..]) + tail);
    }
  }

  /** Orders with gaps in front, between and behind them are read, and nothing else is. */
  lemma GapsSkipped(slots: seq<Slot>, gap: seq<byte>)
    requires Laid(slots, gap) && CodeFree(gap)
    ensures ScanOrders(Text(slots, gap)) == Orders(OrdersIn(slots))
  {
    LaidScan(slots, gap);
    GapScan(gap, []);
    assert gap + [] == gap && OrdersIn(slots) + [] == OrdersIn(slots);
  }

  lemma {:induction false} WordsEnd(s: seq<byte>)
    ensures ControlWordsLength(s) + 2 >= |s| <==> forall k | 0 <= k < |s| - 2 && k % 2 == 0 :: !(0x20 <= s[k] < 0x40)
    decreases |s|
  {
    if |s| >= 2 && !IsAttribute(s[0]) {
      WordsEnd(s[2..]);
      assert forall k | 0 <= k < |s| - 4 && k % 2 == 0 :: s[2..][k] == s[k + 2];
      assert forall k | 2 <= k < |s| - 2 && k % 2 == 0 :: s[k] == s[2..][k - 2] && (k - 2) % 2 == 0;
    }
  }

  /** Exactly the short ones are not read. */
  lemma ShortExactly(s: seq<byte>)
    requires StartsOrder(s)
    ensures ParseOrder(s).NoOrder? <==> Short(s)
  {
    if s[0] == 0x1D && |s| >= 5 {
      WordsEnd(s[3..]);
      assert forall k | 0 <= k < |s| - 5 && k % 2 == 0 :: s[3..][k] == s[k + 3] && (k + 3) % 2 == 1;
      assert forall k | 3 <= k < |s| - 2 && k % 2 == 1 :: s[k] == s[3..][k - 3] && (k - 3) % 2 == 0;
    }
  }

  /** One short order at the end, and nothing of the buffer is returned. */
  lemma ShortOrderFails(slots: seq<Slot>, gap: seq<byte>, bad: seq<byte>)
    requires Laid(slots, gap + bad) && CodeFree(gap) && Short(bad)
    ensures ScanOrders(Text(slots, gap + bad)) == Failed && UnmarshalOrders(Text(slots, gap + bad)) == []
  {
    assert StartsOrder(bad);
    hide ParseOrder, Short;
    LaidScan(slots, gap + bad);
    GapScan(gap, bad);
    ShortExactly(bad);
  }

  /** An order that was read is the one printed where it stood. */
  lemma ReadStands(s: seq<byte>)
    requires ParseOrder(s).AnOrder?
    ensures var p := ParseOrder(s);
            0 < p.read <= |s| && s[..p.read] == Printed(p.order) && Stands(p.order, s[p.read..])
  {
    if s[0] == SET_BUFFER_ADDRESS {
      var n := TextLength(s[3..]);
      TextTaken(s[3..]);
      assert s[3..3 + n] == s[3..][..n];
      CodeFreeText(s[3..3 + n]);
      assert s[..3 + n] == s[..3] + s[3..3 + n];
    } else if s[0] == START_FIELD {
      SfReadStands(s);
    }
  }

  lemma {:induction false} WordsPrinted(s: seq<byte>)
    requires |s| % 2 == 0
    ensures FlatMap(WordBytes, Words(s)) == s
    decreases |s|
  {
    if s != [] {
      WordsPrinted(s[2..]);
      FlatMapCons(WordBytes, Words(s));
      Be16Parts(s[0], s[1]);
      assert Words(s)[1..] == Words(s[2..]);
      assert s == [s[0], s[1]] + s[2..];
    }
  }

  lemma {:induction false} WordsEven(s: seq<byte>)
    ensures ControlWordsLength(s) % 2 == 0
  {
    if |s| >= 2 && !IsAttribute(s[0]) {
      WordsEven(s[2..]);
    }
  }

  /** The parts of a start field that was read. */
  lemma SfReadParts(s: seq<byte>)
    requires ParseOrder(s).AnOrder? && s[0] == START_FIELD
    ensures var p, attr := ParseOrder(s), 3 + ControlWordsLength(s[3..]);
            var o, length := p.order, Be16(s[attr + 1], s[attr + 2]);
            && attr + 3 <= p.read <= |s| && o.Sf? && o.fieldLength as int == length
            && s[..p.read] == [s[0], s[1], s[2]] + s[3..attr] + [s[attr], s[attr + 1], s[attr + 2]] + o.text
            && o == Sf(s[0], s[1], s[2], Words(s[3..attr]), s[attr], o.fieldLength, o.text)
            && (|o.text| == length || (|o.text| < length && s[p.read..] == []))
  {
    hide ControlWordsLength, Words;
  }

  lemma SfReadStands(s: seq<byte>)
    requires ParseOrder(s).AnOrder? && s[0] == START_FIELD
    ensures var p := ParseOrder(s);
            0 < p.read <= |s| && s[..p.read] == Printed(p.order) && Stands(p.order, s[p.read..])
  {
    var w := ControlWordsLength(s[3..]);
    var attr := 3 + w;
    SfReadParts(s);
    WordsTaken(s[3..]);
    WordsEven(s[3..]);
    WordsPrinted(s[3..attr]);
    Be16Parts(s[attr + 1], s[attr + 2]);
    assert s[3..attr] == s[3..][..w] && s[3..][w] == s[attr];
    hide FlatMap, ControlWordsLength, Words, Hi, Lo, ParseOrder, Be16;
  }

  lemma LaidSlot(slot: Slot, slots: seq<Slot>, last: seq<byte>)
    requires CodeFree(slot.gap) && Stands(slot.order, Text(slots, last)) && Laid(slots, last)
    ensures Laid([slot] + slots, last)
    ensures Text([slot] + slots, last) == slot.gap + Printed(slot.order) + Text(slots, last)
  {
    hide CodeFree, Stands, Printed;
    assert ([slot] + slots)[1..] == slots;
  }

  /** One more byte in the first gap. */
  lemma LaidByte(b: byte, slots: seq<Slot>, gap: seq<byte>, bad: seq<byte>) returns (slots': seq<Slot>, gap': seq<byte>)
    requires b !in {0x01, 0x02, 0x03, 0x11, 0x1D} && Laid(slots, gap + bad) && CodeFree(gap)
    ensures Text(slots', gap' + bad) == [b] + Text(slots, gap + bad)
    ensures Laid(slots', gap' + bad) && CodeFree(gap')
  {
    hide Stands, Printed;
    if slots == [] {
      slots', gap' := [], [b] + gap;
      assert [b] + gap + bad == [b] + (gap + bad);
    } else {
      var first := Slot([b] + slots[0].gap, slots[0].order);
      slots', gap' := [first] + slots[1..], gap;
      LaidSlot(first, slots[1..], gap + bad);
    }
  }

  /** One more order, in front of all the gaps. */
  lemma LaidOrder(s: seq<byte>, slots: seq<Slot>, last: seq<byte>) returns (slots': seq<Slot>)
    requires ParseOrder(s).AnOrder? && ParseOrder(s).read <= |s|
    requires s[ParseOrder(s).read..] == Text(slots, last) && Laid(slots, last)
    ensures Text(slots', last) == s && Laid(slots', last)
  {
    hide ParseOrder, Stands, Printed, Laid, Text;
    ReadStands(s);
    var p := ParseOrder(s);
    assert CodeFree([]);
    LaidSlot(Slot([], p.order), slots, last);
    slots' := [Slot([], p.order)] + slots;
    assert [] + s[..p.read] + s[p.read..] == s;
  }

  /**
   Every buffer is such a text: orders behind gaps, and then a last gap, with or
   without a short order behind it.
   */
  lemma {:induction false} EveryBuffer(s: seq<byte>) returns (slots: seq<Slot>, gap: seq<byte>, bad: seq<byte>)
    ensures s == Text(slots, gap + bad) && Laid(slots, gap + bad) && CodeFree(gap) && (bad == [] || Short(bad))
    decreases |s|
  {
    hide ParseOrder, Short, Laid, Text;
    if s == [] {
      slots, gap, bad := [], [], [];
      assert [] + [] == s;
      LaidNone([]);
    } else if !StartsOrder(s) {
      slots, gap, bad := EveryBuffer(s[1..]);
      slots, gap := LaidByte(s[0], slots, gap, bad);
      assert s == [s[0]] + s[1..];
    } else {
      ShortExactly(s);
      ParseOrderReads(s);
      if ParseOrder(s).NoOrder? {
        slots, gap, bad := [], [], s;
        assert [] + s == s;
        LaidNone(s);
      } else {
        slots, gap, bad := EveryBuffer(s[ParseOrder(s).read..]);
        slots := LaidOrder(s, slots, gap + bad);
      }
    }
  }

  lemma LaidNone(last: seq<byte>)
    ensures Laid([], last) && Text([], last) == last
  {
  }

  /** `s` holds just the orders `os`, each behind a gap, and then a last gap. */
  ghost predicate Holds(s: seq<byte>, os: seq<Order>) {
    exists slots, gap :: Laid(slots, gap) && CodeFree(gap) && s == Text(slots, gap) && OrdersIn(slots) == os
  }

  /** A buffer is read as a list of orders exactly when it holds them; otherwise one of its orders is short. */
  lemma ReadExactly(s: seq<byte>, os: seq<Order>)
    ensures ScanOrders(s) == Orders(os) <==> Holds(s, os)
  {
    hide ScanOrders, Laid, CodeFree, Text, Short;
    var slots, gap, bad := EveryBuffer(s);
    if Holds(s, os) {
      var slots', gap' :| Laid(slots', gap') && CodeFree(gap') && s == Text(slots', gap') && OrdersIn(slots') == os;
      GapsSkipped(slots', gap');
    } else if bad == [] {
      assert gap + bad == gap;
      GapsSkipped(slots, gap);
    } else {
      ShortOrderFails(slots, gap, bad);
    }
  }
}
