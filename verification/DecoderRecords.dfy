/**
 What the decoder reports and shows of a record, told from the record's bytes:
 records are printed byte by byte from commands and body items, and the reports
 expected of each are written out beside them.
 */
module DecoderRecords {
  import opened Bytes
  import opened DecoderSpec
  import opened DecoderProofs
  import Gds

  // ----- the body of a Write To Display

  datatype Pair = Pair(hi: byte, lo: byte)

  function PairBytes(p: Pair): seq<byte> {
    [p.hi, p.lo]
  }

  datatype Item =
    | Order(code: byte, operands: seq<byte>)                       // SBA, IC, MC, RA or EA
    | Transparent(n: byte, data: seq<byte>)                        // TD
    | Field(word1: byte, word2: byte, controls: seq<Pair>, attribute: byte, length1: byte, length2: byte)
    | Character(b: byte)
    | Heading(n: byte, data: seq<byte>)                            // SOH
    | Structured(hi: byte, lo: byte, data: seq<byte>)              // WDSF
    | Request(flag: byte, command: seq<byte>)                      // STRPCCMD
    | BareRequest                                                  // STRPCCMD without a wait flag
    | CutField(word1: byte, word2: byte, controls: seq<Pair>, tail: seq<byte>)
    | CutItem(bytes: seq<byte>)

  const REQUEST: seq<byte> := [0x80, 0xFC, 0xD7, 0xC3, 0xD6, 0x40, 0x83, 0x80, 0xA1, 0x80]

  function ItemBytes(i: Item): seq<byte> {
    match i
    case Order(code, operands) => [code] + operands
    case Transparent(n, data) => [0x10, n] + data
    case Field(word1, word2, controls, attribute, length1, length2) =>
      [0x1D, word1, word2] + FlatMap(PairBytes, controls) + [attribute, length1, length2]
    case Character(b) => [b]
    case Heading(n, data) => [0x01, n] + data
    case Structured(hi, lo, data) => [0x15, hi, lo] + data
    case Request(flag, command) => REQUEST + [flag] + command
    case BareRequest => REQUEST
    case CutField(word1, word2, controls, tail) => [0x1D, word1, word2] + FlatMap(PairBytes, controls) + tail
    case CutItem(bytes) => bytes
  }

  predicate ControlPairs(controls: seq<Pair>) {
    forall k :: 0 <= k < |controls| ==> !(0x20 <= controls[k].hi < 0x40)
  }

  /** `data` is of the given size, or the payload ends before it is. */
  predicate Sized(data: seq<byte>, size: int, rest: seq<byte>) {
    |data| == size || (|data| < size && rest == [])
  }

  /** The item, in front of `rest`, is all there; only the payload's end may cut an item off. */
  predicate ItemFits(i: Item, rest: seq<byte>) {
    match i
    case Order(code, operands) =>
      || (code in {0x11, 0x13, 0x14} && Sized(operands, 2, rest))
      || (code in {0x02, 0x03} && Sized(operands, 3, rest))
    case Transparent(n, data) => Sized(data, n as int, rest)
    case Field(_, _, controls, attribute, _, _) => ControlPairs(controls) && 0x20 <= attribute < 0x40
    case Character(b) =>
      b !in {0x01, 0x02, 0x03, 0x04, 0x10, 0x11, 0x13, 0x14, 0x15, 0x1D} && !(REQUEST <= [b] + rest)
    case Heading(n, data) => Sized(data, n as int, rest)
    case Structured(hi, lo, data) =>
      var length := hi as int * 256 + lo as int;
      Sized(data, if length < 2 then 0 else length - 2, rest)
    case Request(flag, command) =>
      && flag != 0x04 && |command| <= 123 && (forall k :: 0 <= k < |command| ==> command[k] >= 0x40)
      && (|command| == 123 || rest == [] || rest[0] < 0x40)
    case BareRequest => rest == [] || rest[0] == 0x04
    case CutField(_, _, controls, tail) =>
      && ControlPairs(controls) && |tail| <= 1
      && (rest == [] || (|rest| == 1 && |tail| == 1 && 0x20 <= tail[0] < 0x40))
    case CutItem(bytes) =>
      && rest == [] && (|bytes| == 1 || |bytes| == 2)
      && bytes[0] in (if |bytes| == 1 then {0x01, 0x10, 0x15, 0x1D} else {0x15, 0x1D})
  }

  /** Orders and characters are shown; headings, structured fields and requests are not. */
  function ItemShown(i: Item): seq<byte> {
    match i
    case Heading(_, _) => []
    case Structured(_, _, _) => []
    case Request(_, _) => []
    case BareRequest => []
    case CutItem(bytes) => if bytes != [] && bytes[0] in {0x01, 0x15} then [] else bytes
    case _ => ItemBytes(i)
  }

  function ByteAt(data: seq<byte>, k: nat): byte {
    if k < |data| then data[k] else 0
  }

  /** The error row, and the keys that a length of 5, 6 and 7 covers. */
  function HeadingReports(n: byte, data: seq<byte>): seq<Event> {
    if n < 4 then []
    else
      [OnSoh(ByteAt(data, 3), if n >= 5 then ByteAt(data, 4) else 0,
             if n >= 6 then ByteAt(data, 5) else 0, if n >= 7 then ByteAt(data, 6) else 0)]
  }

  function ItemReports(i: Item): seq<Event> {
    match i
    case Heading(n, data) => HeadingReports(n, data)
    case Request(flag, command) => [OnStrpccmdRequested(flag == 0x81, command)]
    case BareRequest => [OnStrpccmdRequested(false, [])]
    case _ => []
  }

  function Body(items: seq<Item>): seq<byte> {
    if items == [] then [] else ItemBytes(items[0]) + Body(items[1..])
  }

  predicate BodyFits(items: seq<Item>, rest: seq<byte>) {
    items == [] || (ItemFits(items[0], Body(items[1..]) + rest) && BodyFits(items[1..], rest))
  }

  // ----- commands

  datatype Step =
    | ClearUnit
    | ClearUnitAlternate
    | ClearFormatTable
    | ErrorText(toWindow: bool, text: seq<byte>)
    | Roll(operands: seq<byte>)
    | Read(code: byte, operands: seq<byte>)
    | Fields(fields: seq<seq<byte>>)                    // Write Structured Field
    | BrokenFields(fields: seq<seq<byte>>, bad: seq<byte>)
    | Write(control1: byte, control2: byte, items: seq<Item>)
    | UnknownCode(code: byte, text: seq<byte>)
    | Loose(n: byte, data: seq<byte>)                   // a start-of-header outside any command
    | StrayAt(b: byte)
    | Dropped(bytes: seq<byte>)                         // a truncated end

  function StepBytes(c: Step): seq<byte> {
    match c
    case ClearUnit => [0x04, 0x40]
    case ClearUnitAlternate => [0x04, 0x20]
    case ClearFormatTable => [0x04, 0x50]
    case ErrorText(toWindow, text) => [0x04, if toWindow then 0x22 else 0x21] + text
    case Roll(operands) => [0x04, 0x23] + operands
    case Read(code, operands) => [0x04, code] + operands
    case Fields(fields) => [0x04, 0xF3] + Concat(fields)
    case BrokenFields(fields, bad) => [0x04, 0xF3] + Concat(fields) + bad
    case Write(control1, control2, items) => [0x04, 0x11, control1, control2] + Body(items)
    case UnknownCode(code, text) => [0x04, code] + text
    case Loose(n, data) => [0x01, n] + data
    case StrayAt(b) => [b]
    case Dropped(bytes) => bytes
  }

  /** The next command, or nothing, follows. */
  predicate Ended(rest: seq<byte>) {
    rest == [] || rest[0] == 0x04
  }

  predicate SoundFields(fields: seq<seq<byte>>) {
    forall k :: 0 <= k < |fields| ==> IsField(fields[k]) && fields[k][0] != 0x04
  }

  predicate StepFits(c: Step, rest: seq<byte>) {
    match c
    case ErrorText(_, text) => 0x04 !in text && Ended(rest)
    case Roll(operands) =>
      |operands| == 4 || (|operands| == 2 && |rest| < 2) || (|operands| < 2 && rest == [])
    case Read(code, operands) => code in {0x42, 0x52, 0x62, 0x66, 0x72} && Sized(operands, 2, rest)
    case Fields(fields) => SoundFields(fields) && (Ended(rest) || |rest| == 1)
    case BrokenFields(fields, bad) =>
      && SoundFields(fields) && rest == [] && |bad| >= 2 && bad[0] != 0x04
      && (Be16(bad[0], bad[1]) < 2 || Be16(bad[0], bad[1]) > |bad|)
    case Write(_, _, items) => BodyFits(items, rest) && Ended(rest)
    case UnknownCode(code, text) =>
      && code !in {0x11, 0x20, 0x21, 0x22, 0x23, 0x40, 0x42, 0x50, 0x52, 0x62, 0x66, 0x72, 0xF3}
      && 0x04 !in text && Ended(rest)
    case Loose(n, data) => Sized(data, n as int, rest)
    case StrayAt(b) => b != 0x04 && b != 0x01
    case Dropped(bytes) =>
      rest == [] && (bytes == [0x04] || bytes == [0x01] || (2 <= |bytes| <= 3 && bytes[..2] == [0x04, 0x11]))
    case _ => true
  }

  function StepShown(c: Step): seq<byte> {
    if c.Write? then FlatMap(ItemShown, c.items) else []
  }

  /** One less, in eight bits. */
  function Before(b: byte): byte {
    ((b as int + 255) % 256) as byte
  }

  function RollReports(operands: seq<byte>): seq<Event> {
    if |operands| < 2 then []
    else
      var up, lines := operands[0] >= 0x80, operands[1] % 0x20;
      if |operands| == 4 then [OnRoll(Before(operands[2]), Before(operands[3]), lines, up)]
      else [OnRoll(0, 0, lines, up)]
  }

  function StepReports(c: Step): seq<Event> {
    match c
    case ClearUnit => [OnClearScreen]
    case ClearUnitAlternate => [OnClearScreenAlternate]
    case ClearFormatTable => [OnClearFormatTable]
    case ErrorText(_, text) => [OnWriteErrorCode(text)]
    case Roll(operands) => RollReports(operands)
    case Read(code, _) =>
      [if code == 0x62 then OnReadScreen(false) else if code == 0x66 then OnReadScreen(true) else OnCommandReceived(code)]
    case Fields(fields) => [OnWriteStructuredField(Concat(fields))]
    case BrokenFields(fields, bad) => [OnParseError(StructuredFieldLength), OnWriteStructuredField(Concat(fields) + bad)]
    case Write(control1, control2, items) =>
      [OnControlCharacters(control1, control2)] + (if control2 % 0x10 >= 0x08 then [OnKeyboardUnlock] else [])
      + FlatMap(ItemReports, items)
    case UnknownCode(code, _) => [OnParseError(UnknownCommand(code))]
    case Loose(n, data) => HeadingReports(n, data)
    case StrayAt(b) => [OnParseError(StrayByte(b))]
    case Dropped(_) => []
  }

  function Payload(cs: seq<Step>): seq<byte> {
    if cs == [] then [] else StepBytes(cs[0]) + Payload(cs[1..])
  }

  predicate PayloadFits(cs: seq<Step>) {
    cs == [] || (StepFits(cs[0], Payload(cs[1..])) && PayloadFits(cs[1..]))
  }

  // ----- the body is read as printed

  lemma {:induction false} PairsLength(controls: seq<Pair>, rest: seq<byte>)
    requires ControlPairs(controls)
    requires |rest| < 2 || 0x20 <= rest[0] < 0x40
    ensures ControlWordsLength(FlatMap(PairBytes, controls) + rest) == |FlatMap(PairBytes, controls)|
    decreases |controls|
  {
    if controls == [] {
      assert FlatMap(PairBytes, controls) + rest == rest;
    } else {
      FlatMapCons(PairBytes, controls);
      PairsLength(controls[1..], rest);
      var tail := FlatMap(PairBytes, controls[1..]);
      hide FlatMap;
      var s := FlatMap(PairBytes, controls) + rest;
      assert s == PairBytes(controls[0]) + (tail + rest);
      assert s[2..] == tail + rest && s[0] == controls[0].hi;
    }
  }

  lemma FieldRead(head: seq<byte>, pairs: seq<byte>, tail: seq<byte>)
    requires |head| == 3 && head[0] == 0x1D && ControlWordsLength(pairs + tail) == |pairs|
    ensures var s := head + pairs + tail;
            && s[0] == 0x1D && s != []
            && StartFieldLength(s) ==
                 if tail == [] then |s| else if |tail| >= 3 then 3 + |pairs| + 3 else 3 + |pairs| + 1
  {
    var s := head + pairs + tail;
    assert s[3..] == pairs + tail;
    hide ControlWordsLength;
  }

  lemma FieldItem(i: Item, rest: seq<byte>)
    requires (i.Field? || i.CutField?) && ItemFits(i, rest)
    ensures var s := ItemBytes(i) + rest;
            s != [] && s[0] == 0x1D && BodyPiece(s) == Piece(Shown, ItemBytes(i))
  {
    var head, pairs := [0x1D, i.word1, i.word2], FlatMap(PairBytes, i.controls);
    var last := if i.Field? then [i.attribute, i.length1, i.length2] else i.tail;
    var s := ItemBytes(i) + rest;
    PairsLength(i.controls, last + rest);
    hide FlatMap, ControlWordsLength;
    assert s == head + pairs + (last + rest);
    FieldRead(head, pairs, last + rest);
    assert !IsPcCommand(s);
    hide StartFieldLength;
    assert s[..|ItemBytes(i)|] == ItemBytes(i);
  }

  lemma {:induction false} PrintableText(command: seq<byte>, rest: seq<byte>, max: nat)
    requires |command| <= max && (forall k :: 0 <= k < |command| ==> command[k] >= 0x40)
    requires |command| == max || rest == [] || rest[0] < 0x40
    ensures PrintableLength(command + rest, max) == |command|
    decreases |command|
  {
    if command == [] {
      assert command + rest == rest;
    } else {
      PrintableText(command[1..], rest, max - 1);
      assert (command + rest)[1..] == command[1..] + rest;
    }
  }

  lemma RequestStart(after: seq<byte>)
    ensures var s := REQUEST + after;
            && IsPcCommand(s) && s[10..] == after && s[0] == 0x80
            && BodyPiece(s) == Piece(BodyCommand, s[..PcCommandLength(s)])
  {
    hide PcCommandLength, StartFieldLength;
    var s := REQUEST + after;
    assert s[1..10] == REQUEST[1..] == STRPCCMD_SIGNATURE;
  }

  lemma RequestLength(flag: byte, command: seq<byte>, rest: seq<byte>)
    requires ItemFits(Request(flag, command), rest)
    ensures var s := REQUEST + ([flag] + command + rest);
            IsPcCommand(s) && PcCommandLength(s) == 11 + |command|
  {
    var after := [flag] + command + rest;
    RequestStart(after);
    PrintableText(command, rest, 123);
    assert after[1..] == command + rest;
    hide PrintableLength, BodyPiece;
  }

  lemma RequestItem(flag: byte, command: seq<byte>, rest: seq<byte>)
    requires ItemFits(Request(flag, command), rest)
    ensures var i := Request(flag, command);
            var s := ItemBytes(i) + rest;
            && s[0] == 0x80 && BodyPiece(s) == Piece(BodyCommand, ItemBytes(i))
            && PcCommandEvents(ItemBytes(i)) == ItemReports(i)
  {
    var i := Request(flag, command);
    RequestStart([flag] + command + rest);
    RequestLength(flag, command, rest);
    hide PcCommandLength, BodyPiece, IsPcCommand;
    var s := ItemBytes(i) + rest;
    assert s == REQUEST + ([flag] + command + rest);
    assert s[..11 + |command|] == ItemBytes(i) && ItemBytes(i)[11..] == command;
  }

  lemma BareRequestItem(rest: seq<byte>)
    requires ItemFits(BareRequest, rest)
    ensures var s := REQUEST + rest;
            && s[0] == 0x80 && BodyPiece(s) == Piece(BodyCommand, REQUEST)
            && PcCommandEvents(REQUEST) == ItemReports(BareRequest)
  {
    RequestStart(rest);
    hide BodyPiece;
    assert (REQUEST + rest)[..10] == REQUEST;
  }

  lemma CharacterItem(b: byte, rest: seq<byte>)
    requires ItemFits(Character(b), rest)
    ensures BodyPiece([b] + rest) == Piece(Shown, [b])
  {
    var s := [b] + rest;
    if |s| >= 10 {
      assert s[..10] == [s[0]] + s[1..10];
    }
  }

  lemma HeadingItem(n: byte, data: seq<byte>, rest: seq<byte>)
    requires Sized(data, n as int, rest)
    ensures var s := [0x01, n] + data + rest;
            s[..Min(2 + n as int, |s|)] == [0x01, n] + data
    ensures HeaderEvents([0x01, n] + data) == HeadingReports(n, data)
    ensures BodyPiece([0x01, n] + data + rest) == Piece(BodyHeader, [0x01, n] + data)
  {
    var b := [0x01, n] + data;
    assert forall k :: 2 <= k < |b| ==> b[k] == data[k - 2];
    assert (b + rest)[..|b|] == b;
  }

  lemma PlainItem(i: Item, rest: seq<byte>)
    requires ItemFits(i, rest) && (i.Order? || i.Transparent? || i.Structured? || i.CutItem?)
    ensures var s := ItemBytes(i) + rest;
            && s != [] && s[0] != 0x04 && BodyPiece(s).bytes == ItemBytes(i)
            && ShownBytes(BodyPiece(s)) == ItemShown(i) && EventsOf(BodyPiece(s)) == []
  {
    var s := ItemBytes(i) + rest;
    assert s[..|ItemBytes(i)|] == ItemBytes(i);
    assert s[0] != STRPCCMD_TRIGGER;
    hide FlatMap, ControlWordsLength;
  }

  /** One item, in front of what follows it, is the piece it is printed as. */
  lemma ItemRead(i: Item, rest: seq<byte>)
    requires ItemFits(i, rest)
    ensures var s := ItemBytes(i) + rest;
            && s != [] && s[0] != ESC && BodyPiece(s).bytes == ItemBytes(i)
            && ShownBytes(BodyPiece(s)) == ItemShown(i) && EventsOf(BodyPiece(s)) == ItemReports(i)
  {
    hide BodyPiece, IsPcCommand, FlatMap, HeaderEvents, HeadingReports, PcCommandEvents;
    match i
    case Field(_, _, _, _, _, _) => FieldItem(i, rest);
    case CutField(_, _, _, _) => FieldItem(i, rest);
    case Character(b) => CharacterItem(b, rest);
    case Heading(n, data) => HeadingItem(n, data, rest);
    case Request(flag, command) => RequestItem(flag, command, rest);
    case BareRequest => BareRequestItem(rest);
    case _ => PlainItem(i, rest);
  }

  /**
   Every body printed from items is read as those items: the walk shows exactly
   the shown ones, reports exactly theirs, and stops right behind them.
   */
  lemma {:induction false} BodyRead(items: seq<Item>, rest: seq<byte>)
    requires BodyFits(items, rest) && Ended(rest)
    ensures var s := Body(items) + rest;
            && BodyLength(s) == |Body(items)|
            && Display(BodyPieces(s)) == FlatMap(ItemShown, items)
            && Events(BodyPieces(s)) == FlatMap(ItemReports, items)
    decreases |items|
  {
    hide BodyPiece, BodyPieces, BodyLength, EventsOf, ShownBytes, InBody, ItemFits, ItemBytes, ItemShown, ItemReports;
    var s := Body(items) + rest;
    BodyUnfold(s);
    if items == [] {
      assert s == rest;
    } else {
      var i, tail := items[0], Body(items[1..]) + rest;
      ItemRead(i, tail);
      assert s == ItemBytes(i) + tail && s[|ItemBytes(i)|..] == tail;
      BodyRead(items[1..], rest);
      DisplayCons(BodyPiece(s), BodyPieces(tail));
      EventsCons(BodyPiece(s), BodyPieces(tail));
      FlatMapCons(ItemShown, items);
      FlatMapCons(ItemReports, items);
    }
  }

  // ----- a payload is read as printed

  lemma {:induction false} TextBeforeEsc(text: seq<byte>, rest: seq<byte>)
    requires 0x04 !in text && Ended(rest)
    ensures UntilEsc(text + rest) == |text|
  {
    if text == [] {
      assert text + rest == rest;
    } else {
      assert text[0] in text && forall b | b in text[1..] :: b in text;
      TextBeforeEsc(text[1..], rest);
      assert (text + rest)[1..] == text[1..] + rest;
    }
  }

  lemma FieldsLink(f: seq<byte>, more: seq<byte>)
    requires IsField(f) && f[0] != 0x04
    ensures FieldsLength(f + more) == |f| + FieldsLength(more) && FieldsFit(f + more) == FieldsFit(more)
  {
    var s := f + more;
    assert s[0] == f[0] && s[1] == f[1] && s[|f|..] == more;
  }

  /** The walk over sound fields goes on behind them. */
  lemma {:induction false} FieldsEnd(fields: seq<seq<byte>>, rest: seq<byte>)
    requires SoundFields(fields)
    ensures FieldsLength(Concat(fields) + rest) == |Concat(fields)| + FieldsLength(rest)
    ensures FieldsFit(Concat(fields) + rest) == FieldsFit(rest)
    decreases |fields|
  {
    hide FieldsLength, FieldsFit, IsField;
    if fields == [] {
      assert Concat(fields) + rest == rest;
    } else {
      FlatMapCons(Id, fields);
      hide FlatMap;
      FieldsEnd(fields[1..], rest);
      FieldsLink(fields[0], Concat(fields[1..]) + rest);
      assert Concat(fields) + rest == fields[0] + (Concat(fields[1..]) + rest);
    }
  }

  /** A command and the text up to the next ESC. */
  lemma TextCommand(code: byte, text: seq<byte>, rest: seq<byte>)
    requires 0x04 !in text && Ended(rest)
    ensures var s, b := [0x04, code] + text + rest, [0x04, code] + text;
            s[0] == 0x04 && s[1] == code && s[..2 + UntilEsc(s[2..])] == b && b[2..] == text
  {
    TextBeforeEsc(text, rest);
    hide UntilEsc;
    var s, b := [0x04, code] + text + rest, [0x04, code] + text;
    assert s[2..] == text + rest && s[..|b|] == b;
  }

  lemma TextStep(c: Step, code: byte, rest: seq<byte>)
    requires (c.ErrorText? && code == if c.toWindow then 0x22 else 0x21) || (c.UnknownCode? && code == c.code)
    requires StepFits(c, rest)
    ensures var s := StepBytes(c) + rest;
            s != [] && TopPiece(s).bytes == StepBytes(c) && TopPiece(s).kind != WtdHeader
            && EventsOf(TopPiece(s)) == StepReports(c)
  {
    hide UntilEsc, FieldsLength, FieldsFit;
    TextCommand(code, c.text, rest);
    assert StepBytes(c) == [0x04, code] + c.text;
  }

  lemma NoFields(rest: seq<byte>)
    requires Ended(rest) || |rest| == 1
    ensures FieldsLength(rest) == 0 && FieldsFit([])
  {
  }

  lemma SoundFieldsStep(fields: seq<seq<byte>>, rest: seq<byte>)
    requires StepFits(Fields(fields), rest)
    ensures var s := [0x04, 0xF3] + Concat(fields) + rest;
            TopPiece(s) == Piece(Command, [0x04, 0xF3] + Concat(fields))
            && EventsOf(TopPiece(s)) == [OnWriteStructuredField(Concat(fields))]
  {
    hide FieldsLength, FieldsFit, FlatMap, TopPiece, EventsOf, SoundFields, CommandEvents;
    FieldsEnd(fields, rest);
    FieldsEnd(fields, []);
    NoFields(rest);
    var all := Concat(fields);
    var s := [0x04, 0xF3] + all + rest;
    assert all + [] == all && s[2..] == all + rest && s[..2 + |all|] == [0x04, 0xF3] + all;
    FieldsPieceAt(s, all);
    assert [] + [OnWriteStructuredField(all)] == [OnWriteStructuredField(all)];
  }

  lemma BrokenFieldsStep(fields: seq<seq<byte>>, bad: seq<byte>)
    requires StepFits(BrokenFields(fields, bad), [])
    ensures var s := [0x04, 0xF3] + Concat(fields) + bad;
            TopPiece(s) == Piece(Command, s)
            && EventsOf(TopPiece(s)) == [OnParseError(StructuredFieldLength), OnWriteStructuredField(Concat(fields) + bad)]
  {
    FieldsEnd(fields, bad);
    assert FieldsLength(bad) == |bad| && !FieldsFit(bad);
    hide FieldsLength, FieldsFit, FlatMap, TopPiece, EventsOf, SoundFields;
    var all := Concat(fields) + bad;
    var s := [0x04, 0xF3] + Concat(fields) + bad;
    assert s == [0x04, 0xF3] + all && s[2..] == all && s[..2 + |all|] == [0x04, 0xF3] + all;
    FieldsPieceAt(s, all);
  }

  lemma FieldsPieceAt(s: seq<byte>, all: seq<byte>)
    requires |s| >= 2 + |all| && s[..2 + |all|] == [0x04, 0xF3] + all && FieldsLength(s[2..]) == |all|
    ensures var b := [0x04, 0xF3] + all;
            && TopPiece(s) == Piece(Command, b)
            && EventsOf(TopPiece(s)) ==
                 (if FieldsFit(all) then [] else [OnParseError(StructuredFieldLength)]) + [OnWriteStructuredField(all)]
  {
    hide FieldsLength, FieldsFit;
    assert s[0] == s[..2 + |all|][0] && s[1] == s[..2 + |all|][1];
    assert ([0x04, 0xF3] + all)[2..] == all;
  }

  lemma LooseStep(n: byte, data: seq<byte>, rest: seq<byte>)
    requires Sized(data, n as int, rest)
    ensures var s := [0x01, n] + data + rest;
            TopPiece(s) == Piece(Header, [0x01, n] + data) && EventsOf(TopPiece(s)) == HeadingReports(n, data)
  {
    HeadingItem(n, data, rest);
  }

  lemma RollStep(operands: seq<byte>, rest: seq<byte>)
    requires StepFits(Roll(operands), rest)
    ensures var s := [0x04, 0x23] + operands + rest;
            TopPiece(s) == Piece(Command, [0x04, 0x23] + operands) && EventsOf(TopPiece(s)) == RollReports(operands)
  {
    var s := [0x04, 0x23] + operands + rest;
    assert s[..2 + |operands|] == [0x04, 0x23] + operands;
  }

  lemma PlainStep(c: Step, rest: seq<byte>)
    requires StepFits(c, rest)
    requires c.ClearUnit? || c.ClearUnitAlternate? || c.ClearFormatTable? || c.Read? || c.StrayAt? || c.Dropped?
    ensures var s := StepBytes(c) + rest;
            s != [] && TopPiece(s).bytes == StepBytes(c) && TopPiece(s).kind != WtdHeader
            && EventsOf(TopPiece(s)) == StepReports(c)
  {
    var s := StepBytes(c) + rest;
    assert s[..|StepBytes(c)|] == StepBytes(c);
    if c.Dropped? {
      assert |c.bytes| >= 2 ==> c.bytes[0] == c.bytes[..2][0] && c.bytes[1] == c.bytes[..2][1];
    }
  }

  /** One command, in front of what follows it, is the piece it is printed as. */
  lemma StepRead(c: Step, rest: seq<byte>)
    requires !c.Write? && StepFits(c, rest)
    ensures var s := StepBytes(c) + rest;
            s != [] && TopPiece(s).bytes == StepBytes(c) && TopPiece(s).kind != WtdHeader
            && EventsOf(TopPiece(s)) == StepReports(c)
  {
    match c
    case ErrorText(toWindow, _) => TextStep(c, if toWindow then 0x22 else 0x21, rest);
    case UnknownCode(code, _) => TextStep(c, code, rest);
    case Fields(fields) => SoundFieldsStep(fields, rest);
    case BrokenFields(fields, bad) =>
      BrokenFieldsStep(fields, bad);
      assert StepBytes(c) + rest == StepBytes(c);
    case Loose(n, data) => LooseStep(n, data, rest);
    case Roll(operands) => RollStep(operands, rest);
    case _ => PlainStep(c, rest);
  }

  lemma WriteHead(control1: byte, control2: byte, body: seq<byte>)
    ensures var s := [0x04, 0x11, control1, control2] + body;
            && TopPiece(s) == Piece(WtdHeader, [0x04, 0x11, control1, control2]) && s[4..] == body
            && EventsOf(TopPiece(s)) ==
                 [OnControlCharacters(control1, control2)] + if control2 % 0x10 >= 0x08 then [OnKeyboardUnlock] else []
  {
  }

  lemma WriteStep(control1: byte, control2: byte, items: seq<Item>, rest: seq<byte>)
    requires BodyFits(items, rest) && Ended(rest)
    ensures var c := Write(control1, control2, items);
            var s := StepBytes(c) + rest;
            && Events(Pieces(s)) == StepReports(c) + Events(Pieces(rest))
            && Display(Pieces(s)) == StepShown(c) + Display(Pieces(rest))
  {
    hide TopPiece, Pieces, BodyPieces, BodyLength, BodyPiece, FlatMap, Display, Events, EventsOf, Body, BodyFits;
    var head, body := [0x04, 0x11, control1, control2], Body(items) + rest;
    WriteHead(control1, control2, body);
    assert StepBytes(Write(control1, control2, items)) + rest == head + body;
    BodyRead(items, rest);
    assert body[|Body(items)|..] == rest;
    WtdStep(head + body);
  }

  /** Every payload printed from commands is walked as those commands. */
  lemma {:induction false} PayloadRead(cs: seq<Step>)
    requires PayloadFits(cs)
    ensures Events(Pieces(Payload(cs))) == FlatMap(StepReports, cs)
    ensures Display(Pieces(Payload(cs))) == FlatMap(StepShown, cs)
    decreases |cs|
  {
    hide TopPiece, Pieces, EventsOf, StepBytes, StepReports;
    if cs == [] {
      assert Events(Pieces([])) == [] && Display(Pieces([])) == [] by { NoPieces(); }
    } else {
      var c, rest := cs[0], Payload(cs[1..]);
      FlatMapCons(StepReports, cs);
      FlatMapCons(StepShown, cs);
      hide FlatMap, Display, Events;
      PayloadRead(cs[1..]);
      var s := StepBytes(c) + rest;
      if c.Write? {
        WriteStep(c.control1, c.control2, c.items, rest);
      } else {
        StepRead(c, rest);
        TopStep(s);
        assert s[|StepBytes(c)|..] == rest;
        assert [] + Display(Pieces(rest)) == Display(Pieces(rest));
      }
    }
  }

  lemma NoPieces()
    ensures Events(Pieces([])) == [] && Display(Pieces([])) == []
  {
  }

  // ----- records

  /** A general data stream record; `extra` lengthens its variable header. */
  datatype Printout = Printout(
    reserved1: byte, reserved2: byte, flags: byte, reserved3: byte, opcode: byte,
    extra: seq<byte>, steps: seq<Step>)

  function LengthOf(r: Printout): nat {
    10 + |r.extra| + |Payload(r.steps)|
  }

  predicate Fits(r: Printout) {
    |r.extra| <= 251 && LengthOf(r) <= 65535 && PayloadFits(r.steps)
  }

  function RecordBytes(r: Printout): seq<byte> {
    [Hi(LengthOf(r)), Lo(LengthOf(r)), 0x12, 0xA0, r.reserved1, r.reserved2,
     ((4 + |r.extra|) % 256) as byte, r.flags, r.reserved3, r.opcode] + r.extra + Payload(r.steps)
  }

  function Walked(r: Printout): seq<Event> {
    FlatMap(StepReports, r.steps) + [OnRawScreenData(FlatMap(StepShown, r.steps))]
  }

  /** The callbacks of a record, by its opcode. */
  function RecordReports(r: Printout): seq<Event> {
    if Payload(r.steps) == [] then [OnParseError(IncompleteVariableHeader)]
    else
      match r.opcode
      case 0x01 => [OnInvite]
      case 0x0A => [OnCancelInvite]
      case 0x0B => [OnMessageLightOn]
      case 0x0C => [OnMessageLightOff]
      case 0x02 => Walked(r)
      case 0x03 => Walked(r)
      case 0x04 => [OnSaveScreen] + Walked(r)
      case 0x05 => Walked(r)
      case 0x08 => Walked(r)
      case _ => []
  }

  /** A record that names its own length is cut off whole. */
  lemma OneCutting(rec: seq<byte>)
    requires |rec| >= 6 && rec[0] as int * 256 + rec[1] as int == |rec|
    ensures Cuttings(rec) == [Record(rec)] && Remainder(rec) == []
  {
    CuttingsUnfold(rec);
    CuttingsUnfold([]);
    hide Cuttings, Remainder;
    assert rec[..|rec|] == rec && rec[|rec|..] == [];
    assert [Record(rec)] + [] == [Record(rec)];
  }

  lemma RecordOpcode(r: Printout)
    requires Fits(r)
    ensures var rec := RecordBytes(r);
            && rec[0] as int * 256 + rec[1] as int == |rec| && |rec| >= 10
            && RecordEvents(rec) ==
                 if Payload(r.steps) == [] then [OnParseError(IncompleteVariableHeader)]
                 else OpcodeEvents(r.opcode, Payload(r.steps))
  {
    hide Payload, PayloadFits, OpcodeEvents;
    Be16Inverse(LengthOf(r));
    var rec := RecordBytes(r);
    assert rec[6] as int == 4 + |r.extra|;
    assert rec[10 + |r.extra|..] == Payload(r.steps);
  }

  lemma ParseOne(d: State, rec: seq<byte>)
    requires d.buffer == [] && |rec| >= 6 && rec[0] as int * 256 + rec[1] as int == |rec|
    ensures Parse(d, rec) == State([], d.trace + RecordEvents(rec))
  {
    OneCutting(rec);
    hide FlatMap, Cuttings, Remainder, RecordEvents;
    FlatMapOne(CuttingEvents, Record(rec));
    assert [] + rec == rec;
  }

  lemma PayloadWalked(r: Printout)
    requires PayloadFits(r.steps)
    ensures PayloadEvents(Payload(r.steps)) == Walked(r)
  {
    PayloadRead(r.steps);
    hide FlatMap, Payload, PayloadFits, Pieces, Events, Display;
  }

  lemma OpcodeReports(r: Printout)
    requires PayloadFits(r.steps) && Payload(r.steps) != []
    ensures OpcodeEvents(r.opcode, Payload(r.steps)) == RecordReports(r)
  {
    PayloadWalked(r);
    hide PayloadEvents, Walked, Payload, PayloadFits;
    assert [] + Walked(r) == Walked(r);
  }

  /** What the decoder reports of a printed record is what its bytes say. */
  lemma RecordRead(d: State, r: Printout)
    requires d.buffer == [] && Fits(r)
    ensures Parse(d, RecordBytes(r)) == State([], d.trace + RecordReports(r))
  {
    hide FlatMap, Payload, PayloadFits, RecordBytes, RecordEvents, OpcodeEvents, Parse;
    RecordOpcode(r);
    ParseOne(d, RecordBytes(r));
    if Payload(r.steps) != [] {
      OpcodeReports(r);
    }
  }

  /**
   Records to callbacks: from any list of records, each printed byte by byte
   from its opcode and its commands, cut into reads anywhere, the decoder fires
   exactly the callbacks written out for them, in order, and keeps nothing.
   */
  lemma RecordsRead(d: State, rs: seq<Printout>, chunks: seq<seq<byte>>)
    requires d.buffer == [] && (forall r | r in rs :: Fits(r))
    requires Concat(chunks) == FlatMap(RecordBytes, rs)
    ensures ParseAll(d, chunks) == State([], d.trace + FlatMap(RecordReports, rs))
  {
    hide Parse, ParseAll, FlatMap, RecordBytes, RecordReports;
    ChunkIndependence(d, chunks);
    RecordsInOne(d, rs);
  }

  lemma {:induction false} RecordsInOne(d: State, rs: seq<Printout>)
    requires d.buffer == [] && (forall r | r in rs :: Fits(r))
    ensures Parse(d, FlatMap(RecordBytes, rs)) == State([], d.trace + FlatMap(RecordReports, rs))
  {
    hide Parse, RecordBytes, RecordReports, Fits;
    if rs == [] {
      ParseNothing(d);
      assert d.trace + [] == d.trace;
    } else {
      var front, r := rs[..|rs| - 1], rs[|rs| - 1];
      assert r in rs && forall x | x in front :: x in rs;
      RecordsInOne(d, front);
      ParseTwo(d, FlatMap(RecordBytes, front), RecordBytes(r));
      RecordRead(State([], d.trace + FlatMap(RecordReports, front)), r);
      assert d.trace + FlatMap(RecordReports, front) + RecordReports(r)
          == d.trace + (FlatMap(RecordReports, front) + RecordReports(r));
    }
  }

  /** Every other record that names its own length, and what is reported of it. */
  lemma OddRecords(d: State, rec: seq<byte>)
    requires d.buffer == [] && |rec| >= 6 && rec[0] as int * 256 + rec[1] as int == |rec|
    ensures |rec| == 6 ==> Parse(d, rec) == State([], d.trace + [OnParseError(RecordTooShort)])
    ensures |rec| > 6 && rec[2..4] != [0x12, 0xA0] ==> Parse(d, rec) == State([], d.trace + [OnRawScreenData(rec)])
    ensures |rec| > 6 && rec[2..4] == [0x12, 0xA0] && |rec| < 7 + rec[6] as int ==>
              Parse(d, rec) == State([], d.trace + [OnParseError(IncompleteVariableHeader)])
    ensures |rec| > 6 && rec[2..4] == [0x12, 0xA0] && rec[6] < 4 && |rec| >= 7 + rec[6] as int ==>
              Parse(d, rec) == State([], d.trace + [OnParseError(VariableHeaderTooShort)])
  {
    hide Parse, OpcodeEvents;
    ParseOne(d, rec);
    assert |rec| > 6 ==> rec[2..4] == [rec[2], rec[3]];
  }
}
