/**
 The display orders of tn5250/message/command/order as the codec reads and
 writes them.
 */
module OrderSpec {
  import opened Bytes

  const START_OF_HEADER: byte := 0x01
  const REPEAT_TO_ADDRESS: byte := 0x02
  const INSERT_CURSOR: byte := 0x03
  const SET_BUFFER_ADDRESS: byte := 0x11
  const START_FIELD: byte := 0x1D

  predicate IsOrderCode(b: byte) {
    b in {START_OF_HEADER, REPEAT_TO_ADDRESS, INSERT_CURSOR, SET_BUFFER_ADDRESS, START_FIELD}
  }

  newtype word = x: int | 0 <= x < 0x1_0000

  /** An order; `code` is the byte written for it, whatever its kind. */
  datatype Order =
    | Soh(code: byte, length: byte, flags: byte, flagsReserved: byte, resequenceToField: byte,
          errorRow: byte, keySwitch1: byte, keySwitch2: byte, keySwitch3: byte)
    | Ic(code: byte, row: byte, column: byte)
    | Ra(code: byte, row: byte, column: byte, text: seq<byte>)
    | Sba(code: byte, row: byte, column: byte, text: seq<byte>)
    | Sf(code: byte, formatWord1: byte, formatWord2: byte, controlWords: seq<word>,
         attributes: byte, fieldLength: word, text: seq<byte>)

  function WordBytes(w: word): seq<byte> {
    [Hi(w as int), Lo(w as int)]
  }

  /** The wire form. A start field writes the length of its text in 16 bits, not its `fieldLength`. */
  function Marshal(o: Order): seq<byte> {
    match o
    case Soh(code, length, flags, flagsReserved, resequence, errorRow, key1, key2, key3) =>
      [code, length, flags, flagsReserved, resequence, errorRow, key1, key2, key3]
    case Ic(code, row, column) => [code, row, column]
    case Ra(code, row, column, text) => [code, row, column, if text == [] then 0 else text[0]]
    case Sba(code, row, column, text) => [code, row, column] + text
    case Sf(code, word1, word2, controlWords, attributes, _, text) =>
      [code, word1, word2] + FlatMap(WordBytes, controlWords)
      + [attributes, Hi(|text|), Lo(|text|)] + text
  }

  function MarshalAll(os: seq<Order>): seq<byte> {
    FlatMap(Marshal, os)
  }

  datatype Parsed = NoOrder | AnOrder(read: nat, order: Order)

  /** The bytes before the next order code. */
  function TextLength(s: seq<byte>): (n: nat)
    ensures n <= |s|
  {
    if s == [] || IsOrderCode(s[0]) then 0 else 1 + TextLength(s[1..])
  }

  function ParseSba(s: seq<byte>): Parsed {
    if |s| < 3 || s[0] != SET_BUFFER_ADDRESS then NoOrder
    else
      var n := 3 + TextLength(s[3..]);
      AnOrder(n, Sba(s[0], s[1], s[2], s[3..n]))
  }

  /** Bytes taken two by two. */
  function Words(s: seq<byte>): seq<word> {
    if |s| < 2 then [] else [Be16(s[0], s[1]) as word] + Words(s[2..])
  }

  function ParseSf(s: seq<byte>): Parsed {
    if |s| < 5 || s[0] != START_FIELD then NoOrder
    else
      var attr := 3 + ControlWordsLength(s[3..]);
      if attr + 2 >= |s| then NoOrder
      else
        var length := Be16(s[attr + 1], s[attr + 2]);
        var n := if attr + 3 + length < |s| then attr + 3 + length else |s|;
        AnOrder(n, Sf(s[0], s[1], s[2], Words(s[3..attr]), s[attr], length as word, s[attr + 3..n]))
  }

  function ParseOrder(s: seq<byte>): Parsed {
    if s == [] then NoOrder
    else if s[0] == START_OF_HEADER then
      if |s| < 9 then NoOrder else AnOrder(9, Soh(s[0], s[1], s[2], s[3], s[4], s[5], s[6], s[7], s[8]))
    else if s[0] == REPEAT_TO_ADDRESS then
      if |s| < 4 then NoOrder else AnOrder(4, Ra(s[0], s[1], s[2], [s[3]]))
    else if s[0] == INSERT_CURSOR then
      if |s| < 3 then NoOrder else AnOrder(3, Ic(s[0], s[1], s[2]))
    else if s[0] == SET_BUFFER_ADDRESS then ParseSba(s)
    else if s[0] == START_FIELD then ParseSf(s)
    else NoOrder
  }

  lemma ParseOrderReads(s: seq<byte>)
    ensures ParseOrder(s).AnOrder? ==> 0 < ParseOrder(s).read <= |s|
  {
  }

  datatype Scan = Failed | Orders(orders: seq<Order>)

  /** The orders of a buffer; bytes between orders are passed over, one bad order fails the buffer. */
  function ScanOrders(s: seq<byte>): Scan
    decreases |s|
  {
    ParseOrderReads(s);
    if s == [] then Orders([])
    else if !IsOrderCode(s[0]) then ScanOrders(s[1..])
    else
      var p := ParseOrder(s);
      if p.NoOrder? then Failed
      else
        var rest := ScanOrders(s[p.read..]);
        if rest.Failed? then Failed else Orders([p.order] + rest.orders)
  }

  /** `unmarshalOrders`, which returns no orders on failure. */
  function UnmarshalOrders(s: seq<byte>): seq<Order> {
    var r := ScanOrders(s);
    if r.Failed? then [] else r.orders
  }

  /** An order with the length of its text as its length. */
  function Canon(o: Order): Order {
    if o.Sf? then o.(fieldLength := (|o.text| % 0x1_0000) as word) else o
  }

  /** An order whose wire form says all there is to it. */
  predicate WellFormed(o: Order) {
    match o
    case Soh(code, _, _, _, _, _, _, _, _) => code == START_OF_HEADER
    case Ic(code, _, _) => code == INSERT_CURSOR
    case Ra(code, _, _, text) => code == REPEAT_TO_ADDRESS && |text| == 1
    case Sba(code, _, _, text) => code == SET_BUFFER_ADDRESS && TextLength(text) == |text|
    case Sf(code, _, _, controlWords, attributes, length, text) =>
      && code == START_FIELD
      && (forall k :: 0 <= k < |controlWords| ==> !IsAttribute(Hi(controlWords[k] as int)))
      && IsAttribute(attributes)
      && length as int == |text|
  }
}
