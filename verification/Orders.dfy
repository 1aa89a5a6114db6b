/**
 The order codec of tn5250/message/command/order: the objects that read and
 write an order, and the loop that reads a buffer of them.
 */
module Orders {
  import opened Bytes
  import opened OrderSpec

  /** order_sba_set_buffer_address.cpp */
  class SetBufferAddress {
    var code: byte
    var rowAddress: byte
    var columnAddress: byte
    var repeatedCharacter: seq<byte>

    function Value(): Order
      reads this
    {
      Sba(code, rowAddress, columnAddress, repeatedCharacter)
    }

    constructor ()
      ensures Value() == Sba(0, 0, 0, [])
    {
      code, rowAddress, columnAddress, repeatedCharacter := 0, 0, 0, [];
    }

    /** The bytes read, or 0 with every field as it was. */
    method Unmarshal(buffer: seq<byte>) returns (read: nat)
      modifies this
      ensures match ParseSba(buffer)
              case NoOrder => read == 0 && Value() == old(Value())
              case AnOrder(n, o) => read == n && Value() == o
    {
      if |buffer| < 3 {
        return 0;
      }
      read := 0;
      if buffer[read] != SET_BUFFER_ADDRESS {
        return 0;
      }
      code := buffer[read];
      read := read + 1;
      rowAddress := buffer[read];
      read := read + 1;
      columnAddress := buffer[read];
      read := read + 1;
      repeatedCharacter := [];
      while read < |buffer| && !IsOrderCode(buffer[read])
        invariant 3 <= read <= |buffer| && repeatedCharacter == buffer[3..read]
        invariant code == buffer[0] && rowAddress == buffer[1] && columnAddress == buffer[2]
        invariant read - 3 + TextLength(buffer[read..]) == TextLength(buffer[3..])
        decreases |buffer| - read
      {
        assert buffer[read..][1..] == buffer[read + 1..];
        repeatedCharacter := repeatedCharacter + [buffer[read]];
        read := read + 1;
      }
    }

    method Marshal() returns (buffer: seq<byte>)
      ensures buffer == OrderSpec.Marshal(Value())
    {
      buffer := [code];
      buffer := buffer + [rowAddress];
      buffer := buffer + [columnAddress];
      buffer := buffer + repeatedCharacter;
    }
  }

  /** The fields of a start field that a failed reading of `s` leaves, from those before it. */
  function SfAbandoned(s: seq<byte>, before: Order): Order
    requires before.Sf?
  {
    if |s| < 5 || s[0] != START_FIELD then before
    else
      var attr := 3 + ControlWordsLength(s[3..]);
      before.(code := s[0], formatWord1 := s[1], formatWord2 := s[2], controlWords := Words(s[3..attr]),
              attributes := if attr < |s| then s[attr] else before.attributes)
  }

  /** order_sf_start_field.cpp */
  class StartField {
    var code: byte
    var formatWord1: byte
    var formatWord2: byte
    var controlWords: seq<word>
    var attributes: byte
    var length: word
    var repeatedCharacter: seq<byte>

    function Value(): (o: Order)
      reads this
      ensures o.Sf?
    {
      Sf(code, formatWord1, formatWord2, controlWords, attributes, length, repeatedCharacter)
    }

    constructor ()
      ensures Value() == Sf(0, 0, 0, [], 0, 0, [])
    {
      code, formatWord1, formatWord2, controlWords := 0, 0, 0, [];
      attributes, length, repeatedCharacter := 0, 0, [];
    }

    /** The bytes read, or 0 on failure, when the fields read before it stay overwritten. */
    method Unmarshal(buffer: seq<byte>) returns (read: nat)
      modifies this
      ensures match ParseSf(buffer)
              case NoOrder => read == 0 && Value() == SfAbandoned(buffer, old(Value()))
              case AnOrder(n, o) => read == n && Value() == o
    {
      hide ControlWordsLength, Words;
      if |buffer| < 5 {
        return 0;
      }
      read := 0;
      if buffer[read] != START_FIELD {
        return 0;
      }
      code := buffer[read];
      read := read + 1;
      formatWord1 := buffer[read];
      read := read + 1;
      formatWord2 := buffer[read];
      read := read + 1;
      read, controlWords := ReadControlWords(buffer, read);
      if read >= |buffer| {
        return 0;
      }
      attributes := buffer[read];
      read := read + 1;
      if read + 1 >= |buffer| {
        return 0;
      }
      length := Be16(buffer[read], buffer[read + 1]) as word;
      read := read + 2;
      repeatedCharacter := [];
      ghost var start := read;
      ghost var before := (code, formatWord1, formatWord2, controlWords, attributes, length);
      var i: word := 0;
      while i < length
        invariant 0 <= i <= length && read == start + i as nat <= |buffer|
        invariant repeatedCharacter == buffer[start..read]
        invariant before == (code, formatWord1, formatWord2, controlWords, attributes, length)
        decreases length - i
      {
        if read >= |buffer| {
          break;
        }
        repeatedCharacter := repeatedCharacter + [buffer[read]];
        read := read + 1;
        i := i + 1;
      }
    }

    /** The loop over field control words. */
    static method ReadControlWords(buffer: seq<byte>, start: nat) returns (read: nat, controlWords: seq<word>)
      requires start <= |buffer|
      ensures read == start + ControlWordsLength(buffer[start..]) && read <= |buffer|
      ensures controlWords == Words(buffer[start..read])
    {
      read, controlWords := start, [];
      assert buffer[start..read] == [];
      while read + 1 < |buffer| && !IsAttribute(buffer[read])
        invariant start <= read <= |buffer| && (read - start) % 2 == 0
        invariant read - start + ControlWordsLength(buffer[read..]) == ControlWordsLength(buffer[start..])
        invariant controlWords == Words(buffer[start..read])
        decreases |buffer| - read
      {
        assert buffer[read..][2..] == buffer[read + 2..];
        WordsSnoc(buffer[start..read], buffer[read], buffer[read + 1]);
        assert buffer[start..read + 2] == buffer[start..read] + [buffer[read], buffer[read + 1]];
        controlWords := controlWords + [Be16(buffer[read], buffer[read + 1]) as word];
        read := read + 2;
      }
    }

    method Marshal() returns (buffer: seq<byte>)
      ensures buffer == OrderSpec.Marshal(Value())
    {
      buffer := [code];
      buffer := buffer + [formatWord1];
      buffer := buffer + [formatWord2];
      for k := 0 to |controlWords|
        invariant buffer == [code, formatWord1, formatWord2] + FlatMap(WordBytes, controlWords[..k])
      {
        var controlWord := controlWords[k];
        FlatMapSnoc(WordBytes, controlWords[..k], controlWord);
        assert controlWords[..k + 1] == controlWords[..k] + [controlWord];
        buffer := buffer + [Hi(controlWord as int), Lo(controlWord as int)];
      }
      assert controlWords[..|controlWords|] == controlWords;
      buffer := buffer + [attributes];
      var realLength := |repeatedCharacter| % 0x1_0000;
      buffer := buffer + [Hi(realLength)];
      buffer := buffer + [Lo(realLength)];
      TruncatedLength(|repeatedCharacter|);
      buffer := buffer + repeatedCharacter;
    }
  }

  lemma {:induction false} WordsSnoc(s: seq<byte>, hi: byte, lo: byte)
    requires |s| % 2 == 0
    ensures Words(s + [hi, lo]) == Words(s) + [Be16(hi, lo) as word]
  {
    if s == [] {
      assert s + [hi, lo] == [hi, lo] && [hi, lo][2..] == [];
    } else {
      WordsSnoc(s[2..], hi, lo);
      assert (s + [hi, lo])[2..] == s[2..] + [hi, lo];
    }
  }

  lemma TruncatedLength(n: nat)
    ensures Hi(n % 0x1_0000) == Hi(n) && Lo(n % 0x1_0000) == Lo(n)
  {
    var q, r := n / 0x1_0000, n % 0x1_0000;
    assert n == 0x100 * (0x100 * q) + r;
    assert n / 0x100 == 0x100 * q + r / 0x100;
  }

  /** `unmarshalOrder`: the bytes read and the order, or 0. */
  method UnmarshalOrder(buffer: seq<byte>) returns (read: nat, out: Order)
    ensures match ParseOrder(buffer)
            case NoOrder => read == 0
            case AnOrder(n, o) => read == n && out == o
  {
    read, out := 0, Soh(0, 0, 0, 0, 0, 0, 0, 0, 0);
    if |buffer| < 1 {
      return;
    }
    var orderByte := buffer[0];
    if orderByte == START_OF_HEADER {
      if |buffer| >= 9 {
        read := 9;
        out := Soh(buffer[0], buffer[1], buffer[2], buffer[3], buffer[4], buffer[5], buffer[6], buffer[7], buffer[8]);
      }
    } else if orderByte == REPEAT_TO_ADDRESS {
      if |buffer| >= 4 {
        read, out := 4, Ra(buffer[0], buffer[1], buffer[2], [buffer[3]]);
      }
    } else if orderByte == INSERT_CURSOR {
      if |buffer| >= 3 {
        read, out := 3, Ic(buffer[0], buffer[1], buffer[2]);
      }
    } else if orderByte == SET_BUFFER_ADDRESS {
      var sba := new SetBufferAddress();
      read := sba.Unmarshal(buffer);
      out := sba.Value();
    } else if orderByte == START_FIELD {
      var sf := new StartField();
      read := sf.Unmarshal(buffer);
      out := sf.Value();
    }
  }

  /** `unmarshalOrders`: all orders of a buffer, or none on failure. */
  method UnmarshalAll(buffer: seq<byte>) returns (orders: seq<Order>)
    ensures orders == UnmarshalOrders(buffer)
  {
    hide ParseOrder;
    orders := [];
    var offset := 0;
    while offset < |buffer|
      invariant 0 <= offset <= |buffer|
      invariant ScanOrders(buffer) == Prepend(orders, ScanOrders(buffer[offset..]))
      decreases |buffer| - offset
    {
      offset := SkipToOrder(buffer, offset);
      if offset >= |buffer| {
        break;
      }
      var sub := buffer[offset..];
      ParseOrderReads(sub);
      var read, ord := UnmarshalOrder(sub);
      if read == 0 {
        return [];
      }
      assert sub[read..] == buffer[offset + read..];
      orders := orders + [ord];
      offset := offset + read;
    }
    assert buffer[offset..] == [] && orders + [] == orders;
  }

  /** A scan with orders already found in front of it. */
  function Prepend(orders: seq<Order>, scan: Scan): Scan {
    if scan.Failed? then Failed else Orders(orders + scan.orders)
  }

  /** The inner loop: the next index that holds an order code, if any. */
  method SkipToOrder(buffer: seq<byte>, start: nat) returns (offset: nat)
    requires start <= |buffer|
    ensures start <= offset <= |buffer| && (offset < |buffer| ==> IsOrderCode(buffer[offset]))
    ensures forall k :: start <= k < offset ==> !IsOrderCode(buffer[k])
    ensures ScanOrders(buffer[offset..]) == ScanOrders(buffer[start..])
  {
    offset := start;
    while offset < |buffer| && !IsOrderCode(buffer[offset])
      invariant start <= offset <= |buffer| && forall k :: start <= k < offset ==> !IsOrderCode(buffer[k])
      invariant ScanOrders(buffer[offset..]) == ScanOrders(buffer[start..])
      decreases |buffer| - offset
    {
      assert buffer[offset..][1..] == buffer[offset + 1..];
      offset := offset + 1;
    }
  }

  /** The visitor that marshals whichever order it is given. */
  method MarshalOrder(o: Order) returns (bytes: seq<byte>)
    ensures bytes == OrderSpec.Marshal(o)
  {
    match o
    case Soh(code, length, flags, flagsReserved, resequence, errorRow, key1, key2, key3) =>
      bytes := [code, length, flags, flagsReserved, resequence, errorRow, key1, key2, key3];
    case Ic(code, row, column) =>
      bytes := [code, row, column];
    case Ra(code, row, column, text) =>
      bytes := [code, row, column, if text == [] then 0 else text[0]];
    case Sba(code, row, column, text) =>
      var sba := new SetBufferAddress();
      sba.code, sba.rowAddress, sba.columnAddress, sba.repeatedCharacter := code, row, column, text;
      bytes := sba.Marshal();
    case Sf(code, word1, word2, controlWords, attributes, length, text) =>
      var sf := new StartField();
      sf.code, sf.formatWord1, sf.formatWord2, sf.controlWords := code, word1, word2, controlWords;
      sf.attributes, sf.length, sf.repeatedCharacter := attributes, length, text;
      bytes := sf.Marshal();
  }
}
