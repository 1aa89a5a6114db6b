/** The class of tn5250/client/decoder.cpp, proved against DecoderSpec. */
module Decoder {
  import opened Bytes
  import opened DecoderSpec
  import opened DecoderProofs
  import Gds

  /** What is left of `payload` at an index that may have run past its end. */
  function Rest(payload: seq<byte>, i: nat): seq<byte> {
    if i <= |payload| then payload[i..] else []
  }

  /** One body piece adds its reports and, if shown, its bytes. */
  lemma BodyPieceStep(s: seq<byte>)
    requires s != [] && s[0] != ESC
    ensures var p := BodyPiece(s);
            var rest := s[|p.bytes|..];
            && Events(BodyPieces(s)) == EventsOf(p) + Events(BodyPieces(rest))
            && Display(BodyPieces(s)) == ShownBytes(p) + Display(BodyPieces(rest))
            && BodyLength(s) == |p.bytes| + BodyLength(rest)
  {
    hide BodyPiece, BodyPieces, BodyLength, EventsOf, Display, Events, InBody, ShownBytes;
    BodyUnfold(s);
    EventsCons(BodyPiece(s), BodyPieces(s[|BodyPiece(s).bytes|..]));
    DisplayCons(BodyPiece(s), BodyPieces(s[|BodyPiece(s).bytes|..]));
  }

  lemma WalkEnds()
    ensures Events(Pieces([])) == [] && Display(Pieces([])) == [] && Events([]) == [] && Display([]) == []
  {
  }

  /** A truncated end of the payload is dropped. */
  lemma EndsHere(s: seq<byte>)
    requires s != [] && TopPiece(s) == Piece(Cut, s)
    ensures Events(Pieces(s)) == [] && Display(Pieces(s)) == []
  {
    TopStep(s);
    WalkEnds();
    assert s[|s|..] == [];
  }

  /** Which payloads start with which kind of piece. */
  lemma TopKinds(s: seq<byte>)
    requires s != []
    ensures TopPiece(s).kind == WtdHeader <==> |s| >= 4 && s[0] == ESC && s[1] == CC_WRITE_TO_DISPLAY
    ensures |s| < 2 && (s[0] == ESC || s[0] == SOH) ==> TopPiece(s) == Piece(Cut, s)
    ensures 2 <= |s| < 4 && s[0] == ESC && s[1] == CC_WRITE_TO_DISPLAY ==> TopPiece(s) == Piece(Cut, s)
    ensures s[0] != ESC && s[0] != SOH ==> TopPiece(s) == Piece(Stray, s[..1]) && EventsOf(TopPiece(s)) == [OnParseError(StrayByte(s[0]))]
  {
  }

  lemma Regroup<T>(a: seq<T>, b: seq<T>, c: seq<T>)
    ensures a + (b + c) == a + b + c
  {
  }

  /** What the framing loop has yet to report of `buffer`. */
  ghost function Pending(buffer: seq<byte>): seq<Event> {
    FlatMap(CuttingEvents, Cuttings(buffer))
  }

  /** One turn of the framing loop, as the callbacks see it. */
  lemma FrameStep(buffer: seq<byte>)
    ensures match NextTurn(buffer)
            case Wait => Pending(buffer) == [] && Remainder(buffer) == buffer
            case Take(cut) =>
              var rest := buffer[|CuttingBytes(cut)|..];
              && |rest| < |buffer| && Remainder(buffer) == Remainder(rest)
              && Pending(buffer) == CuttingEvents(cut) + Pending(rest)
  {
    hide NextTurn, Cuttings, Remainder, CuttingEvents;
    CuttingsUnfold(buffer);
    var turn := NextTurn(buffer);
    if turn.Take? {
      TurnTakes(buffer);
      FlatMapAppend(CuttingEvents, [turn.cut], Cuttings(buffer[|CuttingBytes(turn.cut)|..]));
      FlatMapOne(CuttingEvents, turn.cut);
    }
  }

  datatype ParserState = WaitingForCommand | ReadingLength | ReadingData | Complete

  class Decoder {
    var state: ParserState
    var buffer: seq<byte>
    ghost var trace: seq<Event>

    ghost function View(): State
      reads this
    {
      State(buffer, trace)
    }

    constructor ()
      ensures state == WaitingForCommand && View() == State([], [])
    {
      state, buffer, trace := WaitingForCommand, [], [];
    }

    /** `Decoder::reset` sets only the parser state, which no parsing method reads or writes; waiting bytes stay. */
    method Reset()
      modifies `state
      ensures state == WaitingForCommand
    {
      state := WaitingForCommand;
    }

    method ParseData(data: seq<byte>)
      modifies `buffer, `trace
      ensures View() == Parse(old(View()), data)
    {
      hide NextTurn, Remainder, CuttingEvents, CuttingBytes;
      buffer := buffer + data;
      ghost var all, before := buffer, trace;
      assert Parse(old(View()), data) == State(Remainder(all), before + Pending(all));
      hide Pending, Parse;
      while true
        invariant before + Pending(all) == trace + Pending(buffer)
        invariant Remainder(all) == Remainder(buffer)
        decreases |buffer|
      {
        FrameStep(buffer);
        var stop := FrameTurn();
        if stop {
          break;
        }
      }
      assert trace + [] == trace;
    }

    /** One turn of that loop; `stop` says that the buffer holds no whole record. */
    method FrameTurn() returns (stop: bool)
      modifies `buffer, `trace
      ensures match old(NextTurn(buffer))
              case Wait => stop && View() == old(View())
              case Take(cut) =>
                !stop && buffer == old(buffer)[|CuttingBytes(cut)|..] && trace == old(trace) + CuttingEvents(cut)
    {
      hide RecordEvents;
      if |buffer| < Gds.MIN_RECORD_LEN {
        return true;
      }
      var recLen := Be16(buffer[0], buffer[1]);
      if recLen < Gds.MIN_RECORD_LEN || recLen > Gds.MAX_RECORD_LEN {
        buffer := buffer[1..];
        assert trace + [] == trace;
        return false;
      }
      if |buffer| < recLen {
        return true;
      }
      var rec := buffer[..recLen];
      buffer := buffer[recLen..];
      ProcessRecord(rec);
      stop := false;
    }

    /** The rest of the loop body of `parseData`, from a record cut off the buffer. */
    method ProcessRecord(rec: seq<byte>)
      modifies `trace
      ensures trace == old(trace) + RecordEvents(rec)
    {
      hide Pieces, Events, Display;
      if |rec| < 7 {
        trace := trace + [OnParseError(RecordTooShort)];
        return;
      }
      var r2, r3 := rec[2], rec[3];
      if !(r2 == Gds.RECORD_TYPE_HI && r3 == Gds.RECORD_TYPE_LO) {
        trace := trace + [OnRawScreenData(rec)];
        return;
      }
      var varHdrStart := 6;
      var varLen := rec[varHdrStart] as int;
      if |rec| < varHdrStart + 1 + varLen {
        trace := trace + [OnParseError(IncompleteVariableHeader)];
        return;
      }
      if varLen < 4 {
        trace := trace + [OnParseError(VariableHeaderTooShort)];
        return;
      }
      var opcode := rec[varHdrStart + 3];
      var payload := rec[varHdrStart + varLen..];
      ProcessOpcode(opcode, payload);
    }

    method ProcessOpcode(opcode: byte, payload: seq<byte>)
      modifies `trace
      ensures trace == old(trace) + OpcodeEvents(opcode, payload)
    {
      hide Pieces, Events, Display;
      if opcode == OPCODE_SAVE_SCREEN {
        trace := trace + [OnSaveScreen];
      }
      if opcode == OPCODE_INVITE {
        trace := trace + [OnInvite];
        return;
      }
      if opcode == OPCODE_CANCEL_INVITE {
        trace := trace + [OnCancelInvite];
        return;
      }
      if opcode == OPCODE_MSG_LIGHT_ON {
        trace := trace + [OnMessageLightOn];
        return;
      }
      if opcode == OPCODE_MSG_LIGHT_OFF {
        trace := trace + [OnMessageLightOff];
        return;
      }
      if opcode == OPCODE_OUTPUT_ONLY || opcode == OPCODE_PUT_GET || opcode == OPCODE_RESTORE
         || opcode == OPCODE_SAVE_SCREEN || opcode == OPCODE_READ_SCREEN {
        var display := WalkPayload(payload);
        ghost var reports, last := Events(Pieces(payload)), [OnRawScreenData(display)];
        assert old(trace) + [OnSaveScreen] + reports + last == old(trace) + ([OnSaveScreen] + (reports + last));
        assert old(trace) + reports + last == old(trace) + ([] + (reports + last));
        trace := trace + [OnRawScreenData(display)];
      }
    }

    /** The walk over a payload: reports as it goes, and the display. */
    method WalkPayload(payload: seq<byte>) returns (display: seq<byte>)
      modifies `trace
      ensures trace == old(trace) + Events(Pieces(payload))
      ensures display == Display(Pieces(payload))
    {
      hide Pieces, Events, Display;
      display := [];
      var i := 0;
      ghost var before := trace;
      while i < |payload|
        invariant before + Events(Pieces(payload)) == trace + Events(Pieces(Rest(payload, i)))
        invariant Display(Pieces(payload)) == display + Display(Pieces(Rest(payload, i)))
        decreases |payload| - i
      {
        var stop, next;
        stop, next, display := TopTurn(payload, i, display);
        if stop {
          break;
        }
        i := next;
      }
      if i >= |payload| {
        assert Rest(payload, i) == [];
        WalkEnds();
      }
      assert trace + [] == trace && display + [] == display;
    }

    /** One turn of that loop; `stop` says that a truncated command or header ends the walk. */
    method TopTurn(payload: seq<byte>, i: nat, display: seq<byte>)
      returns (stop: bool, next: nat, display': seq<byte>)
      requires i < |payload|
      modifies `trace
      ensures var s := payload[i..];
              if stop then
                next == i && display' == display && trace == old(trace)
                && Events(Pieces(s)) == [] && Display(Pieces(s)) == []
              else
                && next > i
                && old(trace) + Events(Pieces(s)) == trace + Events(Pieces(Rest(payload, next)))
                && display + Display(Pieces(s)) == display' + Display(Pieces(Rest(payload, next)))
    {
      hide Pieces, Events, Display, TopPiece, BodyPieces, BodyLength, EventsOf;
      ghost var s := payload[i..];
      TopKinds(s);
      stop, next, display' := false, i, display;
      var ch := payload[i];
      if (ch == ESC || ch == SOH) && i + 1 >= |payload| {
        EndsHere(s);
        stop := true;
      } else if ch == ESC && payload[i + 1] == CC_WRITE_TO_DISPLAY {
        if i + 3 >= |payload| {
          EndsHere(s);
          stop := true;
        } else {
          WtdStep(s);
          next, display' := WriteToDisplay(payload, i, display);
          ghost var body := s[4..];
          ghost var rest := body[BodyLength(body)..];
          assert Rest(payload, next) == rest;
          Regroup(old(trace), EventsOf(TopPiece(s)) + Events(BodyPieces(body)), Events(Pieces(rest)));
          Regroup(old(trace), EventsOf(TopPiece(s)), Events(BodyPieces(body)));
          Regroup(display, Display(BodyPieces(body)), Display(Pieces(rest)));
        }
      } else {
        TopStep(s);
        if ch == ESC {
          next := Command(payload, i);
        } else if ch == SOH {
          next := TopHeader(payload, i);
        } else {
          trace := trace + [OnParseError(StrayByte(ch))];
          next := i + 1;
          assert Rest(payload, next) == s[1..];
        }
        Regroup(old(trace), EventsOf(TopPiece(s)), Events(Pieces(Rest(payload, next))));
      }
    }

    /** The bytes of `payload` from `start` to the next ESC, read one by one. */
    static method ReadToEsc(payload: seq<byte>, start: nat) returns (j: nat, read: seq<byte>)
      requires start <= |payload|
      ensures j == start + UntilEsc(payload[start..]) && j <= |payload| && read == payload[start..j]
    {
      j, read := start, [];
      while j < |payload|
        invariant start <= j <= |payload| && read == payload[start..j]
        invariant j - start + UntilEsc(payload[j..]) == UntilEsc(payload[start..])
        decreases |payload| - j
      {
        if payload[j] == ESC {
          break;
        }
        assert payload[j..][1..] == payload[j + 1..];
        read := read + [payload[j]];
        j := j + 1;
      }
    }

    /** The walk over structured fields; `ok` is false where the source reports a bad length. */
    static method WalkFields(payload: seq<byte>, start: nat) returns (j: nat, ok: bool)
      requires start <= |payload|
      ensures j == start + FieldsLength(payload[start..]) && j <= |payload|
      ensures ok == FieldsFit(payload[start..])
    {
      j, ok := start, true;
      while j + 1 < |payload|
        invariant start <= j <= |payload|
        invariant j - start + FieldsLength(payload[j..]) == FieldsLength(payload[start..])
        invariant FieldsFit(payload[j..]) == FieldsFit(payload[start..])
        decreases |payload| - j
      {
        ghost var s := payload[j..];
        if payload[j] == ESC {
          break;
        }
        var sfLen := Be16(payload[j], payload[j + 1]);
        assert s[0] == payload[j] && s[1] == payload[j + 1];
        if sfLen < 2 || j + sfLen > |payload| {
          return |payload|, false;
        }
        assert s[sfLen..] == payload[j + sfLen..];
        j := j + sfLen;
      }
    }

    /** A command other than Write To Display. */
    method Command(payload: seq<byte>, i: nat) returns (next: nat)
      requires i + 1 < |payload| && payload[i] == ESC && payload[i + 1] != CC_WRITE_TO_DISPLAY
      modifies `trace
      ensures var p := TopPiece(payload[i..]);
              && trace == old(trace) + EventsOf(p)
              && next > i && Rest(payload, next) == payload[i..][|p.bytes|..]
    {
      hide FieldsLength, FieldsFit, UntilEsc;
      ghost var s := payload[i..];
      assert s[2..] == payload[i + 2..] && s[0] == ESC && s[1] == payload[i + 1];
      var cc := payload[i + 1];
      if cc == CC_CLEAR_UNIT {
        trace := trace + [OnClearScreen];
        return i + 2;
      }
      if cc == CC_CLEAR_UNIT_ALTERNATE {
        trace := trace + [OnClearScreenAlternate];
        return i + 2;
      }
      if cc == CC_WRITE_ERROR_CODE || cc == CC_WRITE_ERROR_CODE_TO_WINDOW {
        next := ErrorCode(payload, i);
        return;
      }
      if cc == CC_ROLL {
        next := Roll(payload, i);
        return;
      }
      if cc == CC_READ_INPUT_FIELDS || cc == CC_READ_MDT_FIELDS || cc == CC_READ_IMMEDIATE {
        trace := trace + [OnCommandReceived(cc)];
        return i + 4;
      }
      if cc == CC_CLEAR_FORMAT_TABLE {
        trace := trace + [OnClearFormatTable];
        return i + 2;
      }
      if cc == CC_READ_SCREEN || cc == CC_READ_SCREEN_ALT {
        trace := trace + [OnReadScreen(cc == CC_READ_SCREEN_ALT)];
        return i + 4;
      }
      if cc == CC_WRITE_STRUCTURED_FIELD {
        next := StructuredFields(payload, i);
        return;
      }
      trace := trace + [OnParseError(UnknownCommand(cc))];
      var k, _ := ReadToEsc(payload, i + 2);
      next := k;
    }

    method ErrorCode(payload: seq<byte>, i: nat) returns (next: nat)
      requires i + 1 < |payload| && payload[i] == ESC
      requires payload[i + 1] == CC_WRITE_ERROR_CODE || payload[i + 1] == CC_WRITE_ERROR_CODE_TO_WINDOW
      modifies `trace
      ensures var p := TopPiece(payload[i..]);
              && trace == old(trace) + EventsOf(p)
              && next > i && Rest(payload, next) == payload[i..][|p.bytes|..]
    {
      hide UntilEsc;
      ghost var s := payload[i..];
      var j, errData := ReadToEsc(payload, i + 2);
      assert s[2..] == payload[i + 2..] && s[0] == ESC && s[1] == payload[i + 1];
      assert TopPiece(s) == Piece(DecoderSpec.Command, s[..j - i]);
      assert s[..j - i] == payload[i..j] && payload[i..j][2..] == errData;
      trace := trace + [OnWriteErrorCode(errData)];
      return j;
    }

    method Roll(payload: seq<byte>, i: nat) returns (next: nat)
      requires i + 1 < |payload| && payload[i] == ESC && payload[i + 1] == CC_ROLL
      modifies `trace
      ensures var p := TopPiece(payload[i..]);
              && trace == old(trace) + EventsOf(p)
              && next > i && Rest(payload, next) == payload[i..][|p.bytes|..]
    {
      if i + 3 < |payload| {
        var ctrl1, ctrl2 := payload[i + 2], payload[i + 3];
        var up := ctrl1 >= 0x80;
        var lineCount := ctrl2 % 32;
        var topRow, botRow := 0, 0;
        if i + 5 < |payload| {
          topRow := RowBefore(payload[i + 4]);
          botRow := RowBefore(payload[i + 5]);
          next := i + 6;
        } else {
          next := i + 4;
        }
        trace := trace + [OnRoll(topRow, botRow, lineCount, up)];
      } else {
        next := i + 4;
      }
    }

    method StructuredFields(payload: seq<byte>, i: nat) returns (next: nat)
      requires i + 1 < |payload| && payload[i] == ESC && payload[i + 1] == CC_WRITE_STRUCTURED_FIELD
      modifies `trace
      ensures var p := TopPiece(payload[i..]);
              && trace == old(trace) + EventsOf(p)
              && next > i && Rest(payload, next) == payload[i..][|p.bytes|..]
    {
      hide FieldsLength, FieldsFit;
      ghost var s := payload[i..];
      assert s[2..] == payload[i + 2..] && s[0] == ESC && s[1] == payload[i + 1];
      var wsfStart := i + 2;
      var j, ok := WalkFields(payload, wsfStart);
      if !ok {
        trace := trace + [OnParseError(StructuredFieldLength)];
      }
      var sfData := payload[wsfStart..j];
      FieldsPrefix(s[2..]);
      assert s[..j - i][2..] == s[2..][..FieldsLength(s[2..])] == sfData;
      trace := trace + [OnWriteStructuredField(sfData)];
      return j;
    }

    /** A start-of-header at `at`, in a body or outside any command. */
    method StartOfHeader(payload: seq<byte>, at: nat) returns (next: nat)
      requires at + 1 < |payload|
      modifies `trace
      ensures next == Min(at + 2 + payload[at + 1] as int, |payload|)
      ensures trace == old(trace) + HeaderEvents(payload[at..next])
    {
      var sohLen := payload[at + 1];
      next := at + 2 + sohLen as int;
      if next > |payload| {
        next := |payload|;
      }
      if sohLen >= 4 {
        var errorRow := if at + 5 < |payload| then payload[at + 5] else 0;
        var ckm1 := if sohLen >= 5 && at + 6 < |payload| then payload[at + 6] else 0;
        var ckm2 := if sohLen >= 6 && at + 7 < |payload| then payload[at + 7] else 0;
        var ckm3 := if sohLen >= 7 && at + 8 < |payload| then payload[at + 8] else 0;
        trace := trace + [OnSoh(errorRow, ckm1, ckm2, ckm3)];
      }
    }

    method TopHeader(payload: seq<byte>, i: nat) returns (next: nat)
      requires i + 1 < |payload| && payload[i] == SOH
      modifies `trace
      ensures var p := TopPiece(payload[i..]);
              && trace == old(trace) + EventsOf(p)
              && next > i && Rest(payload, next) == payload[i..][|p.bytes|..]
    {
      next := StartOfHeader(payload, i);
      assert payload[i..][..next - i] == payload[i..next];
    }

    method WriteToDisplay(payload: seq<byte>, i: nat, display: seq<byte>) returns (next: nat, display': seq<byte>)
      requires i + 3 < |payload| && payload[i] == ESC && payload[i + 1] == CC_WRITE_TO_DISPLAY
      modifies `trace
      ensures var body := payload[i..][4..];
              && trace == old(trace) + EventsOf(TopPiece(payload[i..])) + Events(BodyPieces(body))
              && display' == display + Display(BodyPieces(body))
              && next == i + 4 + BodyLength(body)
    {
      hide BodyPieces, BodyPiece, BodyLength, Events, Display;
      ghost var s := payload[i..];
      var ctrl1, ctrl2 := payload[i + 2], payload[i + 3];
      assert s[..4] == [ESC, CC_WRITE_TO_DISPLAY, ctrl1, ctrl2];
      trace := trace + [OnControlCharacters(ctrl1, ctrl2)];
      if ctrl2 / 8 % 2 == 1 {
        trace := trace + [OnKeyboardUnlock];
      }
      assert s[4..] == payload[i + 4..];
      next, display' := WalkBody(payload, i + 4, display);
    }

    /** The loop over the orders and characters of a Write To Display body. */
    method WalkBody(payload: seq<byte>, start: nat, display: seq<byte>) returns (j: nat, display': seq<byte>)
      requires start <= |payload|
      modifies `trace
      ensures var body := payload[start..];
              && trace == old(trace) + Events(BodyPieces(body))
              && display' == display + Display(BodyPieces(body))
              && j == start + BodyLength(body)
    {
      hide BodyPieces, BodyPiece, BodyLength, Events, Display, EventsOf, ShownBytes;
      j, display' := start, display;
      ghost var body, before := payload[start..], trace;
      while j < |payload|
        invariant start <= j <= |payload|
        invariant before + Events(BodyPieces(body)) == trace + Events(BodyPieces(payload[j..]))
        invariant display + Display(BodyPieces(body)) == display' + Display(BodyPieces(payload[j..]))
        invariant BodyLength(body) == j - start + BodyLength(payload[j..])
        decreases |payload| - j
      {
        if payload[j] == ESC {
          break;
        }
        ghost var s := payload[j..];
        BodyPieceStep(s);
        var n, shown := BodyTurn(payload, j);
        assert s[n..] == payload[j + n..];
        display' := display' + shown;
        j := j + n;
      }
      BodyUnfold(payload[j..]);
      WalkEnds();
    }

    /** One turn of that loop: how many bytes it takes, and those it shows. */
    method BodyTurn(payload: seq<byte>, j: nat) returns (n: nat, shown: seq<byte>)
      requires j < |payload| && payload[j] != ESC
      modifies `trace
      ensures var p := BodyPiece(payload[j..]);
              n == |p.bytes| && shown == ShownBytes(p) && trace == old(trace) + EventsOf(p)
    {
      ghost var s := payload[j..];
      var ob := payload[j];
      assert s[0] == ob;
      if ob == SOH {
        if j + 1 >= |payload| {
          return 1, [];
        }
        var next := StartOfHeader(payload, j);
        assert s[..next - j] == payload[j..next];
        return next - j, [];
      }
      if ob == STRPCCMD_TRIGGER && j + STRPCCMD_MARKER_LEN <= |payload|
         && STRPCCMD_SIGNATURE == payload[j + 1..j + STRPCCMD_MARKER_LEN] {
        assert s[1..STRPCCMD_MARKER_LEN] == STRPCCMD_SIGNATURE;
        n := PcCommand(payload, j);
        assert s[..n] == payload[j..j + n];
        return n, [];
      }
      n := OrderLength(payload, j);
      assert s[..n] == payload[j..j + n];
      shown := if ob == ORDER_WDSF then [] else payload[j..j + n];
    }

    /** The bytes an order or a character takes. */
    static method OrderLength(payload: seq<byte>, j: nat) returns (n: nat)
      requires j < |payload| && payload[j] != ESC && payload[j] != SOH && !IsPcCommand(payload[j..])
      ensures n == |BodyPiece(payload[j..]).bytes|
    {
      var ob := payload[j];
      var left := |payload| - j;
      if ob == ORDER_SBA || ob == ORDER_IC || ob == ORDER_MC {
        n := Min(3, left);
      } else if ob == ORDER_RA || ob == ORDER_EA {
        n := Min(4, left);
      } else if ob == ORDER_TD {
        if j + 1 < |payload| {
          var tdLen := payload[j + 1] as int;
          n := Min(2 + tdLen, left);
        } else {
          n := 1;
        }
      } else if ob == ORDER_WDSF {
        if j + 2 < |payload| {
          var wdsfLen := Be16(payload[j + 1], payload[j + 2]);
          if wdsfLen < 2 {
            wdsfLen := 2;
          }
          n := 1 + wdsfLen;
          if j + n > |payload| {
            n := left;
          }
        } else {
          n := left;
        }
      } else if ob == ORDER_SF {
        n := StartField(payload, j);
      } else {
        n := 1;
      }
    }

    method PcCommand(payload: seq<byte>, j: nat) returns (n: nat)
      requires j < |payload| && IsPcCommand(payload[j..])
      modifies `trace
      ensures n == PcCommandLength(payload[j..])
      ensures trace == old(trace) + PcCommandEvents(payload[j..j + n])
    {
      var p := j + STRPCCMD_MARKER_LEN;
      ghost var t := payload[j..][STRPCCMD_MARKER_LEN..];
      assert t == payload[p..];
      var noWait := false;
      var commandBytes: seq<byte> := [];
      if p < |payload| && payload[p] != ESC {
        noWait := payload[p] == NO_WAIT;
        p := p + 1;
        assert t[1..] == payload[p..];
        commandBytes := ReadPrintable(payload, p);
        p := p + |commandBytes|;
      }
      trace := trace + [OnStrpccmdRequested(noWait, commandBytes)];
      n := p - j;
    }

    /** The loop over the command bytes of a STRPCCMD request. */
    static method ReadPrintable(payload: seq<byte>, start: nat) returns (read: seq<byte>)
      requires start <= |payload|
      ensures |read| == PrintableLength(payload[start..], STRPCCMD_MAX_COMMAND_LEN)
      ensures read == payload[start..start + |read|]
    {
      read := [];
      var p := start;
      var payloadEnd := Min(p + STRPCCMD_MAX_COMMAND_LEN, |payload|);
      while p < payloadEnd && payload[p] >= EBCDIC_SPACE
        invariant start <= p <= payloadEnd && read == payload[start..p]
        invariant p - start + PrintableLength(payload[p..], STRPCCMD_MAX_COMMAND_LEN - (p - start))
               == PrintableLength(payload[start..], STRPCCMD_MAX_COMMAND_LEN)
        decreases payloadEnd - p
      {
        assert payload[p..][1..] == payload[p + 1..];
        read := read + [payload[p]];
        p := p + 1;
      }
    }

    /** The length of a start-field order. */
    static method StartField(payload: seq<byte>, j: nat) returns (n: nat)
      requires j < |payload|
      ensures n == StartFieldLength(payload[j..])
    {
      ghost var s := payload[j..];
      var k := j + 1;
      if k + 1 < |payload| {
        k := k + 2;
      } else {
        k := |payload|;
      }
      ghost var words := k;
      assert |s| >= 3 ==> s[3..] == payload[words..];
      while k + 1 < |payload| && !IsAttribute(payload[k])
        invariant words <= k <= |payload|
        invariant k - words + ControlWordsLength(payload[k..]) == ControlWordsLength(payload[words..])
        decreases |payload| - k
      {
        assert payload[k..][2..] == payload[k + 2..];
        k := k + 2;
      }
      if k < |payload| {
        k := k + 1;
      }
      if k + 1 < |payload| {
        k := k + 2;
      }
      if k > |payload| {
        k := |payload|;
      }
      n := k - j;
    }
  }
}
