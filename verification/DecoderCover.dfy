/**
 Nothing is left out: every body, every payload and every record can be printed
 from the items and commands of DecoderRecords.
 */
module DecoderCover {
  import opened Bytes
  import opened DecoderSpec
  import opened DecoderProofs
  import opened DecoderRecords

  function TakePairs(s: seq<byte>): seq<Pair> {
    if |s| < 2 || 0x20 <= s[0] < 0x40 then [] else [Pair(s[0], s[1])] + TakePairs(s[2..])
  }

  lemma {:induction false} PairsTaken(s: seq<byte>)
    ensures var n := |FlatMap(PairBytes, TakePairs(s))|;
            && n <= |s| && s[..n] == FlatMap(PairBytes, TakePairs(s)) && ControlPairs(TakePairs(s))
            && (|s| - n < 2 || 0x20 <= s[n] < 0x40)
  {
    if |s| >= 2 && !(0x20 <= s[0] < 0x40) {
      PairsTaken(s[2..]);
      var ps := TakePairs(s);
      FlatMapCons(PairBytes, ps);
      assert ps[1..] == TakePairs(s[2..]);
      hide FlatMap, TakePairs;
      assert s == [s[0], s[1]] + s[2..];
    }
  }

  /** The first `n` bytes, or fewer if there are not as many. */
  function Upto(s: seq<byte>, n: nat): seq<byte> {
    if n <= |s| then s[..n] else s
  }

  function StartField(s: seq<byte>): Item
    requires |s| >= 3
  {
    var controls := TakePairs(s[3..]);
    var t := s[3..][Min(|FlatMap(PairBytes, controls)|, |s| - 3)..];
    if |t| >= 3 then Field(s[1], s[2], controls, t[0], t[1], t[2])
    else CutField(s[1], s[2], controls, Upto(t, 1))
  }

  function FirstItem(s: seq<byte>): Item
    requires s != [] && s[0] != 0x04
  {
    var b := s[0];
    if b in {0x11, 0x13, 0x14} then Order(b, Upto(s[1..], 2))
    else if b in {0x02, 0x03} then Order(b, Upto(s[1..], 3))
    else if |s| == 1 && b in {0x01, 0x10, 0x15, 0x1D} then CutItem(s)
    else if b == 0x10 then Transparent(s[1], Upto(s[2..], s[1] as int))
    else if b == 0x01 then Heading(s[1], Upto(s[2..], s[1] as int))
    else if |s| == 2 && b in {0x15, 0x1D} then CutItem(s)
    else if b == 0x15 then
      var length := s[1] as int * 256 + s[2] as int;
      Structured(s[1], s[2], Upto(s[3..], if length < 2 then 0 else length - 2))
    else if b == 0x1D then StartField(s)
    else if REQUEST <= s then
      if |s| == 10 || s[10] == 0x04 then BareRequest
      else Request(s[10], Upto(s[11..], PrintableLength(s[11..], 123)))
    else Character(b)
  }

  lemma {:induction false} PrintableTaken(s: seq<byte>, max: nat)
    ensures var n := PrintableLength(s, max);
            && (forall k :: 0 <= k < n ==> s[k] >= 0x40)
            && (n == max || n == |s| || s[n] < 0x40)
  {
    if s != [] && max != 0 && s[0] >= 0x40 {
      PrintableTaken(s[1..], max - 1);
      assert forall k :: 0 < k < |s| ==> s[k] == s[1..][k - 1];
    }
  }

  /** `i` is printed at the head of `s` and fits in front of what is left. */
  predicate Heads(i: Item, s: seq<byte>) {
    var n := |ItemBytes(i)|;
    n <= |s| && n > 0 && s[..n] == ItemBytes(i) && ItemFits(i, s[n..])
  }

  lemma FieldHeads(word1: byte, word2: byte, controls: seq<Pair>, t: seq<byte>)
    requires ControlPairs(controls) && (|t| < 2 || 0x20 <= t[0] < 0x40)
    ensures var s := [0x1D, word1, word2] + FlatMap(PairBytes, controls) + t;
            if |t| >= 3 then Heads(Field(word1, word2, controls, t[0], t[1], t[2]), s)
            else Heads(CutField(word1, word2, controls, Upto(t, 1)), s)
  {
    hide FlatMap, ControlPairs;
    var head := [0x1D, word1, word2] + FlatMap(PairBytes, controls);
    var s, k := head + t, if |t| >= 3 then 3 else |Upto(t, 1)|;
    assert s[..|head| + k] == head + t[..k] && s[|head| + k..] == t[k..];
  }

  lemma FirstField(s: seq<byte>)
    requires |s| >= 3 && s[0] == 0x1D
    ensures Heads(StartField(s), s)
  {
    var d, controls := s[3..], TakePairs(s[3..]);
    var n := |FlatMap(PairBytes, controls)|;
    PairsTaken(d);
    FieldHeads(s[1], s[2], controls, d[n..]);
    hide FlatMap, TakePairs, Heads, ControlPairs;
    assert s == [0x1D, s[1], s[2]] + d[..n] + d[n..];
  }

  lemma FirstRequest(s: seq<byte>)
    requires REQUEST <= s
    ensures Heads(FirstItem(s), s)
  {
    assert s[0] == 0x80 && s[..10] == REQUEST;
    if |s| > 10 && s[10] != 0x04 {
      var m := PrintableLength(s[11..], 123);
      PrintableTaken(s[11..], 123);
      hide PrintableLength;
      assert s[..11 + m] == REQUEST + [s[10]] + s[11..][..m];
      assert s[11 + m..] == s[11..][m..];
    }
  }

  lemma SizedHeads(head: seq<byte>, s: seq<byte>, size: nat)
    requires head <= s
    ensures var data := Upto(s[|head|..], size);
            var n := |head| + |data|;
            n <= |s| && s[..n] == head + data && Sized(data, size, s[n..])
  {
    var data := Upto(s[|head|..], size);
    assert s == head + s[|head|..];
    assert s[..|head| + |data|] == head + data;
  }

  lemma FirstSized(s: seq<byte>)
    requires s != [] && s[0] in {0x01, 0x02, 0x03, 0x10, 0x11, 0x13, 0x14, 0x15} && |s| >= 3
    ensures Heads(FirstItem(s), s)
  {
    hide PrintableLength, TakePairs, FlatMap, Upto, Sized;
    SizedHeads([s[0]], s, 2);
    SizedHeads([s[0]], s, 3);
    SizedHeads([s[0], s[1]], s, s[1] as int);
    var length := s[1] as int * 256 + s[2] as int;
    SizedHeads([s[0], s[1], s[2]], s, if length < 2 then 0 else length - 2);
  }

  lemma FirstPlain(s: seq<byte>)
    requires s != [] && s[0] != 0x04 && !(REQUEST <= s) && !(s[0] == 0x1D && |s| >= 3)
    requires s[0] in {0x01, 0x02, 0x03, 0x10, 0x11, 0x13, 0x14, 0x15} ==> |s| < 3
    ensures Heads(FirstItem(s), s)
  {
    hide PrintableLength, TakePairs, FlatMap;
    assert s[..1] == [s[0]] && s == s[..1] + s[1..];
    assert |s| == 2 ==> s == [s[0], s[1]] && s[..2] == s && s[2..] == [];
  }

  lemma FieldFirst(s: seq<byte>)
    requires |s| >= 3 && s[0] == 0x1D
    ensures FirstItem(s) == StartField(s)
  {
    hide StartField;
  }

  lemma FirstItemHeads(s: seq<byte>)
    requires s != [] && s[0] != 0x04
    ensures Heads(FirstItem(s), s)
  {
    hide Heads, FirstItem, StartField;
    if REQUEST <= s {
      FirstRequest(s);
    } else if s[0] == 0x1D && |s| >= 3 {
      FirstField(s);
      FieldFirst(s);
    } else if s[0] in {0x01, 0x02, 0x03, 0x10, 0x11, 0x13, 0x14, 0x15} && |s| >= 3 {
      FirstSized(s);
    } else {
      FirstPlain(s);
    }
  }

  /** Every body is printed from items, up to the next ESC or the end. */
  lemma {:induction false} EveryBody(s: seq<byte>) returns (items: seq<Item>, rest: seq<byte>)
    ensures s == Body(items) + rest && BodyFits(items, rest) && Ended(rest)
    decreases |s|
  {
    hide FirstItem, ItemFits, ItemBytes;
    if Ended(s) {
      items, rest := [], s;
      assert Body([]) + s == s;
    } else {
      var i := FirstItem(s);
      FirstItemHeads(s);
      var n := |ItemBytes(i)|;
      items, rest := EveryBody(s[n..]);
      assert ([i] + items)[1..] == items;
      assert ItemBytes(i) + Body(items) + rest == ItemBytes(i) + (Body(items) + rest);
      items := [i] + items;
    }
  }

  /** The sound structured fields at the head of `s`. */
  function TakeFields(s: seq<byte>): seq<seq<byte>> {
    if s == [] || s[0] == 0x04 || !FieldFits(s) then []
    else [s[..Be16(s[0], s[1])]] + TakeFields(s[Be16(s[0], s[1])..])
  }

  /** No sound field starts `t`. */
  predicate NoField(t: seq<byte>) {
    |t| < 2 || t[0] == 0x04 || Be16(t[0], t[1]) < 2 || Be16(t[0], t[1]) > |t|
  }

  lemma TakeOne(s: seq<byte>)
    requires s != [] && s[0] != 0x04 && FieldFits(s)
    ensures var len := Be16(s[0], s[1]);
            && 2 <= len <= |s| && TakeFields(s) == [s[..len]] + TakeFields(s[len..])
            && IsField(s[..len]) && s[..len][0] != 0x04
  {
    hide TakeFields;
    TakeUnfold(s);
  }

  lemma TakeUnfold(s: seq<byte>)
    ensures TakeFields(s) == if s == [] || s[0] == 0x04 || !FieldFits(s) then []
                             else [s[..Be16(s[0], s[1])]] + TakeFields(s[Be16(s[0], s[1])..])
  {
  }

  lemma TakeNone(s: seq<byte>)
    requires s == [] || s[0] == 0x04 || !FieldFits(s)
    ensures TakeFields(s) == [] && Concat([]) == [] && NoField(s)
  {
  }

  lemma SoundCons(f: seq<byte>, fields: seq<seq<byte>>)
    requires IsField(f) && f[0] != 0x04 && SoundFields(fields)
    ensures SoundFields([f] + fields) && Concat([f] + fields) == f + Concat(fields)
  {
    hide IsField;
    FlatMapCons(Id, [f] + fields);
    hide FlatMap;
    assert ([f] + fields)[1..] == fields;
  }

  lemma {:induction false} FieldsTaken(s: seq<byte>)
    ensures var n := |Concat(TakeFields(s))|;
            n <= |s| && s[..n] == Concat(TakeFields(s)) && SoundFields(TakeFields(s)) && NoField(s[n..])
    decreases |s|
  {
    hide FlatMap, TakeFields, IsField, FieldFits, NoField;
    if s != [] && s[0] != 0x04 && FieldFits(s) {
      hide SoundFields, Be16;
      TakeOne(s);
      var len := Be16(s[0], s[1]);
      var d, n := s[len..], |Concat(TakeFields(s))|;
      FieldsTaken(d);
      SoundCons(s[..len], TakeFields(d));
      assert s[..n] == s[..len] + d[..n - len] && s[n..] == d[n - len..];
    } else {
      TakeNone(s);
      assert s[0..] == s;
    }
  }

  lemma {:induction false} TextTaken(s: seq<byte>)
    ensures 0x04 !in s[..UntilEsc(s)] && Ended(s[UntilEsc(s)..])
  {
    if s != [] && s[0] != 0x04 {
      TextTaken(s[1..]);
      assert s[..UntilEsc(s)] == [s[0]] + s[1..][..UntilEsc(s[1..])];
      assert s[UntilEsc(s)..] == s[1..][UntilEsc(s[1..])..];
    }
  }

  function FirstFields(s: seq<byte>): Step {
    var fields := TakeFields(s);
    var t := s[Min(|Concat(fields)|, |s|)..];
    if |t| < 2 || t[0] == 0x04 then Fields(fields) else BrokenFields(fields, t)
  }

  predicate StartsWrite(s: seq<byte>) {
    |s| >= 4 && s[0] == 0x04 && s[1] == 0x11
  }

  /** The first command of a payload that does not start with a whole Write To Display. */
  function FirstStep(s: seq<byte>): Step
    requires s != [] && !StartsWrite(s)
  {
    if |s| == 1 && (s[0] == 0x04 || s[0] == 0x01) then Dropped(s)
    else if s[0] == 0x01 then Loose(s[1], Upto(s[2..], s[1] as int))
    else if s[0] != 0x04 then StrayAt(s[0])
    else if s[1] == 0x11 then Dropped(s)
    else if s[1] == 0x40 then ClearUnit
    else if s[1] == 0x20 then ClearUnitAlternate
    else if s[1] == 0x50 then ClearFormatTable
    else if s[1] == 0x21 || s[1] == 0x22 then ErrorText(s[1] == 0x22, s[2..][..UntilEsc(s[2..])])
    else if s[1] == 0x23 then Roll(Upto(s[2..], if |s| >= 6 then 4 else 2))
    else if s[1] in {0x42, 0x52, 0x62, 0x66, 0x72} then Read(s[1], Upto(s[2..], 2))
    else if s[1] == 0xF3 then FirstFields(s[2..])
    else UnknownCode(s[1], s[2..][..UntilEsc(s[2..])])
  }

  predicate Leads(c: Step, s: seq<byte>) {
    var n := |StepBytes(c)|;
    n <= |s| && n > 0 && s[..n] == StepBytes(c) && StepFits(c, s[n..])
  }

  /** What a command takes behind its two first bytes. */
  lemma FirstFieldsTake(d: seq<byte>)
    ensures var c := FirstFields(d);
            (c.Fields? || c.BrokenFields?) &&
            var taken := Concat(c.fields) + if c.BrokenFields? then c.bad else [];
            |taken| <= |d| && d[..|taken|] == taken && StepFits(c, d[|taken|..])
  {
    var fields := TakeFields(d);
    FieldsTaken(d);
    var n := |Concat(fields)|;
    hide FlatMap, TakeFields, SoundFields;
    assert Concat(fields) + [] == Concat(fields);
    assert d == d[..n] + d[n..] && d[..|d|] == d && d[|d|..] == [];
  }

  lemma FirstFieldsLead(s: seq<byte>)
    requires |s| >= 2 && s[0] == 0x04 && s[1] == 0xF3
    ensures Leads(FirstFields(s[2..]), s)
  {
    FirstFieldsTake(s[2..]);
    hide FirstFields, FlatMap, StepFits;
    var c := FirstFields(s[2..]);
    var taken := Concat(c.fields) + if c.BrokenFields? then c.bad else [];
    assert StepBytes(c) == [0x04, 0xF3] + taken;
    assert s[..2 + |taken|] == [0x04, 0xF3] + s[2..][..|taken|] && s[2 + |taken|..] == s[2..][|taken|..];
  }

  lemma FirstTextLeads(s: seq<byte>)
    requires |s| >= 2 && s[0] == 0x04
    ensures var text := s[2..][..UntilEsc(s[2..])];
            s[..2 + |text|] == [0x04, s[1]] + text && 0x04 !in text && Ended(s[2 + |text|..])
  {
    TextTaken(s[2..]);
    var n := UntilEsc(s[2..]);
    hide UntilEsc;
    assert s == [s[0], s[1]] + s[2..] && s[2 + n..] == s[2..][n..];
  }

  lemma FirstPlainLeads(s: seq<byte>)
    requires s != [] && !StartsWrite(s) && !(|s| >= 2 && s[0] == 0x04 && s[1] == 0xF3)
    ensures var c := FirstStep(s);
            c.ErrorText? || c.UnknownCode? || Leads(c, s)
  {
    hide UntilEsc, FirstFields, FlatMap;
    assert s[..1] == [s[0]] && s == s[..1] + s[1..] && s[..|s|] == s && s[|s|..] == [];
    assert |s| >= 2 ==> s[..2] == [s[0], s[1]] && s == s[..2] + s[2..];
  }

  lemma FirstStepLeads(s: seq<byte>)
    requires s != [] && !StartsWrite(s)
    ensures Leads(FirstStep(s), s)
  {
    hide UntilEsc, FirstFields, FlatMap, SoundFields;
    if |s| >= 2 && s[0] == 0x04 && s[1] == 0xF3 {
      FirstFieldsLead(s);
    } else {
      FirstPlainLeads(s);
      if |s| >= 2 && s[0] == 0x04 {
        FirstTextLeads(s);
      }
    }
  }

  lemma PayloadCons(c: Step, cs: seq<Step>)
    requires StepFits(c, Payload(cs)) && PayloadFits(cs)
    ensures PayloadFits([c] + cs) && Payload([c] + cs) == StepBytes(c) + Payload(cs)
  {
    hide StepFits, StepBytes;
    assert ([c] + cs)[1..] == cs;
  }

  /** Every payload is printed from commands. */
  lemma {:induction false} EveryPayload(s: seq<byte>) returns (cs: seq<Step>)
    ensures s == Payload(cs) && PayloadFits(cs)
    decreases |s|
  {
    hide FirstStep, StepFits, StepBytes, Payload, PayloadFits, Body, BodyFits;
    if s == [] {
      cs := [];
      PayloadNone();
    } else if StartsWrite(s) {
      var items, rest := EveryBody(s[4..]);
      WriteLeads(s[2], s[3], items, rest);
      assert s == [0x04, 0x11, s[2], s[3]] + s[4..];
      cs := EveryPayload(rest);
      PayloadCons(Write(s[2], s[3], items), cs);
      cs := [Write(s[2], s[3], items)] + cs;
    } else {
      var c := FirstStep(s);
      FirstStepLeads(s);
      var n := |StepBytes(c)|;
      cs := EveryPayload(s[n..]);
      PayloadCons(c, cs);
      assert s == s[..n] + s[n..];
      cs := [c] + cs;
    }
  }

  /** So the display of any payload is exactly the shown items of its bodies, and its reports are those written out. */
  lemma ShownExactly(s: seq<byte>) returns (cs: seq<Step>)
    ensures s == Payload(cs) && PayloadFits(cs)
    ensures Display(Pieces(s)) == FlatMap(StepShown, cs) && Events(Pieces(s)) == FlatMap(StepReports, cs)
  {
    hide Payload, PayloadFits, FlatMap, Pieces, Display, Events;
    cs := EveryPayload(s);
    PayloadRead(cs);
  }

  lemma PayloadNone()
    ensures Payload([]) == [] && PayloadFits([])
  {
  }

  lemma WriteLeads(control1: byte, control2: byte, items: seq<Item>, rest: seq<byte>)
    requires BodyFits(items, rest) && Ended(rest)
    ensures var c := Write(control1, control2, items);
            StepFits(c, rest) && StepBytes(c) == [0x04, 0x11, control1, control2] + Body(items)
  {
    hide Body, BodyFits, FlatMap;
  }

  /**
   Every general data stream record with a sound header is such a printout, so
   what the decoder reports of it is written out for it.
   */
  lemma EveryRecord(d: State, rec: seq<byte>) returns (r: Printout)
    requires d.buffer == []
    requires |rec| >= 10 && rec[0] as int * 256 + rec[1] as int == |rec| && rec[2..4] == [0x12, 0xA0]
    requires 4 <= rec[6] && 6 + rec[6] as int <= |rec|
    ensures Fits(r) && RecordBytes(r) == rec && Parse(d, rec) == State([], d.trace + RecordReports(r))
  {
    var at := 6 + rec[6] as int;
    var cs := EveryPayload(rec[at..]);
    r := Printout(rec[4], rec[5], rec[7], rec[8], rec[9], rec[10..at], cs);
    RecordSplit(rec, at);
    assert RecordBytes(r) == rec by { Reprinted(r, rec); }
    hide RecordBytes, Parse, RecordReports;
    RecordRead(d, r);
  }

  lemma Reprinted(r: Printout, rec: seq<byte>)
    requires LengthOf(r) == |rec| && |r.extra| <= 251
    requires rec == [Hi(|rec|), Lo(|rec|), 0x12, 0xA0, r.reserved1, r.reserved2, (4 + |r.extra|) as byte,
                     r.flags, r.reserved3, r.opcode] + r.extra + Payload(r.steps)
    ensures RecordBytes(r) == rec
  {
    hide Payload, Hi, Lo;
  }

  lemma RecordSplit(rec: seq<byte>, at: nat)
    requires 10 <= at <= |rec| <= 65535 && rec[0] as int * 256 + rec[1] as int == |rec| && rec[2..4] == [0x12, 0xA0]
    ensures Hi(|rec|) == rec[0] && Lo(|rec|) == rec[1]
    ensures rec == [rec[0], rec[1], 0x12, 0xA0, rec[4], rec[5], rec[6], rec[7], rec[8], rec[9]] + rec[10..at] + rec[at..]
  {
    assert rec[2] == rec[2..4][0] && rec[3] == rec[2..4][1];
    assert rec[..10] == [rec[0], rec[1], 0x12, 0xA0, rec[4], rec[5], rec[6], rec[7], rec[8], rec[9]];
  }
}
