/** Properties of the decoder: tiling, what reaches the display, idempotence, framing. */
module DecoderProofs {
  import opened Bytes
  import opened DecoderSpec
  import Gds

  lemma BodyUnfold(s: seq<byte>)
    ensures s == [] || s[0] == ESC ==> BodyPieces(s) == [] && BodyLength(s) == 0
    ensures s != [] && s[0] != ESC ==>
      var p := BodyPiece(s);
      var rest := s[|p.bytes|..];
      && BodyPieces(s) == [p] + BodyPieces(rest)
      && BodyLength(s) == |p.bytes| + BodyLength(rest)
      && s == p.bytes + rest && p.bytes != [] && InBody(p)
  {
    hide BodyPiece;
  }

  lemma PiecesUnfold(s: seq<byte>)
    ensures s == [] ==> Pieces(s) == []
    ensures s != [] ==>
      var p := TopPiece(s);
      var rest := s[|p.bytes|..];
      && Pieces(s) == (if p.kind == WtdHeader then [p] + BodyPieces(rest) + Pieces(rest[BodyLength(rest)..])
                       else [p] + Pieces(rest))
      && s == p.bytes + rest && p.bytes != [] && !InBody(p)
  {
    hide TopPiece, BodyPieces, BodyLength, InBody;
  }

  lemma BytesCons(p: Piece, ps: seq<Piece>)
    ensures FlatMap(BytesOf, [p] + ps) == p.bytes + FlatMap(BytesOf, ps)
  {
    FlatMapAppend(BytesOf, [p], ps);
    FlatMapOne(BytesOf, p);
  }

  lemma BytesJoin(p: Piece, body: seq<Piece>, tail: seq<Piece>)
    ensures FlatMap(BytesOf, [p] + body + tail) == p.bytes + FlatMap(BytesOf, body) + FlatMap(BytesOf, tail)
  {
    hide FlatMap;
    FlatMapAppend(BytesOf, [p] + body, tail);
    BytesCons(p, body);
  }

  lemma {:induction false} BodyTiles(s: seq<byte>)
    ensures FlatMap(BytesOf, BodyPieces(s)) == s[..BodyLength(s)]
    ensures BodyLength(s) < |s| ==> s[BodyLength(s)] == ESC
    ensures forall k :: 0 <= k < |BodyPieces(s)| ==> InBody(BodyPieces(s)[k])
  {
    hide BodyPiece, BodyPieces, BodyLength, InBody;
    BodyUnfold(s);
    if s != [] && s[0] != ESC {
      hide FlatMap;
      var p := BodyPiece(s);
      var rest := s[|p.bytes|..];
      BodyTiles(rest);
      BytesCons(p, BodyPieces(rest));
      assert p.bytes + rest[..BodyLength(rest)] == s[..BodyLength(s)];
    }
  }

  lemma SplitBack(a: seq<byte>, b: seq<byte>, n: nat)
    requires n <= |b|
    ensures a + b[..n] + b[n..] == a + b
  {
  }

  /** The pieces of a payload, joined, are the payload. */
  lemma {:induction false} PiecesTile(s: seq<byte>)
    ensures FlatMap(BytesOf, Pieces(s)) == s
    decreases |s|
  {
    hide TopPiece, Pieces, BodyPieces, BodyLength, InBody;
    PiecesUnfold(s);
    if s != [] {
      hide FlatMap;
      var p := TopPiece(s);
      var rest := s[|p.bytes|..];
      if p.kind == WtdHeader {
        var body, tail := BodyPieces(rest), rest[BodyLength(rest)..];
        BodyTiles(rest);
        PiecesTile(tail);
        BytesJoin(p, body, Pieces(tail));
        SplitBack(p.bytes, rest, BodyLength(rest));
      } else {
        PiecesTile(rest);
        BytesCons(p, Pieces(rest));
      }
    }
  }

  /** A piece of a Write To Display body stands right after the command's header or another body piece. */
  predicate Nested(ps: seq<Piece>) {
    forall k :: 0 <= k < |ps| && InBody(ps[k]) ==> k > 0 && (InBody(ps[k - 1]) || ps[k - 1].kind == WtdHeader)
  }

  lemma {:induction false} PiecesNest(s: seq<byte>)
    ensures Nested(Pieces(s))
    ensures Pieces(s) != [] ==> !InBody(Pieces(s)[0])
    decreases |s|
  {
    hide TopPiece, Pieces, BodyPieces, BodyLength, InBody, Nested;
    PiecesUnfold(s);
    NestedNil();
    if s != [] {
      var p := TopPiece(s);
      var rest := s[|p.bytes|..];
      if p.kind == WtdHeader {
        var body, tail := BodyPieces(rest), rest[BodyLength(rest)..];
        BodyTiles(rest);
        PiecesNest(tail);
        NestedAppend(p, body, Pieces(tail));
      } else {
        PiecesNest(rest);
        NestedAppend(p, [], Pieces(rest));
        assert [p] + [] + Pieces(rest) == [p] + Pieces(rest);
      }
    }
  }

  lemma NestedNil()
    ensures Nested([])
  {
  }

  lemma NestedAppend(p: Piece, body: seq<Piece>, tail: seq<Piece>)
    requires !InBody(p) && (body != [] ==> p.kind == WtdHeader)
    requires forall k :: 0 <= k < |body| ==> InBody(body[k])
    requires Nested(tail) && (tail != [] ==> !InBody(tail[0]))
    ensures Nested([p] + body + tail)
  {
    hide InBody;
    var ps := [p] + body + tail;
    forall k | 0 <= k < |ps| && InBody(ps[k])
      ensures k > 0 && (InBody(ps[k - 1]) || ps[k - 1].kind == WtdHeader)
    {
      var at := 1 + |body|;
      if k >= at {
        assert ps[k] == tail[k - at];
        assert ps[k - 1] == tail[k - at - 1];
      } else {
        assert ps[k] == ([p] + body)[k];
      }
    }
  }

  predicate IsCommandCode(cc: byte) {
    cc in {CC_CLEAR_UNIT, CC_CLEAR_UNIT_ALTERNATE, CC_WRITE_ERROR_CODE, CC_WRITE_ERROR_CODE_TO_WINDOW, CC_ROLL,
           CC_READ_INPUT_FIELDS, CC_CLEAR_FORMAT_TABLE, CC_READ_MDT_FIELDS, CC_READ_SCREEN, CC_READ_SCREEN_ALT,
           CC_READ_IMMEDIATE, CC_WRITE_STRUCTURED_FIELD}
  }

  /** What `s`, the payload from the first byte of a piece on, starts with if the piece is of `kind`. */
  predicate Announces(s: seq<byte>, kind: Kind) {
    s != [] &&
    match kind
    case Command => |s| >= 2 && s[0] == ESC && IsCommandCode(s[1])
    case WtdHeader => |s| >= 4 && s[0] == ESC && s[1] == CC_WRITE_TO_DISPLAY
    case Unknown => |s| >= 2 && s[0] == ESC && !IsCommandCode(s[1]) && s[1] != CC_WRITE_TO_DISPLAY
    case Header => s[0] == SOH
    case Stray => s[0] != ESC && s[0] != SOH
    case Cut => s == [ESC] || s == [SOH] || (2 <= |s| < 4 && s[..2] == [ESC, CC_WRITE_TO_DISPLAY])
    case Shown => s[0] !in {ESC, SOH, ORDER_WDSF} && !IsPcCommand(s)
    case BodyHeader => s[0] == SOH
    case BodyField => s[0] == ORDER_WDSF
    case BodyCommand => IsPcCommand(s)
  }

  /** Every piece of `s`, in turn, is of the kind that the bytes from it on announce. */
  predicate Labelled(ps: seq<Piece>, s: seq<byte>) {
    ps == [] ||
    (|ps[0].bytes| <= |s| && Announces(s, ps[0].kind) && Labelled(ps[1..], s[|ps[0].bytes|..]))
  }

  lemma TopAnnounced(s: seq<byte>)
    requires s != []
    ensures Announces(s, TopPiece(s).kind)
  {
  }

  lemma BodyAnnounced(s: seq<byte>)
    requires s != [] && s[0] != ESC
    ensures Announces(s, BodyPiece(s).kind)
  {
  }

  lemma LabelledNil(s: seq<byte>)
    ensures Labelled([], s)
  {
  }

  lemma LabelledCons(p: Piece, ps: seq<Piece>, s: seq<byte>)
    requires |p.bytes| <= |s| && Announces(s, p.kind) && Labelled(ps, s[|p.bytes|..])
    ensures Labelled([p] + ps, s)
  {
    hide Announces;
    assert ([p] + ps)[1..] == ps;
  }

  /** A body and what follows it. */
  lemma {:induction false} BodyLabelled(s: seq<byte>, tail: seq<Piece>)
    requires Labelled(tail, s[BodyLength(s)..])
    ensures Labelled(BodyPieces(s) + tail, s)
  {
    hide BodyPiece, BodyPieces, BodyLength, Announces, Labelled, InBody;
    BodyUnfold(s);
    if s == [] || s[0] == ESC {
      assert [] + tail == tail && s[0..] == s;
    } else {
      var p := BodyPiece(s);
      var rest := s[|p.bytes|..];
      assert s[BodyLength(s)..] == rest[BodyLength(rest)..];
      BodyLabelled(rest, tail);
      BodyAnnounced(s);
      LabelledCons(p, BodyPieces(rest) + tail, s);
      assert [p] + BodyPieces(rest) + tail == [p] + (BodyPieces(rest) + tail);
    }
  }

  lemma {:induction false} PiecesLabelled(s: seq<byte>)
    ensures Labelled(Pieces(s), s)
    decreases |s|
  {
    hide TopPiece, Pieces, BodyPieces, BodyLength, Announces, Labelled, InBody;
    PiecesUnfold(s);
    LabelledNil(s);
    if s != [] {
      var p := TopPiece(s);
      var rest := s[|p.bytes|..];
      TopAnnounced(s);
      if p.kind == WtdHeader {
        var body, tail := BodyPieces(rest), Pieces(rest[BodyLength(rest)..]);
        PiecesLabelled(rest[BodyLength(rest)..]);
        BodyLabelled(rest, tail);
        LabelledCons(p, body + tail, s);
        assert [p] + body + tail == [p] + (body + tail);
      } else {
        PiecesLabelled(rest);
        LabelledCons(p, Pieces(rest), s);
      }
    }
  }

  /**
   Nothing leaks: the payload is divided into consecutive pieces, each of the
   kind its bytes announce; the display is the pieces shown, in order; and
   every piece shown lies in the body of a Write To Display command.
   */
  lemma NothingLeaks(payload: seq<byte>)
    ensures var ps := Pieces(payload);
            && FlatMap(BytesOf, ps) == payload
            && Labelled(ps, payload) && Nested(ps)
            && Display(ps) == FlatMap(BytesOf, Filter(ps))
            && (forall p :: p in Filter(ps) <==> p in ps && p.kind == Shown)
  {
    hide Pieces, Labelled, Nested;
    PiecesTile(payload);
    PiecesLabelled(payload);
    PiecesNest(payload);
    DisplayIsShown(Pieces(payload));
  }

  function OnlyShown(p: Piece): seq<Piece> {
    if p.kind == Shown then [p] else []
  }

  /** The pieces shown, in order. */
  function Filter(ps: seq<Piece>): seq<Piece> {
    FlatMap(OnlyShown, ps)
  }

  lemma {:induction false} DisplayIsShown(ps: seq<Piece>)
    ensures Display(ps) == FlatMap(BytesOf, Filter(ps))
    ensures forall p :: p in Filter(ps) <==> p in ps && p.kind == Shown
  {
    if ps != [] {
      var front, p := ps[..|ps| - 1], ps[|ps| - 1];
      DisplayIsShown(front);
      assert ps == front + [p];
      FlatMapAppend(BytesOf, Filter(front), OnlyShown(p));
      FlatMapOne(BytesOf, p);
    }
  }

  // ----- the display filter is idempotent

  /** A body that is shown whole. */
  predicate Clean(t: seq<byte>) {
    BodyLength(t) == |t| && forall k :: 0 <= k < |BodyPieces(t)| ==> BodyPieces(t)[k].kind == Shown
  }

  lemma {:induction false} ControlWordsStable(s: seq<byte>, t: seq<byte>)
    requires ControlWordsLength(s) < |s|
    requires |t| > ControlWordsLength(s) && t[..ControlWordsLength(s) + 1] == s[..ControlWordsLength(s) + 1]
    requires |t| <= |s|
    ensures ControlWordsLength(t) == ControlWordsLength(s)
  {
    if |s| < 2 || IsAttribute(s[0]) {
      assert s[0] == s[..ControlWordsLength(s) + 1][0] == t[0];
    } else {
      var n := ControlWordsLength(s);
      assert s[0] == s[..n + 1][0] == t[0];
      assert s[2..][..n - 2 + 1] == s[..n + 1][2..] == t[..n + 1][2..] == t[2..][..n - 2 + 1];
      ControlWordsStable(s[2..], t[2..]);
    }
  }

  /** A start-field order is cut the same from any text that goes on no longer. */
  lemma StartFieldStable(s: seq<byte>, x: seq<byte>)
    requires s != [] && |x| <= |s| - StartFieldLength(s)
    ensures StartFieldLength(s[..StartFieldLength(s)] + x) == StartFieldLength(s)
  {
    var n := StartFieldLength(s);
    var t := s[..n] + x;
    if |s| >= 3 {
      var m := ControlWordsLength(s[3..]);
      if 3 + m == |s| {
        assert t == s;
      } else {
        assert |t| >= 3 + m + 1;
        assert t[3..][..m + 1] == s[3..][..m + 1];
        ControlWordsStable(s[3..], t[3..]);
      }
    } else {
      assert t == s;
    }
  }

  /** A shown piece is cut the same from any text that goes on no longer, or is taken for a STRPCCMD request. */
  lemma ShownStable(s: seq<byte>, x: seq<byte>)
    requires s != [] && s[0] != ESC
    requires BodyPiece(s).kind == Shown && |x| <= |s| - |BodyPiece(s).bytes|
    ensures var t := BodyPiece(s).bytes + x; IsPcCommand(t) || BodyPiece(t) == BodyPiece(s)
  {
    var p := BodyPiece(s);
    var t := p.bytes + x;
    assert t[0] == s[0];
    assert t[..|p.bytes|] == p.bytes;
    if s[0] == ORDER_SF {
      StartFieldStable(s, x);
    } else if s[0] == ORDER_TD && |s| > 1 {
      assert t[1] == s[1];
    }
  }

  function Joined(ps: seq<Piece>): seq<byte> {
    FlatMap(BytesOf, ps)
  }

  lemma FilterCons(p: Piece, ps: seq<Piece>)
    ensures Filter([p] + ps) == OnlyShown(p) + Filter(ps)
  {
    FlatMapAppend(OnlyShown, [p], ps);
    FlatMapOne(OnlyShown, p);
  }

  /** In front of the pieces after it, each piece is cut as it was or is taken for a STRPCCMD request. */
  predicate CutAgain(fs: seq<Piece>) {
    fs == [] ||
    (var t := fs[0].bytes + Joined(fs[1..]);
     && fs[0].kind == Shown && fs[0].bytes != [] && t[0] != ESC
     && (IsPcCommand(t) || BodyPiece(t) == fs[0]) && CutAgain(fs[1..]))
  }

  lemma CutAgainCons(s: seq<byte>, fs: seq<Piece>)
    requires s != [] && s[0] != ESC && BodyPiece(s).kind == Shown
    requires CutAgain(fs) && |Joined(fs)| <= |s| - |BodyPiece(s).bytes|
    ensures CutAgain([BodyPiece(s)] + fs)
  {
    hide BodyPiece, Joined, IsPcCommand;
    var p := BodyPiece(s);
    ShownStable(s, Joined(fs));
    assert ([p] + fs)[1..] == fs && p.bytes[0] == s[0];
  }

  /** The pieces a body shows are cut again, in front of later ones that take no more room than they had. */
  lemma {:induction false} BodyCutAgain(s: seq<byte>, later: seq<Piece>)
    requires CutAgain(later) && |Joined(later)| <= |s| - BodyLength(s)
    ensures CutAgain(Filter(BodyPieces(s)) + later)
    ensures |Joined(Filter(BodyPieces(s)) + later)| <= BodyLength(s) + |Joined(later)|
  {
    hide BodyPiece, BodyPieces, BodyLength, CutAgain, Joined, InBody;
    BodyUnfold(s);
    if s == [] || s[0] == ESC {
      assert Filter([]) + later == later;
    } else {
      hide Filter;
      var p := BodyPiece(s);
      var rest := s[|p.bytes|..];
      var shown := Filter(BodyPieces(rest)) + later;
      FilterCons(p, BodyPieces(rest));
      BodyCutAgain(rest, later);
      if p.kind == Shown {
        CutAgainCons(s, shown);
        JoinedCons(p, shown);
        assert [p] + Filter(BodyPieces(rest)) + later == [p] + shown;
      } else {
        assert [] + Filter(BodyPieces(rest)) + later == shown;
      }
    }
  }

  lemma JoinedCons(p: Piece, ps: seq<Piece>)
    ensures Joined([p] + ps) == p.bytes + Joined(ps)
  {
    BytesCons(p, ps);
  }

  lemma {:induction false} PiecesCutAgain(s: seq<byte>)
    ensures CutAgain(Filter(Pieces(s))) && |Joined(Filter(Pieces(s)))| <= |s|
    decreases |s|
  {
    hide TopPiece, Pieces, BodyPieces, BodyLength, CutAgain, InBody, FlatMap;
    CutAgainNil();
    PiecesUnfold(s);
    if s != [] {
      hide Filter, Joined;
      var p := TopPiece(s);
      var rest := s[|p.bytes|..];
      assert OnlyShown(p) == [] by { NotShown(p); }
      if p.kind == WtdHeader {
        var body, tail := BodyPieces(rest), Pieces(rest[BodyLength(rest)..]);
        PiecesCutAgain(rest[BodyLength(rest)..]);
        BodyCutAgain(rest, Filter(tail));
        FilterCons(p, body + tail);
        FilterAppend(body, tail);
        assert [p] + body + tail == [p] + (body + tail);
        assert [] + (Filter(body) + Filter(tail)) == Filter(body) + Filter(tail);
      } else {
        PiecesCutAgain(rest);
        FilterCons(p, Pieces(rest));
        assert [] + Filter(Pieces(rest)) == Filter(Pieces(rest));
      }
    }
  }

  lemma CutAgainNil()
    ensures Filter([]) == [] && CutAgain([]) && Joined([]) == []
  {
  }

  lemma NotShown(p: Piece)
    requires !InBody(p)
    ensures OnlyShown(p) == []
  {
  }

  lemma FilterAppend(a: seq<Piece>, b: seq<Piece>)
    ensures Filter(a + b) == Filter(a) + Filter(b)
  {
    FlatMapAppend(OnlyShown, a, b);
  }

  /** No tail of the pieces, joined, starts with the marker of a STRPCCMD request. */
  predicate MarkerFree(fs: seq<Piece>) {
    forall k :: 0 <= k < |fs| ==> !IsPcCommand(Joined(fs[k..]))
  }

  lemma MarkerFreeStep(fs: seq<Piece>)
    requires fs != []
    ensures MarkerFree(fs) <==> !IsPcCommand(Joined(fs)) && MarkerFree(fs[1..])
  {
    hide IsPcCommand, Joined;
    assert fs[0..] == fs;
    forall k | 0 <= k < |fs| - 1
      ensures fs[1..][k..] == fs[k + 1..]
    {
    }
    assert forall k :: 0 < k < |fs| ==> fs[k..] == fs[1..][k - 1..];
  }

  /** Whether a body is shown whole depends on its first piece and on the rest. */
  lemma CleanStep(t: seq<byte>)
    requires t != [] && t[0] != ESC
    ensures Clean(t) <==> BodyPiece(t).kind == Shown && Clean(t[|BodyPiece(t).bytes|..])
  {
    hide BodyPiece, BodyPieces, BodyLength, InBody;
    BodyUnfold(t);
    var ps, rest := BodyPieces(t), BodyPieces(t[|BodyPiece(t).bytes|..]);
    assert ps[0] == BodyPiece(t) && rest == ps[1..];
    assert forall k :: 0 <= k < |rest| ==> rest[k] == ps[k + 1];
    assert forall k :: 0 < k < |ps| ==> ps[k] == rest[k - 1];
  }

  /** Pieces that are cut again are all shown again exactly when no STRPCCMD request comes up among them. */
  lemma {:induction false} CleanAgain(fs: seq<Piece>)
    requires CutAgain(fs)
    ensures Clean(Joined(fs)) <==> MarkerFree(fs)
  {
    if fs != [] {
      var t := fs[0].bytes + Joined(fs[1..]);
      CleanAgain(fs[1..]);
      assert fs == [fs[0]] + fs[1..];
      JoinedCons(fs[0], fs[1..]);
      MarkerFreeStep(fs);
      CleanStep(t);
      if !IsPcCommand(t) {
        assert t[|fs[0].bytes|..] == Joined(fs[1..]);
      }
    }
  }

  lemma DisplayCons(p: Piece, ps: seq<Piece>)
    ensures Display([p] + ps) == ShownBytes(p) + Display(ps)
  {
    FlatMapAppend(ShownBytes, [p], ps);
    FlatMapOne(ShownBytes, p);
  }

  lemma CleanCons(p: Piece, x: seq<byte>)
    requires Clean(x) && p.kind == Shown
    requires p.bytes != [] && p.bytes[0] != ESC && BodyPiece(p.bytes + x) == p
    ensures Clean(p.bytes + x)
  {
    hide BodyPiece;
    var t := p.bytes + x;
    assert t[0] == p.bytes[0] && t[|p.bytes|..] == x;
    assert BodyPieces(t) == [p] + BodyPieces(x);
  }

  lemma NotInBody(p: Piece)
    requires !InBody(p)
    ensures ShownBytes(p) == []
  {
  }

  lemma DisplayAppend(a: seq<Piece>, b: seq<Piece>)
    ensures Display(a + b) == Display(a) + Display(b)
  {
    FlatMapAppend(ShownBytes, a, b);
  }

  lemma {:induction false} AllShown(ps: seq<Piece>)
    requires forall k :: 0 <= k < |ps| ==> ps[k].kind == Shown
    ensures Display(ps) == FlatMap(BytesOf, ps) && Events(ps) == []
  {
    if ps != [] {
      AllShown(ps[..|ps| - 1]);
    }
  }

  /** A Write To Display command with `body`. */
  function Wtd(ctrl1: byte, ctrl2: byte, body: seq<byte>): seq<byte> {
    [ESC, CC_WRITE_TO_DISPLAY, ctrl1, ctrl2] + body
  }

  function WtdHead(ctrl1: byte, ctrl2: byte): Piece {
    Piece(WtdHeader, [ESC, CC_WRITE_TO_DISPLAY, ctrl1, ctrl2])
  }

  lemma WtdTop(ctrl1: byte, ctrl2: byte, body: seq<byte>)
    ensures var s := Wtd(ctrl1, ctrl2, body);
            s[..4] == WtdHead(ctrl1, ctrl2).bytes && TopPiece(s) == WtdHead(ctrl1, ctrl2) && s[4..] == body
  {
  }

  lemma EventsCons(p: Piece, ps: seq<Piece>)
    ensures Events([p] + ps) == EventsOf(p) + Events(ps)
  {
    FlatMapAppend(EventsOf, [p], ps);
    FlatMapOne(EventsOf, p);
  }

  /** A top-level piece but a Write To Display header adds its reports and nothing to the display. */
  lemma TopStep(s: seq<byte>)
    requires s != [] && TopPiece(s).kind != WtdHeader
    ensures var p := TopPiece(s);
            var rest := s[|p.bytes|..];
            && Events(Pieces(s)) == EventsOf(p) + Events(Pieces(rest))
            && Display(Pieces(s)) == Display(Pieces(rest))
  {
    hide TopPiece, Pieces, EventsOf, Display, Events, InBody, ShownBytes;
    PiecesUnfold(s);
    var p := TopPiece(s);
    var rest := s[|p.bytes|..];
    EventsCons(p, Pieces(rest));
    DisplayCons(p, Pieces(rest));
    NotInBody(p);
    assert [] + Display(Pieces(rest)) == Display(Pieces(rest));
  }

  /** A Write To Display command adds the reports of its header and of its body, and its body's display. */
  lemma WtdStep(s: seq<byte>)
    requires s != [] && TopPiece(s).kind == WtdHeader
    ensures var body := s[4..];
            var rest := body[BodyLength(body)..];
            && Events(Pieces(s)) == EventsOf(TopPiece(s)) + Events(BodyPieces(body)) + Events(Pieces(rest))
            && Display(Pieces(s)) == Display(BodyPieces(body)) + Display(Pieces(rest))
  {
    hide Pieces, EventsOf, Display, Events, InBody, ShownBytes, BodyLength, BodyPieces;
    PiecesUnfold(s);
    var p, body := TopPiece(s), s[4..];
    hide TopPiece;
    var tail := Pieces(body[BodyLength(body)..]);
    NotInBody(p);
    assert [p] + BodyPieces(body) + tail == [p] + (BodyPieces(body) + tail);
    EventsCons(p, BodyPieces(body) + tail);
    DisplayCons(p, BodyPieces(body) + tail);
    DisplayAppend(BodyPieces(body), tail);
    EventsAppend(BodyPieces(body), tail);
    assert [] + (Display(BodyPieces(body)) + Display(tail)) == Display(BodyPieces(body)) + Display(tail);
  }

  lemma EventsAppend(a: seq<Piece>, b: seq<Piece>)
    ensures Events(a + b) == Events(a) + Events(b)
  {
    FlatMapAppend(EventsOf, a, b);
  }

  /** A Write To Display command whose body runs to the end of the payload. */
  lemma WtdPieces(ctrl1: byte, ctrl2: byte, body: seq<byte>)
    requires BodyLength(body) == |body|
    ensures Pieces(Wtd(ctrl1, ctrl2, body)) == [WtdHead(ctrl1, ctrl2)] + BodyPieces(body)
    ensures Display(Pieces(Wtd(ctrl1, ctrl2, body))) == Display(BodyPieces(body))
    ensures Events(Pieces(Wtd(ctrl1, ctrl2, body))) == EventsOf(WtdHead(ctrl1, ctrl2)) + Events(BodyPieces(body))
  {
    hide TopPiece, Pieces, BodyPieces, BodyLength, BodyPiece, FlatMap, Display, Events, EventsOf;
    var s, p := Wtd(ctrl1, ctrl2, body), WtdHead(ctrl1, ctrl2);
    WtdTop(ctrl1, ctrl2, body);
    PiecesUnfold(s);
    assert body[|body|..] == [];
    PiecesUnfold([]);
    assert [p] + BodyPieces(body) + [] == [p] + BodyPieces(body);
    DisplayCons(p, BodyPieces(body));
    EventsCons(p, BodyPieces(body));
    assert [] + Display(BodyPieces(body)) == Display(BodyPieces(body));
  }

  /** A body shown whole reports nothing and is the display. */
  lemma WtdOfClean(ctrl1: byte, ctrl2: byte, body: seq<byte>)
    requires Clean(body)
    ensures var ps := Pieces(Wtd(ctrl1, ctrl2, body));
            Display(ps) == body && Events(ps) == EventsOf(WtdHead(ctrl1, ctrl2))
  {
    WtdPieces(ctrl1, ctrl2, body);
    hide Pieces, BodyPieces, BodyPiece, FlatMap, Display, Events, EventsOf;
    BodyTiles(body);
    AllShown(BodyPieces(body));
    assert body[..|body|] == body;
    assert EventsOf(WtdHead(ctrl1, ctrl2)) + [] == EventsOf(WtdHead(ctrl1, ctrl2));
  }

  /** A body shows no more bytes than it has, and as many only if every piece is shown. */
  lemma {:induction false} BodyShowsLess(s: seq<byte>)
    ensures |Display(BodyPieces(s))| <= BodyLength(s)
    ensures |Display(BodyPieces(s))| == BodyLength(s) ==>
              forall k :: 0 <= k < |BodyPieces(s)| ==> BodyPieces(s)[k].kind == Shown
  {
    hide BodyPiece, BodyPieces, BodyLength, InBody;
    BodyUnfold(s);
    if s != [] && s[0] != ESC {
      hide Display;
      BodyShowsLess(s[|BodyPiece(s).bytes|..]);
      DisplayCons(BodyPiece(s), BodyPieces(s[|BodyPiece(s).bytes|..]));
    }
  }

  /** A payload always has bytes that are not shown. */
  lemma {:induction false} PayloadShowsLess(s: seq<byte>)
    ensures |Display(Pieces(s))| <= |s| && (s != [] ==> |Display(Pieces(s))| < |s|)
    decreases |s|
  {
    hide TopPiece, Pieces, BodyPieces, BodyLength, InBody, ShownBytes;
    PiecesUnfold(s);
    if s != [] {
      hide FlatMap, Display;
      var p := TopPiece(s);
      var rest := s[|p.bytes|..];
      NotInBody(p);
      if p.kind == WtdHeader {
        var body, tail := BodyPieces(rest), Pieces(rest[BodyLength(rest)..]);
        PayloadShowsLess(rest[BodyLength(rest)..]);
        BodyShowsLess(rest);
        DisplayCons(p, body + tail);
        DisplayAppend(body, tail);
        assert [p] + body + tail == [p] + (body + tail);
      } else {
        PayloadShowsLess(rest);
        DisplayCons(p, Pieces(rest));
      }
    }
  }

  lemma WtdDisplay(ctrl1: byte, ctrl2: byte, body: seq<byte>)
    ensures Display(Pieces(Wtd(ctrl1, ctrl2, body))) ==
      Display(BodyPieces(body)) + Display(Pieces(body[BodyLength(body)..]))
  {
    hide TopPiece, Pieces, BodyPieces, BodyLength, FlatMap, Display, InBody;
    var p, shown, tail := WtdHead(ctrl1, ctrl2), BodyPieces(body), Pieces(body[BodyLength(body)..]);
    WtdTop(ctrl1, ctrl2, body);
    PiecesUnfold(Wtd(ctrl1, ctrl2, body));
    assert [p] + shown + tail == [p] + (shown + tail);
    DisplayCons(p, shown + tail);
    DisplayAppend(shown, tail);
    assert [] + (Display(shown) + Display(tail)) == Display(shown) + Display(tail);
  }

  lemma UncleanShowsLess(body: seq<byte>)
    requires !Clean(body)
    ensures |Display(BodyPieces(body))| + |Display(Pieces(body[BodyLength(body)..]))| < |body|
  {
    hide Pieces, BodyPieces, BodyLength, Display;
    BodyShowsLess(body);
    PayloadShowsLess(body[BodyLength(body)..]);
  }

  /** A body comes through as it is exactly when it is shown whole. */
  lemma WholeExactly(ctrl1: byte, ctrl2: byte, body: seq<byte>)
    ensures Display(Pieces(Wtd(ctrl1, ctrl2, body))) == body <==> Clean(body)
  {
    hide Pieces, Display, Clean;
    if Clean(body) {
      WtdOfClean(ctrl1, ctrl2, body);
    } else {
      WtdDisplay(ctrl1, ctrl2, body);
      UncleanShowsLess(body);
    }
  }

  /**
   When the display filter is idempotent: what it lets through, wrapped as the
   body of one Write To Display command, is let through again unchanged exactly
   when no tail of the pieces shown, joined, starts with the marker of a
   STRPCCMD request; nothing beyond that command's own header is then reported.
   */
  lemma FilterIdempotent(payload: seq<byte>, ctrl1: byte, ctrl2: byte)
    ensures var display := Display(Pieces(payload));
            var again := Pieces(Wtd(ctrl1, ctrl2, display));
            var markerFree := MarkerFree(Filter(Pieces(payload)));
            && (Display(again) == display <==> markerFree)
            && (markerFree ==> Events(again) == EventsOf(WtdHead(ctrl1, ctrl2)))
  {
    hide Pieces, FlatMap, Display, Filter, Clean, MarkerFree, CutAgain;
    var display := Display(Pieces(payload));
    DisplayIsShown(Pieces(payload));
    PiecesCutAgain(payload);
    CleanAgain(Filter(Pieces(payload)));
    WholeExactly(ctrl1, ctrl2, display);
    if Clean(display) {
      WtdOfClean(ctrl1, ctrl2, display);
    }
  }

  lemma {:induction false} TailWithin(fs: seq<Piece>, k: nat)
    requires k <= |fs|
    ensures forall b | b in Joined(fs[k..]) :: b in Joined(fs)
  {
    assert fs == fs[..k] + fs[k..];
    FlatMapAppend(BytesOf, fs[..k], fs[k..]);
  }

  /** So it is idempotent on every payload whose display has no 0x80. */
  lemma IdempotentWithoutTrigger(payload: seq<byte>, ctrl1: byte, ctrl2: byte)
    requires STRPCCMD_TRIGGER !in Display(Pieces(payload))
    ensures var again := Pieces(Wtd(ctrl1, ctrl2, Display(Pieces(payload))));
            && Display(again) == Display(Pieces(payload))
            && Events(again) == EventsOf(WtdHead(ctrl1, ctrl2))
  {
    hide Pieces, FlatMap, Display, Filter;
    var fs := Filter(Pieces(payload));
    DisplayIsShown(Pieces(payload));
    forall k | 0 <= k < |fs|
      ensures !IsPcCommand(Joined(fs[k..]))
    {
      TailWithin(fs, k);
      assert IsPcCommand(Joined(fs[k..])) ==> Joined(fs[k..])[0] in Joined(fs);
    }
    FilterIdempotent(payload, ctrl1, ctrl2);
  }

  /** In particular a payload without 0x80 qualifies. */
  lemma NoTriggerNoTrigger(payload: seq<byte>)
    requires STRPCCMD_TRIGGER !in payload
    ensures STRPCCMD_TRIGGER !in Display(Pieces(payload))
  {
    PiecesTile(payload);
    DisplayWithin(Pieces(payload));
  }

  lemma {:induction false} DisplayWithin(ps: seq<Piece>)
    ensures forall b :: b in Display(ps) ==> b in FlatMap(BytesOf, ps)
  {
    if ps != [] {
      DisplayWithin(ps[..|ps| - 1]);
    }
  }

  // ----- a payload on which the filter is not idempotent

  lemma {:induction false} ShortTextClean(t: seq<byte>)
    requires |t| < STRPCCMD_MARKER_LEN && forall k :: 0 <= k < |t| ==> t[k] >= 0x20
    ensures Clean(t) && Display(BodyPieces(t)) == t
  {
    if t != [] {
      ShortTextClean(t[1..]);
      assert BodyPiece(t) == Piece(Shown, t[..1]);
      CleanCons(BodyPiece(t), t[1..]);
      DisplayCons(BodyPiece(t), BodyPieces(t[1..]));
      assert t == t[..1] + t[1..];
    }
  }

  /** A body piece in front of a body that runs to the end. */
  lemma BodyStep(s: seq<byte>, p: Piece, rest: seq<byte>)
    requires s != [] && s[0] != ESC && BodyPiece(s) == p && s[|p.bytes|..] == rest && BodyLength(rest) == |rest|
    ensures BodyLength(s) == |s| && Display(BodyPieces(s)) == ShownBytes(p) + Display(BodyPieces(rest))
  {
    hide BodyPiece, BodyPieces, BodyLength, Display, ShownBytes, InBody;
    BodyUnfold(s);
    DisplayCons(p, BodyPieces(rest));
  }

  /** A trigger byte and some text kept apart by an empty start-of-header. */
  function Apart(text: seq<byte>): seq<byte> {
    [STRPCCMD_TRIGGER] + ([SOH, 0] + text)
  }

  lemma ApartHeads(text: seq<byte>)
    ensures BodyPiece(Apart(text)) == Piece(Shown, [STRPCCMD_TRIGGER])
    ensures BodyPiece([SOH, 0] + text) == Piece(BodyHeader, [SOH, 0])
  {
    var s := Apart(text);
    if |s| >= STRPCCMD_MARKER_LEN {
      assert s[1..STRPCCMD_MARKER_LEN][0] == SOH;
    }
  }

  lemma ApartPieces(text: seq<byte>)
    requires |text| < STRPCCMD_MARKER_LEN && forall k :: 0 <= k < |text| ==> text[k] >= 0x20
    ensures BodyLength(Apart(text)) == |Apart(text)|
    ensures Display(BodyPieces(Apart(text))) == [STRPCCMD_TRIGGER] + text
  {
    ShortTextClean(text);
    hide BodyPiece, BodyPieces, BodyLength, Display;
    ApartHeads(text);
    BodyStep([SOH, 0] + text, Piece(BodyHeader, [SOH, 0]), text);
    BodyStep(Apart(text), Piece(Shown, [STRPCCMD_TRIGGER]), [SOH, 0] + text);
    assert [] + text == text;
  }

  const MARKER: seq<byte> := [STRPCCMD_TRIGGER] + STRPCCMD_SIGNATURE

  lemma MarkerPieces()
    ensures BodyLength(MARKER) == |MARKER| && BodyPieces(MARKER) == [Piece(BodyCommand, MARKER)]
  {
    assert MARKER[1..10] == STRPCCMD_SIGNATURE && MARKER[10..] == [] && MARKER[..10] == MARKER;
    assert BodyPiece(MARKER) == Piece(BodyCommand, MARKER);
    hide BodyPiece, BodyPieces, BodyLength;
    BodyUnfold(MARKER);
    BodyUnfold([]);
  }

  /** Shown apart, the two are text; shown side by side, they are taken as a command. */
  lemma TriggerShownTwice()
    ensures Display(Pieces(Wtd(0, 0, Apart(STRPCCMD_SIGNATURE)))) == MARKER
    ensures Display(Pieces(Wtd(0, 0, MARKER))) == []
    ensures Events(Pieces(Wtd(0, 0, MARKER))) == [OnControlCharacters(0, 0), OnStrpccmdRequested(false, [])]
  {
    hide Pieces, BodyPieces, BodyLength;
    ApartPieces(STRPCCMD_SIGNATURE);
    WtdPieces(0, 0, Apart(STRPCCMD_SIGNATURE));
    MarkerPieces();
    WtdPieces(0, 0, MARKER);
    FlatMapOne(ShownBytes, Piece(BodyCommand, MARKER));
    FlatMapOne(EventsOf, Piece(BodyCommand, MARKER));
  }

  // ----- structured fields

  /** A structured field whose length prefix names its size. */
  predicate IsField(f: seq<byte>) {
    |f| >= 2 && Be16(f[0], f[1]) == |f|
  }

  predicate StartsLikeEsc(f: seq<byte>) {
    f != [] && f[0] == ESC
  }

  /** The fields' walk ends where the fields do, exactly when no length has the high byte 0x04. */
  lemma {:induction false} FieldsWalk(fs: seq<seq<byte>>, rest: seq<byte>)
    requires forall f | f in fs :: IsField(f)
    requires rest == [] || rest[0] == ESC
    ensures FieldsLength(Concat(fs) + rest) == |Concat(fs)| <==> forall f | f in fs :: !StartsLikeEsc(f)
    ensures (forall f | f in fs :: !StartsLikeEsc(f)) ==> FieldsFit(Concat(fs) + rest)
    ensures FieldsLength(Concat(fs) + rest) <= |Concat(fs)|
    decreases |fs|
  {
    if fs == [] {
      assert Concat(fs) + rest == rest;
    } else {
      var f := fs[0];
      assert f in fs && forall g :: g in fs <==> g == f || g in fs[1..];
      FlatMapCons(Id, fs);
      FieldsWalk(fs[1..], rest);
      var s := Concat(fs) + rest;
      hide FlatMap;
      assert s == f + (Concat(fs[1..]) + rest);
      assert s[0] == f[0] && s[1] == f[1];
      assert s[|f|..] == Concat(fs[1..]) + rest;
    }
  }

  /**
   Structured fields, embedded 0x04 bytes and all, reach the callback whole and
   parsing resumes right after them, exactly when no field's length has the
   high byte 0x04, which the walk would take for an ESC.
   */
  lemma FieldsReachCallback(fs: seq<seq<byte>>, rest: seq<byte>)
    requires forall f | f in fs :: IsField(f)
    requires rest == [] || rest[0] == ESC
    ensures var p := Piece(Command, [ESC, CC_WRITE_STRUCTURED_FIELD] + Concat(fs));
            var ps := Pieces([ESC, CC_WRITE_STRUCTURED_FIELD] + Concat(fs) + rest);
            && ps != []
            && (ps[0] == p <==> forall f | f in fs :: !StartsLikeEsc(f))
            && (ps[0] == p ==> ps == [p] + Pieces(rest) && EventsOf(p) == [OnWriteStructuredField(Concat(fs))])
  {
    var all := Concat(fs);
    FieldsWalk(fs, rest);
    FieldsWalk(fs, []);
    assert all + [] == all;
    hide FlatMap, Pieces, FieldsLength, FieldsFit, TopPiece, StartsLikeEsc;
    FieldsPiece(all, rest);
    PiecesUnfold([ESC, CC_WRITE_STRUCTURED_FIELD] + all + rest);
  }

  lemma FieldsPiece(all: seq<byte>, rest: seq<byte>)
    requires FieldsLength(all + rest) <= |all|
    ensures var p := Piece(Command, [ESC, CC_WRITE_STRUCTURED_FIELD] + all);
            var s := [ESC, CC_WRITE_STRUCTURED_FIELD] + all + rest;
            && (TopPiece(s) == p <==> FieldsLength(all + rest) == |all|)
            && !InBody(TopPiece(s)) && TopPiece(s).kind == Command && s[|p.bytes|..] == rest
            && (FieldsFit(all) ==> EventsOf(p) == [OnWriteStructuredField(all)])
  {
    hide FieldsLength, FieldsFit;
    var p := Piece(Command, [ESC, CC_WRITE_STRUCTURED_FIELD] + all);
    var s := [ESC, CC_WRITE_STRUCTURED_FIELD] + all + rest;
    var n := 2 + FieldsLength(all + rest);
    assert s[2..] == all + rest && p.bytes[2..] == all;
    assert TopPiece(s) == Piece(Command, s[..n]);
    assert s[..|p.bytes|] == p.bytes;
    assert [] + [OnWriteStructuredField(all)] == [OnWriteStructuredField(all)];
  }

  /** The walk over a prefix that the walk chose is the same walk. */
  lemma {:induction false} FieldsPrefix(s: seq<byte>)
    ensures FieldsFit(s[..FieldsLength(s)]) == FieldsFit(s)
  {
    if |s| >= 2 && s[0] != ESC && FieldFits(s) {
      var n := Be16(s[0], s[1]);
      FieldsPrefix(s[n..]);
      var t := s[..FieldsLength(s)];
      assert t[0] == s[0] && t[1] == s[1];
      assert t[n..] == s[n..][..FieldsLength(s[n..])];
    } else if |s| >= 2 && s[0] != ESC {
      assert s[..|s|] == s;
    }
  }

  // ----- the framing loop

  lemma TurnStable(buffer: seq<byte>, more: seq<byte>)
    requires NextTurn(buffer).Take?
    ensures NextTurn(buffer + more) == NextTurn(buffer)
  {
    var all := buffer + more;
    assert all[0] == buffer[0] && all[1] == buffer[1];
    var len := Be16(buffer[0], buffer[1]);
    if Gds.MIN_RECORD_LEN <= len <= |buffer| {
      assert all[..len] == buffer[..len];
    }
  }

  lemma TurnTakes(buffer: seq<byte>)
    requires NextTurn(buffer).Take?
    ensures var w := CuttingBytes(NextTurn(buffer).cut);
            w != [] && |w| <= |buffer| && buffer == w + buffer[|w|..]
  {
    hide Be16;
    assert forall n :: 0 <= n <= |buffer| ==> buffer == buffer[..n] + buffer[n..];
    assert [buffer[0]] == buffer[..1];
  }

  /** Every byte is cut off once, in order, or waits. */
  lemma {:induction false} CuttingsTile(buffer: seq<byte>)
    ensures FlatMap(CuttingBytes, Cuttings(buffer)) + Remainder(buffer) == buffer
    ensures NextTurn(Remainder(buffer)).Wait?
    decreases |buffer|
  {
    hide NextTurn;
    var turn := NextTurn(buffer);
    if turn.Wait? {
      assert FlatMap(CuttingBytes, []) + buffer == buffer;
    } else {
      hide FlatMap;
      TurnTakes(buffer);
      var w := CuttingBytes(turn.cut);
      var rest := buffer[|w|..];
      CuttingsTile(rest);
      FlatMapAppend(CuttingBytes, [turn.cut], Cuttings(rest));
      FlatMapOne(CuttingBytes, turn.cut);
      assert w + FlatMap(CuttingBytes, Cuttings(rest)) + Remainder(rest)
          == w + (FlatMap(CuttingBytes, Cuttings(rest)) + Remainder(rest));
    }
  }

  lemma CuttingsUnfold(buffer: seq<byte>)
    ensures var turn := NextTurn(buffer);
            if turn.Wait? then Cuttings(buffer) == [] && Remainder(buffer) == buffer
            else
              var rest := buffer[|CuttingBytes(turn.cut)|..];
              Cuttings(buffer) == [turn.cut] + Cuttings(rest) && Remainder(buffer) == Remainder(rest)
  {
    hide NextTurn;
  }

  lemma {:induction false} CuttingsAppend(a: seq<byte>, b: seq<byte>)
    ensures Cuttings(a + b) == Cuttings(a) + Cuttings(Remainder(a) + b)
    ensures Remainder(a + b) == Remainder(Remainder(a) + b)
    decreases |a|
  {
    hide NextTurn, Cuttings, Remainder;
    var turn := NextTurn(a);
    CuttingsUnfold(a);
    if turn.Wait? {
      assert [] + Cuttings(a + b) == Cuttings(a + b);
    } else {
      TurnStable(a, b);
      TurnTakes(a);
      CuttingsUnfold(a + b);
      var n := |CuttingBytes(turn.cut)|;
      CuttingsAppend(a[n..], b);
      assert (a + b)[n..] == a[n..] + b;
    }
  }

  lemma ParseTwo(s: State, a: seq<byte>, b: seq<byte>)
    ensures Parse(Parse(s, a), b) == Parse(s, a + b)
  {
    hide Cuttings, Remainder, FlatMap;
    CuttingsAppend(s.buffer + a, b);
    assert s.buffer + a + b == s.buffer + (a + b);
    FlatMapAppend(CuttingEvents, Cuttings(s.buffer + a), Cuttings(Remainder(s.buffer + a) + b));
  }

  lemma ParseNothing(s: State)
    requires NextTurn(s.buffer).Wait?
    ensures Parse(s, []) == s
  {
    assert s.buffer + [] == s.buffer;
    assert s.trace + [] == s.trace;
  }

  /**
   Chunk independence of the decoder: callbacks and the waiting bytes come out
   the same however the stream is cut, one-byte resynchronisation included.
   */
  lemma {:induction false} ChunkIndependence(s: State, chunks: seq<seq<byte>>)
    requires NextTurn(s.buffer).Wait?
    ensures ParseAll(s, chunks) == Parse(s, Concat(chunks))
  {
    hide Parse;
    if chunks == [] {
      ParseNothing(s);
    } else {
      ChunkIndependence(s, chunks[..|chunks| - 1]);
      ParseTwo(s, Concat(chunks[..|chunks| - 1]), chunks[|chunks| - 1]);
    }
  }

  function AsRecord(part: seq<byte>): seq<Cutting> {
    [Record(part)]
  }

  function AsRecords(parts: seq<seq<byte>>): seq<Cutting> {
    FlatMap(AsRecord, parts)
  }

  /**
   The decoder cuts a block without losing a byte to resynchronisation and
   without waiting for more exactly when the block's length fields tile it, and
   then at exactly those boundaries.
   */
  lemma {:induction false} TilesExactly(block: seq<byte>)
    ensures Gds.Tiles(block) <==>
              Remainder(block) == [] && forall k :: 0 <= k < |Cuttings(block)| ==> Cuttings(block)[k].Record?
    ensures Gds.Tiles(block) ==> Cuttings(block) == AsRecords(Gds.Parts(block))
    decreases |block|
  {
    var turn := NextTurn(block);
    CuttingsUnfold(block);
    hide Cuttings, Remainder;
    if Gds.Links(block) {
      var len := Be16(block[0], block[1]);
      var part, rest := block[..len], block[len..];
      TilesExactly(rest);
      hide FlatMap;
      assert turn == Take(Record(part));
      assert forall k :: 0 <= k < |Cuttings(rest)| ==> Cuttings(rest)[k] == Cuttings(block)[k + 1];
      FlatMapAppend(AsRecord, [part], Gds.Parts(rest));
      FlatMapOne(AsRecord, part);
    } else if turn.Take? {
      assert !Cuttings(block)[0].Record?;
    } else {
      assert Gds.Tail(block) == block && Gds.Parts(block) == [];
    }
  }
}
