/**
 * What the weather scanner does to the text it is given: it deletes disjoint pieces, keeps the rest in
 * order, and reads each measurement off one of the pieces.
 */
module WeatherProofs {
  import opened Text
  import opened Numbers
  import opened Weather

  /** A piece of the scanned text that is gone, and why. */
  datatype Piece = Piece(start: nat, end: nat, kind: Kind)

  /** Where the scan stands in the text it started from, `total` characters long. */
  function Place(s: Scan, total: nat): int {
    total - (|s.remaining| - s.cursor)
  }

  /** A placeholder inside the comment is put back afterwards; every other cut is for good. */
  predicate IsLost(s: Scan, a: Action) {
    a.Cut? && !(a.kind.Placeholder? && s.cursor != 0)
  }

  /** The pieces lost from here to the end of the scan. */
  function Lost(s: Scan, total: nat): seq<Piece>
    requires IsScan(s) && Place(s, total) >= 0
    decreases |s.remaining| - s.cursor
  {
    if s.cursor == |s.remaining| then []
    else
      var a := Classify(s);
      var rest := Lost(Apply(s, a), total);
      if IsLost(s, a) then [Piece(Place(s, total), Place(s, total) + a.width, a.kind)] + rest else rest
  }

  /** The pieces lie in order within the text, from `from` on, without overlap. */
  predicate ArePieces(pieces: seq<Piece>, from: int, total: nat) {
    if pieces == [] then from <= total
    else from <= pieces[0].start < pieces[0].end && ArePieces(pieces[1..], pieces[0].end, total)
  }

  /** `text` from `from` on without the pieces. */
  function Delete(text: string, pieces: seq<Piece>, from: nat): string
    requires ArePieces(pieces, from, |text|)
    decreases |pieces|
  {
    if pieces == [] then text[from..]
    else
      PiecesFit(pieces, from, |text|);
      text[from..pieces[0].start] + Delete(text, pieces[1..], pieces[0].end)
  }

  lemma {:induction false} PiecesFit(pieces: seq<Piece>, from: int, total: nat)
    requires ArePieces(pieces, from, total)
    ensures from <= total
    ensures pieces != [] ==> pieces[0].end <= total
    decreases |pieces|
  {
    if pieces != [] { PiecesFit(pieces[1..], pieces[0].end, total); }
  }

  lemma {:induction false} LostArePieces(s: Scan, total: nat)
    requires IsScan(s) && Place(s, total) >= 0
    ensures ArePieces(Lost(s, total), Place(s, total), total)
    decreases |s.remaining| - s.cursor
  {
    hide Classify;
    if s.cursor < |s.remaining| {
      var a := Classify(s);
      var next := Apply(s, a);
      LostArePieces(next, total);
      PiecesLater(Lost(next, total), Place(next, total), Place(s, total), total);
      if IsLost(s, a) { assert Lost(s, total)[1..] == Lost(next, total); }
    }
  }

  lemma PiecesLater(pieces: seq<Piece>, from: int, earlier: int, total: nat)
    requires ArePieces(pieces, from, total) && earlier <= from
    ensures ArePieces(pieces, earlier, total)
  {
  }

  /** Kept text in front of the first piece comes out unchanged. */
  lemma DeleteLater(text: string, pieces: seq<Piece>, from: nat, later: nat)
    requires ArePieces(pieces, later, |text|) && from <= later
    ensures ArePieces(pieces, from, |text|) && later <= |text|
    ensures Delete(text, pieces, from) == text[from..later] + Delete(text, pieces, later)
  {
    PiecesFit(pieces, later, |text|);
    if pieces == [] {
      assert text[from..] == text[from..later] + text[later..];
    } else {
      var start := pieces[0].start;
      assert text[from..start] == text[from..later] + text[later..start];
      Assoc(text[from..later], text[later..start], Delete(text, pieces[1..], pieces[0].end));
    }
  }

  // ---- Putting placeholders back ---------------------------------------------------------

  /** Text after every insertion point is not touched. */
  lemma {:induction false} ReinsertFront(front: string, back: string, preserved: seq<(nat, string)>)
    requires ArePlaced(preserved, |front|)
    ensures ArePlaced(preserved, |front + back|)
    ensures Reinsert(front + back, preserved) == Reinsert(front, preserved) + back
    decreases |preserved|
  {
    if preserved != [] {
      var last := preserved[|preserved| - 1];
      var rest := preserved[..|preserved| - 1];
      assert last in preserved;
      var grown := Insert(front, last);
      assert Insert(front + back, last) == grown + back;
      ReinsertFront(grown, back, rest);
    }
  }

  lemma ReinsertLast(front: string, preserved: seq<(nat, string)>, piece: string)
    requires ArePlaced(preserved, |front|)
    ensures ArePlaced(preserved + [(|front|, piece)], |front|)
    ensures Reinsert(front, preserved + [(|front|, piece)]) == Reinsert(front, preserved) + piece
  {
    var all := preserved + [(|front|, piece)];
    assert all[..|all| - 1] == preserved;
    assert Insert(front, (|front|, piece)) == front + piece;
    ReinsertFront(front, piece, preserved);
  }

  // ---- Conservation ----------------------------------------------------------------------

  /** What has been kept so far, placeholders in place. */
  function Kept(s: Scan): string
    requires IsScan(s)
  {
    Reinsert(s.remaining[..s.cursor], s.preserved)
  }

  predicate IsSuffix(s: Scan, text: string) {
    s.cursor <= |s.remaining| && Place(s, |text|) >= 0 && s.remaining[s.cursor..] == text[Place(s, |text|)..]
  }

  /** One decision: the unread part stays a suffix, and what is passed over or preserved is kept. */
  lemma ApplyKeeps(s: Scan, text: string)
    requires IsScan(s) && IsSuffix(s, text) && s.cursor < |s.remaining|
    ensures var a := Classify(s);
            var next := Apply(s, a);
            && IsSuffix(next, text)
            && Place(s, |text|) < Place(next, |text|) <= |text|
            && Kept(next) == Kept(s) +
               if IsLost(s, a) then "" else text[Place(s, |text|)..Place(next, |text|)]
  {
    hide Classify, Record, Reinsert;
    var a := Classify(s);
    match a
    case Skip(to) => SkipKeeps(s, text, to);
    case Cut(width, kind) => CutKeeps(s, text, width, kind);
  }

  lemma SkipKeeps(s: Scan, text: string, to: nat)
    requires IsScan(s) && IsSuffix(s, text) && s.cursor < to <= |s.remaining|
    ensures var next := s.(cursor := to);
            && IsScan(next) && IsSuffix(next, text)
            && Kept(next) == Kept(s) + text[Place(s, |text|)..Place(next, |text|)]
  {
    hide Reinsert;
    var next := s.(cursor := to);
    var p, q := Place(s, |text|), Place(next, |text|);
    var unread := s.remaining[s.cursor..];
    assert s.remaining[to..] == unread[to - s.cursor..] == text[q..];
    var passed := s.remaining[s.cursor..to];
    assert passed == unread[..to - s.cursor] == text[p..q];
    assert s.remaining[..to] == s.remaining[..s.cursor] + passed;
    ReinsertFront(s.remaining[..s.cursor], passed, s.preserved);
  }

  /** What a cut does to the buffer and to the preserved placeholders. */
  lemma ApplyCut(s: Scan, width: nat, kind: Kind)
    requires s.cursor < |s.remaining| && 2 <= width && s.cursor + width <= |s.remaining|
    ensures var a := Cut(width, kind);
            var next := Apply(s, a);
            && next.cursor == s.cursor
            && next.remaining == s.remaining[..s.cursor] + s.remaining[s.cursor + width..]
            && next.preserved == s.preserved
                 + if IsLost(s, a) then [] else [(s.cursor, s.remaining[s.cursor..s.cursor + width])]
  {
    hide Record;
  }

  lemma CutKeeps(s: Scan, text: string, width: nat, kind: Kind)
    requires IsScan(s) && IsSuffix(s, text) && 2 <= width && s.cursor + width <= |s.remaining|
    ensures var a := Cut(width, kind);
            var next := Apply(s, a);
            && IsSuffix(next, text)
            && Place(next, |text|) == Place(s, |text|) + width
            && Kept(next) == Kept(s) +
               if IsLost(s, a) then "" else text[Place(s, |text|)..Place(next, |text|)]
  {
    hide Apply, Reinsert, IsLost;
    var a := Cut(width, kind);
    var next := Apply(s, a);
    ApplyCut(s, width, kind);
    var p := Place(s, |text|);
    var unread := s.remaining[s.cursor..];
    assert next.remaining[s.cursor..] == unread[width..] == text[p + width..];
    assert next.remaining[..s.cursor] == s.remaining[..s.cursor];
    if !IsLost(s, a) {
      var piece := s.remaining[s.cursor..s.cursor + width];
      assert piece == unread[..width] == text[p..p + width];
      ReinsertLast(s.remaining[..s.cursor], s.preserved, piece);
    } else {
      assert next.preserved == s.preserved;
    }
  }

  /** From any point of a scan: the text that comes out is what was kept and the rest without the lost pieces. */
  lemma {:induction false} RunConserves(s: Scan, text: string)
    requires IsScan(s) && IsSuffix(s, text)
    ensures ArePieces(Lost(s, |text|), Place(s, |text|), |text|)
    ensures Reinsert(Run(s).remaining, Run(s).preserved)
            == Kept(s) + Delete(text, Lost(s, |text|), Place(s, |text|))
    decreases |s.remaining| - s.cursor
  {
    hide Classify, Apply, Reinsert;
    LostArePieces(s, |text|);
    var p := Place(s, |text|);
    if s.cursor == |s.remaining| {
      assert s.remaining[..s.cursor] == s.remaining;
      assert Delete(text, [], p) == "";
    } else {
      var a := Classify(s);
      var next := Apply(s, a);
      ApplyKeeps(s, text);
      RunConserves(next, text);
      var q := Place(next, |text|);
      var later := Lost(next, |text|);
      if IsLost(s, a) {
        DeletePiece(s, text);
      } else {
        DeleteLater(text, later, p, q);
        Assoc(Kept(s), text[p..q], Delete(text, later, q));
      }
    }
  }

  lemma DeletePiece(s: Scan, text: string)
    requires IsScan(s) && IsSuffix(s, text) && s.cursor < |s.remaining| && IsLost(s, Classify(s))
    ensures var next := Apply(s, Classify(s));
            && Place(next, |text|) >= 0
            && ArePieces(Lost(s, |text|), Place(s, |text|), |text|)
            && ArePieces(Lost(next, |text|), Place(next, |text|), |text|)
            && Delete(text, Lost(s, |text|), Place(s, |text|))
               == Delete(text, Lost(next, |text|), Place(next, |text|))
  {
    hide Classify, Apply;
    var a := Classify(s);
    var next := Apply(s, a);
    ApplyCut(s, a.width, a.kind);
    LostArePieces(s, |text|);
    LostArePieces(next, |text|);
    var p := Place(s, |text|);
    assert Place(next, |text|) == p + a.width;
    assert Lost(s, |text|)[1..] == Lost(next, |text|);
    assert text[p..p] == "";
  }

  /**
   * Conservation: before its ends are trimmed, the comment of a report is the report after the wind
   * prefix with disjoint pieces deleted, everything else in order and untouched.
   */
  lemma ScanConserves(data: string)
    ensures var start := Start(data);
            var end := Run(start);
            var pieces := Lost(start, |start.remaining|);
            && ArePieces(pieces, 0, |start.remaining|)
            && Reinsert(end.remaining, end.preserved) == Delete(start.remaining, pieces, 0)
  {
    hide Classify, Run, Lost, Start, Delete;
    var start := Start(data);
    RunConserves(start, start.remaining);
    assert Kept(start) == "";
  }

  // ---- What is lost ----------------------------------------------------------------------

  /** A placeholder that is not put back. */
  predicate IsBlankKind(kind: Kind) { kind.Placeholder? || kind.RainPlaceholder? }

  /** Pieces from the front of the text with nothing kept between or before them. */
  predicate AreContiguous(pieces: seq<Piece>, from: int) {
    pieces == [] || (pieces[0].start == from && AreContiguous(pieces[1..], pieces[0].end))
  }

  lemma {:induction false} LostBlanksAreLeading(s: Scan, total: nat, i: nat)
    requires IsScan(s) && Place(s, total) >= 0 && i < |Lost(s, total)|
    requires IsBlankKind(Lost(s, total)[i].kind)
    ensures s.cursor == 0 && AreContiguous(Lost(s, total)[..i + 1], Place(s, total))
    decreases |s.remaining| - s.cursor
  {
    hide Classify, Apply;
    var a := Classify(s);
    var next := Apply(s, a);
    var pieces, later := Lost(s, total), Lost(next, total);
    if IsLost(s, a) {
      ApplyCut(s, a.width, a.kind);
      assert pieces[1..] == later;
      if i == 0 {
        FieldKinds(s);
        assert pieces[..1][1..] == [];
      } else {
        LostBlanksAreLeading(next, total, i - 1);
        assert pieces[..i + 1][1..] == later[..i];
      }
    } else {
      LostBlanksAreLeading(next, total, i);
      NotLostMovesOn(s);
    }
  }

  /** Text that is passed over or preserved leaves the cursor or a preserved piece past the front. */
  lemma NotLostMovesOn(s: Scan)
    requires s.cursor < |s.remaining| && !IsLost(s, Classify(s))
    ensures Apply(s, Classify(s)).cursor != 0
  {
    hide Classify;
  }

  /** A placeholder is lost only where everything before it was cut as well. */
  lemma PlaceholdersLostOnlyInFront(data: string)
    ensures var pieces := Lost(Start(data), |Start(data).remaining|);
            forall i :: 0 <= i < |pieces| && IsBlankKind(pieces[i].kind) ==> AreContiguous(pieces[..i + 1], 0)
  {
    hide Start, Lost;
    var start := Start(data);
    var pieces := Lost(start, |start.remaining|);
    forall i | 0 <= i < |pieces| && IsBlankKind(pieces[i].kind) ensures AreContiguous(pieces[..i + 1], 0) {
      LostBlanksAreLeading(start, |start.remaining|, i);
    }
  }

  /** The measurement a piece was cut for, `L` and `l` being one. */
  function Measurement(kind: Kind): Option<char> {
    match kind
    case Field(identifier, _) => Some(if identifier == 'l' then 'L' else identifier)
    case Voltage => Some('v')
    case RainCounter => Some('#')
    case _ => None
  }

  /** The measurements a state can no longer cut a piece for. */
  predicate IsSpent(s: Scan, m: char) {
    if m == 'v' then s.voltage else if m == '#' then s.rainCounter else m in s.seen
  }

  predicate PairsLl(s: Scan) { 'L' in s.seen <==> 'l' in s.seen }

  /** What a decision to cut for a measurement needs, and uses up. */
  lemma MeasurementIsFresh(s: Scan)
    requires s.cursor < |s.remaining| && PairsLl(s)
    ensures var a := Classify(s);
            var next := Apply(s, a);
            && PairsLl(next)
            && (forall m :: IsSpent(s, m) ==> IsSpent(next, m))
            && (a.Cut? && Measurement(a.kind).Some? ==>
                  !IsSpent(s, Measurement(a.kind).value) && IsSpent(next, Measurement(a.kind).value))
  {
    hide Classify, Apply;
    FieldKinds(s);
    ApplySpends(s, Classify(s));
  }

  lemma ApplySpends(s: Scan, a: Action)
    requires s.cursor < |s.remaining| && Advances(a, s.cursor, |s.remaining| - s.cursor)
    ensures var next := Apply(s, a);
            && next.voltage == (s.voltage || (a.Cut? && a.kind.Voltage?))
            && next.rainCounter == (s.rainCounter || (a.Cut? && a.kind.RainCounter?))
            && next.seen == s.seen + if a.Cut? && a.kind.Field? then Used(a.kind.identifier) else {}
  {
    hide Record;
  }

  lemma ValueKinds(cursor: nat, candidate: string, signWidth: nat, digits: nat)
    requires candidate != "" && FieldWidth(candidate[0]).Some?
    ensures var a := ClassifyValue(cursor, candidate, signWidth, digits);
            a.Cut? ==>
              && (a.kind.Field? || a.kind.Placeholder?)
              && a.kind.identifier == candidate[0]
              && (a.kind.Field? ==> FieldNumber(candidate[0], candidate[1..a.width]) == Some(a.kind.value))
  {
    hide NumericWidth, LeadingBlanks, FieldNumber, AllBlank, FieldWidth;
  }

  lemma FieldActionKinds(s: Scan, candidate: string)
    requires candidate != "" && FieldWidth(candidate[0]).Some?
    ensures var a := ClassifyField(s, candidate);
            a.Cut? && !a.kind.BlankTemperature? ==>
              && (a.kind.Field? || a.kind.Placeholder?)
              && a.kind.identifier == candidate[0]
              && (a.kind.Field? ==> FieldNumber(candidate[0], candidate[1..a.width]) == Some(a.kind.value))
  {
    hide IsLookalike, ClassifyValue, LeadingFieldChars, LeadingDigits, FieldNumber;
    var signWidth := if FieldWidth(candidate[0]).value.1 && CharAt(candidate, 1) == Some('-') then 1 else 0;
    ValueKinds(s.cursor, candidate, signWidth, LeadingDigits(candidate[1 + signWidth..]));
  }

  lemma LegacyKinds(s: Scan, candidate: string)
    requires candidate != ""
    ensures var a := ClassifyLegacy(s, candidate);
            a.Some? ==>
              && a.value.Cut?
              && ((a.value.kind.Voltage? && !s.voltage) || (a.value.kind.RainCounter? && !s.rainCounter)
                  || (a.value.kind.RainPlaceholder? && s.cursor == 0))
  {
    hide LeadingDigits, LeadingBlanks;
  }

  /** Where the kinds of cut come from; a field is cut for the new letter under the cursor. */
  lemma FieldKinds(s: Scan)
    requires s.cursor < |s.remaining|
    ensures var a := Classify(s);
            && (a.Cut? && a.kind.Field? ==>
                  && a.kind.identifier == s.remaining[s.cursor] && a.kind.identifier !in s.seen
                  && FieldWidth(a.kind.identifier).Some?
                  && s.cursor + a.width <= |s.remaining|
                  && FieldNumber(a.kind.identifier, s.remaining[s.cursor + 1..s.cursor + a.width]) == Some(a.kind.value))
            && (a.Cut? && a.kind.Voltage? ==> !s.voltage)
            && (a.Cut? && a.kind.RainCounter? ==> !s.rainCounter)
            && (a.Cut? && a.kind.RainPlaceholder? ==> s.cursor == 0)
  {
    hide ClassifyField, ClassifyLegacy, FieldNumber, FieldWidth;
    var candidate := s.remaining[s.cursor..];
    LegacyKinds(s, candidate);
    if FieldWidth(candidate[0]).Some? { FieldActionKinds(s, candidate); }
    var a := Classify(s);
    if a.Cut? { SliceOfSuffix(s.remaining, s.cursor, 1, a.width); }
  }

  lemma {:induction false} SpentStaysUncut(s: Scan, total: nat, i: nat)
    requires IsScan(s) && Place(s, total) >= 0 && PairsLl(s)
    requires i < |Lost(s, total)| && Measurement(Lost(s, total)[i].kind).Some?
    ensures !IsSpent(s, Measurement(Lost(s, total)[i].kind).value)
    decreases |s.remaining| - s.cursor
  {
    hide Classify, Apply, Measurement;
    MeasurementIsFresh(s);
    var a := Classify(s);
    var next := Apply(s, a);
    if IsLost(s, a) {
      if i > 0 { SpentStaysUncut(next, total, i - 1); }
    } else {
      SpentStaysUncut(next, total, i);
    }
  }

  lemma {:induction false} MeasurementsDiffer(s: Scan, total: nat, i: nat, j: nat)
    requires IsScan(s) && Place(s, total) >= 0 && PairsLl(s)
    requires i < j < |Lost(s, total)|
    requires Measurement(Lost(s, total)[i].kind).Some?
    ensures Measurement(Lost(s, total)[i].kind) != Measurement(Lost(s, total)[j].kind)
    decreases |s.remaining| - s.cursor
  {
    hide Classify, Apply, Measurement;
    MeasurementIsFresh(s);
    var a := Classify(s);
    var next := Apply(s, a);
    var later := Lost(next, total);
    if IsLost(s, a) {
      if i > 0 { MeasurementsDiffer(next, total, i - 1, j - 1); }
      else if Measurement(later[j - 1].kind).Some? { SpentStaysUncut(next, total, j - 1); }
    } else {
      MeasurementsDiffer(next, total, i, j);
    }
  }

  /** At most one piece is cut per measurement, and one each for voltage and raw rain counter. */
  lemma OnePiecePerMeasurement(data: string)
    ensures var pieces := Lost(Start(data), |Start(data).remaining|);
            forall i, j :: 0 <= i < j < |pieces| && Measurement(pieces[i].kind).Some? ==>
              Measurement(pieces[i].kind) != Measurement(pieces[j].kind)
  {
    hide Start, Lost, Measurement;
    var start := Start(data);
    var pieces := Lost(start, |start.remaining|);
    forall i, j | 0 <= i < j < |pieces| && Measurement(pieces[i].kind).Some?
      ensures Measurement(pieces[i].kind) != Measurement(pieces[j].kind)
    {
      MeasurementsDiffer(start, |start.remaining|, i, j);
    }
  }
}
