/** Properties of selection extraction (module Selection). */
module SelectionProps {
  import opened Cells
  import opened Unicode
  import opened Grids
  import opened Screen
  import opened Selection
  import opened Seqs

  /** When every line of the range resolves, there is one piece per line, in order. */
  lemma {:induction false} PiecesPerLine(t: Term, abs: int, k: int)
    requires Inv(t) && ScrollbackFits(t) && 0 <= abs && EndLine(t) < LineCount(t)
    requires 0 <= k <= EndLine(t) - abs
    ensures |Pieces(t, abs)| == EndLine(t) - abs + 1
    ensures CellsAt(t, abs + k).Some?
    ensures Pieces(t, abs)[k] == Piece(t, abs + k, CellsAt(t, abs + k).value)
    decreases EndLine(t) - abs
  {
    if k == 0 {
      if abs < EndLine(t) {
        PiecesPerLine(t, abs + 1, 0);
      }
    } else {
      PiecesPerLine(t, abs + 1, k - 1);
    }
  }

  /** The earlier end's column on the first line of a multi-line selection, through the end
      of the row. */
  lemma FirstPiece(t: Term, cells: seq<Cell>)
    requires Inv(t) && |cells| >= Current(t).cols && StartLine(t) < EndLine(t)
    ensures var sc := if t.anchorLine < t.activeLine then t.anchorCol else t.activeCol;
      Piece(t, StartLine(t), cells) == Chars(cells[Clamp(sc, 0, Current(t).cols - 1)..Current(t).cols])
  {
  }

  /** Whole rows between the first and the last line. */
  lemma InteriorPiece(t: Term, abs: int, cells: seq<Cell>)
    requires Inv(t) && |cells| >= Current(t).cols && StartLine(t) < abs < EndLine(t)
    ensures Piece(t, abs, cells) == Chars(cells[..Current(t).cols])
  {
  }

  /** From the start of the row through the later end's column on the last line. */
  lemma LastPiece(t: Term, cells: seq<Cell>)
    requires Inv(t) && |cells| >= Current(t).cols && StartLine(t) < EndLine(t)
    ensures var ec := if t.anchorLine > t.activeLine then t.anchorCol else t.activeCol;
      Piece(t, EndLine(t), cells) == Chars(cells[..Clamp(ec, 0, Current(t).cols - 1) + 1])
  {
  }

  /** With both ends on one line, both bounds come from the active end: one character. */
  lemma {:induction false} SameLineSelection(t: Term)
    requires Inv(t) && ScrollbackFits(t) && HasSelection(t)
    requires t.anchorLine == t.activeLine < LineCount(t)
    ensures var cells := CellsAt(t, t.activeLine).value;
      SelectedText(t) == [cells[Clamp(t.activeCol, 0, Current(t).cols - 1)].ch]
  {
    PiecesPerLine(t, StartLine(t), 0);
    var cells := CellsAt(t, t.activeLine).value;
    var c := Clamp(t.activeCol, 0, Current(t).cols - 1);
    assert Pieces(t, StartLine(t)) == [Piece(t, t.activeLine, cells)];
    assert cells[c..c + 1] == [cells[c]];
  }

  /** Without a selection the text is empty. */
  lemma NoSelectionNoText(t: Term)
    requires Inv(t) && ScrollbackFits(t) && !HasSelection(t)
    ensures SelectedText(t) == []
  {
  }

  /** When no copied cell holds a line feed, cutting the text at line feeds recovers the
      pieces, one per resolvable line. */
  lemma SelectedTextSplits(t: Term)
    requires Inv(t) && ScrollbackFits(t) && HasSelection(t) && Pieces(t, StartLine(t)) != []
    requires forall i :: 0 <= i < |Pieces(t, StartLine(t))| ==> Free(Pieces(t, StartLine(t))[i], LF)
    ensures SplitOn(SelectedText(t), LF) == Pieces(t, StartLine(t))
  {
    SplitJoin(Pieces(t, StartLine(t)), LF);
  }

  // ---------------------------------------------------------------------------
  // Word selection and the mouse gesture

  /** selectWordAtPosition on a resolvable line selects, on that line, the maximal run of
      non-space cells around col; on an unresolvable line it changes nothing. */
  lemma SelectWordEffect(u: Services, t: Term, row: int, col: int)
    requires Inv(t) && ScrollbackFits(t) && 0 <= row && 0 <= col < Current(t).cols
    ensures row >= LineCount(t) ==> SelectWord(u, t, row, col) == t
    ensures row < LineCount(t) ==>
      var cells := CellsAt(t, row).value;
      var t' := SelectWord(u, t, row, col);
      t'.selected && t'.anchorLine == row && t'.activeLine == row &&
      t'.anchorCol <= col <= t'.activeCol < Current(t).cols &&
      (forall k :: t'.anchorCol <= k <= t'.activeCol && k != col ==> !u.isSpace(cells[k].ch)) &&
      (t'.anchorCol == 0 || u.isSpace(cells[t'.anchorCol - 1].ch)) &&
      (t'.activeCol == Current(t).cols - 1 || u.isSpace(cells[t'.activeCol + 1].ch)) &&
      t' == t.(anchorLine := row, anchorCol := t'.anchorCol, activeLine := row,
               activeCol := t'.activeCol, selected := true)
  {
  }

  /** Because a one-line selection takes both bounds from the active column, a selected word
      copies as its last character only, and a one-character word not at all. */
  lemma WordSelectionCopiesLastChar(u: Services, t: Term, row: int, col: int)
    requires Inv(t) && ScrollbackFits(t) && 0 <= row < LineCount(t) && 0 <= col < Current(t).cols
    ensures var t' := SelectWord(u, t, row, col);
      var cells := CellsAt(t, row).value;
      SelectedText(t') == if t'.anchorCol == t'.activeCol then [] else [cells[t'.activeCol].ch]
  {
    var t' := SelectWord(u, t, row, col);
    assert CellsAt(t', row) == CellsAt(t, row);
    if t'.anchorCol != t'.activeCol {
      SameLineSelection(t');
    }
  }

  /** Press, drag and release with mouse handling on leave a selection from the clamped press
      point to the clamped drag point, present unless the two coincide. */
  lemma PressDragRelease(t: Term, l1: int, c1: int, l2: int, c2: int)
    requires Inv(t) && t.mouse
    ensures var t' := Release(Drag(Press(t, l1, c1), l2, c2));
      var p, q := ClampLineCol(t, l1, c1), ClampLineCol(t, l2, c2);
      t'.selected && !t'.selecting &&
      t'.anchorLine == p.0 && t'.anchorCol == p.1 && t'.activeLine == q.0 && t'.activeCol == q.1 &&
      (HasSelection(t') <==> p != q) &&
      Current(t') == Current(t) && t'.scrollback == t.scrollback
  {
  }

  /** A press hides any earlier selection until the release. */
  lemma PressHidesSelection(t: Term, l: int, c: int)
    requires Inv(t) && t.mouse
    ensures !HasSelection(Press(t, l, c)) && Press(t, l, c).selecting
  {
  }

  /** With mouse handling off the gesture changes nothing. */
  lemma MouseOffIgnored(u: Services, t: Term, l: int, c: int)
    requires Inv(t) && ScrollbackFits(t) && !t.mouse
    ensures Press(t, l, c) == t && Drag(t, l, c) == t && Release(t) == t && DoubleClick(u, t, l, c) == t
  {
  }
}
