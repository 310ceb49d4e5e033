/** Selection over the scrollback and the current screen (src/terminalwidget.cpp:397-401,
    765-934 and the selection updates of the mouse handlers, 1229-1281). Lines are numbered
    absolutely: scrollback rows first, oldest at 0, then the rows of the current screen. */
module Selection {
  import opened Cells
  import opened Unicode
  import opened Grids
  import opened Screen
  import opened Seqs

  /** hasSelection(). */
  predicate HasSelection(t: Term) {
    t.selected && !(t.anchorLine == t.activeLine && t.anchorCol == t.activeCol)
  }

  /** Every scrollback row is at least as wide as the current screen. Scrollback rows keep
      the width they had when they scrolled off, so after a widening resize this fails, and
      selectedText and selectWordAtPosition then read past the end of a stored row. */
  predicate ScrollbackFits(t: Term) {
    forall i :: 0 <= i < |t.scrollback| ==> |t.scrollback[i]| >= Current(t).cols
  }

  /** The number of addressable lines. */
  function LineCount(t: Term): int {
    |t.scrollback| + Current(t).rows
  }

  /** getCellsAtAbsoluteLine(absLine): the scrollback row, else the screen row, else none. */
  function CellsAt(t: Term, abs: int): (r: Option<seq<Cell>>)
    requires Inv(t) && 0 <= abs
    ensures r.Some? <==> abs < LineCount(t)
    ensures abs < |t.scrollback| ==> r == Some(t.scrollback[abs])
    ensures r.Some? && |t.scrollback| <= abs ==>
      |r.value| == Current(t).cols &&
      forall c :: 0 <= c < Current(t).cols ==> r.value[c] == At(Current(t), abs - |t.scrollback|, c)
    ensures r.Some? && ScrollbackFits(t) ==> |r.value| >= Current(t).cols
  {
    if abs < |t.scrollback| then Some(t.scrollback[abs])
    else
      var offset := abs - |t.scrollback|;
      if offset < Current(t).rows then Some(Row(Current(t), offset)) else None
  }

  /** clampLineCol(line, col). */
  function ClampLineCol(t: Term, line: int, col: int): (r: (int, int))
    requires Inv(t)
    ensures 0 <= r.0 < LineCount(t) && 0 <= r.1 < Current(t).cols
    ensures 0 <= line < LineCount(t) ==> r.0 == line
    ensures 0 <= col < Current(t).cols ==> r.1 == col
  {
    (Clamp(line, 0, LineCount(t) - 1), Clamp(col, 0, Current(t).cols - 1))
  }

  // ---------------------------------------------------------------------------
  // selectedText

  function Chars(cells: seq<Cell>): (s: seq<u16>)
    ensures |s| == |cells|
    ensures forall i :: 0 <= i < |cells| ==> s[i] == cells[i].ch
  {
    seq(|cells|, i requires 0 <= i < |cells| => cells[i].ch)
  }

  function StartLine(t: Term): int { Min(t.anchorLine, t.activeLine) }
  function EndLine(t: Term): int { Max(t.anchorLine, t.activeLine) }

  /** The column range taken from line abs, before clamping: the earlier end's column on the
      first line, the later end's on the last, the whole row in between; swapped if reversed. */
  function Bounds(t: Term, abs: int): (r: (int, int))
    ensures r.0 <= r.1
  {
    var sc := if abs == StartLine(t) then (if t.anchorLine < t.activeLine then t.anchorCol else t.activeCol) else 0;
    var ec := if abs == EndLine(t) then (if t.anchorLine > t.activeLine then t.anchorCol else t.activeCol)
              else Current(t).cols - 1;
    if sc > ec then (ec, sc) else (sc, ec)
  }

  /** The text selectedText takes from one resolvable line. */
  function Piece(t: Term, abs: int, cells: seq<Cell>): (s: seq<u16>)
    requires Inv(t) && |cells| >= Current(t).cols
    ensures 1 <= |s| <= Current(t).cols
  {
    var b := Bounds(t, abs);
    var sc, ec := Clamp(b.0, 0, Current(t).cols - 1), Clamp(b.1, 0, Current(t).cols - 1);
    Chars(cells[sc..ec + 1])
  }

  /** One piece per resolvable line from abs to the end line; unresolvable lines are skipped. */
  function Pieces(t: Term, abs: int): (ps: seq<seq<u16>>)
    requires Inv(t) && ScrollbackFits(t) && 0 <= abs
    ensures |ps| <= Max(EndLine(t) - abs + 1, 0)
    decreases EndLine(t) - abs
  {
    if abs > EndLine(t) then []
    else
      match CellsAt(t, abs)
      case None => Pieces(t, abs + 1)
      case Some(cells) => [Piece(t, abs, cells)] + Pieces(t, abs + 1)
  }

  const LF: u16 := 0x0A

  /** selectedText(). */
  function SelectedText(t: Term): seq<u16>
    requires Inv(t) && ScrollbackFits(t)
  {
    if !HasSelection(t) then [] else JoinWith(Pieces(t, StartLine(t)), LF)
  }

  // ---------------------------------------------------------------------------
  // Word selection and the mouse-driven updates

  /** The start of the run of non-space cells ending at col. */
  function WordStart(u: Services, cells: seq<Cell>, col: int): (s: int)
    requires 0 <= col < |cells|
    ensures 0 <= s <= col
    ensures forall k :: s <= k < col ==> !u.isSpace(cells[k].ch)
    ensures s == 0 || u.isSpace(cells[s - 1].ch)
  {
    if col > 0 && !u.isSpace(cells[col - 1].ch) then WordStart(u, cells, col - 1) else col
  }

  /** The end of the run of non-space cells starting at col, stopping at column last. */
  function WordEnd(u: Services, cells: seq<Cell>, col: int, last: int): (e: int)
    requires 0 <= col <= last < |cells|
    ensures col <= e <= last
    ensures forall k :: col < k <= e ==> !u.isSpace(cells[k].ch)
    ensures e == last || u.isSpace(cells[e + 1].ch)
    decreases last - col
  {
    if col < last && !u.isSpace(cells[col + 1].ch) then WordEnd(u, cells, col + 1, last) else col
  }

  /** selectWordAtPosition(row, col), with (row, col) already clamped by clampLineCol. */
  function SelectWord(u: Services, t: Term, row: int, col: int): (t': Term)
    requires Inv(t) && ScrollbackFits(t) && 0 <= row && 0 <= col < Current(t).cols
    ensures Inv(t')
  {
    match CellsAt(t, row)
    case None => t
    case Some(cells) =>
      t.(anchorLine := row, anchorCol := WordStart(u, cells, col),
         activeLine := row, activeCol := WordEnd(u, cells, col, Current(t).cols - 1), selected := true)
  }

  function ClearSelection(t: Term): (t': Term)
    ensures !HasSelection(t') && t' == t.(selected := false)
  {
    t.(selected := false)
  }

  /** A left-button press at (line, col) with mouse handling on: a new selection starts at the
      clamped point and is not yet shown. With mouse handling off, nothing changes. */
  function Press(t: Term, line: int, col: int): (t': Term)
    requires Inv(t)
    ensures Inv(t')
  {
    if !t.mouse then t
    else
      var p := ClampLineCol(t, line, col);
      t.(selecting := true, selected := false, anchorLine := p.0, anchorCol := p.1,
         activeLine := p.0, activeCol := p.1)
  }

  /** A move with the left button held during a selection moves its active end. */
  function Drag(t: Term, line: int, col: int): (t': Term)
    requires Inv(t)
    ensures Inv(t')
  {
    if !t.mouse || !t.selecting then t
    else
      var p := ClampLineCol(t, line, col);
      t.(activeLine := p.0, activeCol := p.1)
  }

  /** A left-button release ends the selection and marks it present. */
  function Release(t: Term): (t': Term)
    requires Inv(t)
    ensures Inv(t')
  {
    if !t.mouse then t else t.(selecting := false, selected := true)
  }

  /** A double click: clamp, then select the word there. */
  function DoubleClick(u: Services, t: Term, line: int, col: int): (t': Term)
    requires Inv(t) && ScrollbackFits(t)
    ensures Inv(t')
  {
    if !t.mouse then t
    else
      var p := ClampLineCol(t, line, col);
      SelectWord(u, t, p.0, p.1)
  }
}
