/** The state of the screen model (the model half of TerminalWidget,
    src/terminalwidget.h:148-178) as a value, and every state-changing operation of
    src/terminalwidget.cpp as a function from the old state to the new one. The class
    Widget.TerminalWidget is proved to perform exactly these functions. */
module Screen {
  import opened Cells
  import opened Unicode
  import opened Grids

  /** m_scrollbackMax. */
  const ScrollbackMax: int := 1000

  /** m_currentFg, m_currentBg, m_currentStyle: the attributes given to every written cell. */
  datatype Attr = Attr(fg: int, bg: int, style: bv8)

  const DefaultAttr: Attr := Attr(DefaultFg, DefaultBg, 0)

  datatype Term = Term(
    main: Grid, alt: Grid, inAlt: bool,
    scrollback: seq<seq<Cell>>,
    row: int, col: int, savedRow: int, savedCol: int,
    attr: Attr,
    top: int, bottom: int,
    mouse: bool, selecting: bool, selected: bool,
    anchorLine: int, anchorCol: int, activeLine: int, activeCol: int)

  /** currentBuffer(). */
  function Current(t: Term): Grid {
    if t.inAlt then t.alt else t.main
  }

  function WithCurrent(t: Term, g: Grid): (t': Term)
    ensures Current(t') == g && t'.inAlt == t.inAlt
  {
    if t.inAlt then t.(alt := g) else t.(main := g)
  }

  /** What holds between any two calls. The cursor is NOT bounded above: putChar leaves the
      column at cols after writing the last column, and setTerminalSize does not re-clamp. */
  predicate Inv(t: Term) {
    Shaped(t) && 0 <= t.row && 0 <= t.col
  }

  /** Inv without the lower bounds on the cursor. */
  predicate Shaped(t: Term) {
    Ok(t.main) && Ok(t.alt) && t.alt.rows == t.main.rows && t.alt.cols == t.main.cols &&
    0 <= t.top < t.main.rows && t.bottom < t.main.rows &&
    |t.scrollback| <= ScrollbackMax &&
    0 <= t.anchorLine && 0 <= t.anchorCol && 0 <= t.activeLine && 0 <= t.activeCol
  }

  /** The constructor: two 24x80 buffers, scroll region rows 0..23, mouse reporting on. */
  function Initial(): (t: Term)
    ensures Inv(t)
  {
    Term(Sized(24, 80), Sized(24, 80), false, [], 0, 0, 0, 0, DefaultAttr,
         0, 23, true, false, false, 0, 0, 0, 0)
  }

  /** makeCellForCurrentAttr(): a space in the current colours and style. */
  function Blank(t: Term): Cell {
    Cell(Space, t.attr.fg, t.attr.bg, t.attr.style)
  }

  // ---------------------------------------------------------------------------
  // Cursor

  /** clampCursor(). */
  function ClampCursor(t: Term): (t': Term)
    requires Ok(Current(t))
    ensures Inv(t) ==> Inv(t')
    ensures 0 <= t'.row < Current(t).rows && 0 <= t'.col < Current(t).cols
  {
    t.(row := Clamp(t.row, 0, Current(t).rows - 1), col := Clamp(t.col, 0, Current(t).cols - 1))
  }

  /** setCursorPos(r, c, clamp). */
  function SetCursorPos(t: Term, r: int, c: int, clamp: bool): (t': Term)
    requires Ok(Current(t))
    ensures Inv(t) && (clamp || (0 <= r && 0 <= c)) ==> Inv(t')
    ensures t' == t.(row := t'.row, col := t'.col)
    ensures clamp ==> 0 <= t'.row < Current(t).rows && 0 <= t'.col < Current(t).cols
    ensures (!clamp || (0 <= r < Current(t).rows && 0 <= c < Current(t).cols)) ==> t'.row == r && t'.col == c
  {
    if clamp then t.(row := Clamp(r, 0, Current(t).rows - 1), col := Clamp(c, 0, Current(t).cols - 1))
    else t.(row := r, col := c)
  }

  /** setCursorRow(r): assign the row, then clamp both coordinates. */
  function SetCursorRow(t: Term, r: int): (t': Term)
    requires Ok(Current(t))
    ensures Inv(t) ==> Inv(t')
    ensures 0 <= t'.row < Current(t).rows && 0 <= t'.col < Current(t).cols
    ensures 0 <= r < Current(t).rows ==> t'.row == r
  {
    ClampCursor(t.(row := r))
  }

  /** setCursorCol(c): assign the column, then clamp both coordinates. */
  function SetCursorCol(t: Term, c: int): (t': Term)
    requires Ok(Current(t))
    ensures Inv(t) ==> Inv(t')
    ensures 0 <= t'.row < Current(t).rows && 0 <= t'.col < Current(t).cols
    ensures 0 <= c < Current(t).cols ==> t'.col == c
  {
    ClampCursor(t.(col := c))
  }

  function SaveCursorPos(t: Term): (t': Term)
    ensures Inv(t) ==> Inv(t')
  {
    t.(savedRow := t.row, savedCol := t.col)
  }

  function RestoreCursorPos(t: Term): (t': Term)
    requires Ok(Current(t))
    ensures Inv(t) ==> Inv(t')
  {
    ClampCursor(t.(row := t.savedRow, col := t.savedCol))
  }

  // ---------------------------------------------------------------------------
  // Scrolling

  /** What scrollUp/scrollDown demand: a non-empty region lies inside the buffer. */
  predicate RegionFits(t: Term, top: int, bottom: int) {
    Ok(Current(t)) && (top <= bottom ==> 0 <= top && bottom < Current(t).rows)
  }

  /** scrollUp(top, bottom): the region moves up one row, row bottom becomes blank, and the old
      row top is appended to the scrollback, evicting the oldest row at the cap. This happens
      on the alternate screen too. */
  function ScrollUp(t: Term, top: int, bottom: int): (t': Term)
    requires RegionFits(t, top, bottom)
    ensures Inv(t) ==> Inv(t')
    ensures t' == t.(main := t'.main, alt := t'.alt, scrollback := t'.scrollback)
    ensures Current(t').rows == Current(t).rows && Current(t').cols == Current(t).cols
  {
    if bottom - top + 1 <= 0 then t
    else
      var g := Current(t);
      var first := Row(g, top);
      var moved := if bottom - top + 1 > 1 then MoveUp(g, top, bottom) else g;
      var kept := if |t.scrollback| == ScrollbackMax then t.scrollback[1..] else t.scrollback;
      WithCurrent(t, FillRow(moved, bottom, 0, g.cols, Blank(t))).(scrollback := kept + [first])
  }

  /** scrollDown(top, bottom): the region moves down one row and row top becomes blank. */
  function ScrollDown(t: Term, top: int, bottom: int): (t': Term)
    requires RegionFits(t, top, bottom)
    ensures Inv(t) ==> Inv(t')
    ensures t' == t.(main := t'.main, alt := t'.alt)
    ensures Current(t').rows == Current(t).rows && Current(t').cols == Current(t).cols
  {
    if bottom - top + 1 <= 0 then t
    else
      var g := Current(t);
      var moved := if bottom - top + 1 > 1 then MoveDown(g, top, bottom) else g;
      WithCurrent(t, FillRow(moved, top, 0, g.cols, Blank(t)))
  }

  /** lineFeed(). */
  function LineFeed(t: Term): (t': Term)
    requires Inv(t)
    ensures Inv(t') && t'.inAlt == t.inAlt && t'.attr == t.attr
    ensures 0 <= t'.row < Current(t').rows && 0 <= t'.col < Current(t').cols
  {
    var t1 := t.(row := t.row + 1);
    var t2 := if t1.row > t.bottom then ScrollUp(t1, t.top, t.bottom).(row := t.bottom) else t1;
    ClampCursor(t2)
  }

  /** reverseLineFeed(). */
  function ReverseLineFeed(t: Term): (t': Term)
    requires Inv(t)
    ensures Inv(t') && t'.inAlt == t.inAlt && t'.attr == t.attr
    ensures 0 <= t'.row < Current(t').rows && 0 <= t'.col < Current(t').cols
  {
    var t1 := if t.row == t.top then ScrollDown(t, t.top, t.bottom) else t.(row := Max(t.row - 1, 0));
    ClampCursor(t1)
  }

  // ---------------------------------------------------------------------------
  // Writing

  /** putChar discards the code unit without touching anything. */
  predicate Discarded(u: Services, ch: u16) {
    !u.isPrint(ch) || ch == 0x7F || IsHighSurrogate(ch) || IsLowSurrogate(ch)
  }

  /** putChar(ch) writes inside the buffer: a cursor on a row that a shrink removed writes out
      of range unless the column is past the end, which wraps (and clamps) first. */
  predicate PutCharSafe(u: Services, t: Term, ch: u16) {
    ch == 0x0D || ch == 0x0A || Discarded(u, ch) ||
    t.col >= Current(t).cols || t.row < Current(t).rows
  }

  /** putChar(ch). */
  function PutChar(u: Services, t: Term, ch: u16): (t': Term)
    requires Inv(t) && PutCharSafe(u, t, ch)
    ensures Inv(t')
  {
    if ch == 0x0D then ClampCursor(t.(col := 0))
    else if ch == 0x0A then ClampCursor(LineFeed(t).(col := 0))
    else if Discarded(u, ch) then t
    else
      var t1 := if t.col >= Current(t).cols then LineFeed(t).(col := 0) else t;
      var g := Current(t1);
      WithCurrent(t1, SetAt(g, t1.row, t1.col, Cell(ch, t.attr.fg, t.attr.bg, t.attr.style))).(col := t1.col + 1)
  }

  /** eraseInLine(mode) stays inside the row: mode 1 clears [0, col], which leaves the row
      when the cursor sits in the deferred-wrap column. */
  predicate EraseInLineSafe(t: Term, mode: int) {
    !(0 <= t.row < Current(t).rows) || mode != 1 || t.col < Current(t).cols
  }

  /** eraseInLine(mode). */
  function EraseInLine(t: Term, mode: int): (t': Term)
    requires Inv(t) && EraseInLineSafe(t, mode)
    ensures Inv(t') && t' == t.(main := t'.main, alt := t'.alt)
    ensures Current(t').rows == Current(t).rows && Current(t').cols == Current(t).cols
  {
    var g := Current(t);
    if !(0 <= t.row < g.rows) then t
    else
      var start := if mode == 0 then t.col else 0;
      var end := if mode == 1 then t.col + 1 else g.cols;
      WithCurrent(t, FillRow(g, t.row, start, end, Blank(t)))
  }

  /** eraseInDisplay(mode). */
  function EraseInDisplay(t: Term, mode: int): (t': Term)
    requires Inv(t) && EraseInLineSafe(t, mode)
    ensures Inv(t')
  {
    var g := Current(t);
    if mode == 2 then WithCurrent(t, FillScreen(g, Blank(t)))
    else if mode == 0 then
      var t1 := EraseInLine(t, 0);
      WithCurrent(t1, FillRows(Current(t1), t.row + 1, g.rows, Blank(t)))
    else if mode == 1 then
      var t1 := EraseInLine(t, 1);
      WithCurrent(t1, FillRows(Current(t1), 0, t.row, Blank(t)))
    else t
  }

  /** insertChars(n) writes cell(row, col) after shifting, so the column must be inside. */
  predicate InsertCharsSafe(t: Term, n: int) {
    n < 1 || !(0 <= t.row < Current(t).rows) || t.col < Current(t).cols
  }

  /** insertChars(n). */
  function InsertChars(t: Term, n: int): (t': Term)
    requires Inv(t) && InsertCharsSafe(t, n)
    ensures Inv(t')
  {
    var g := Current(t);
    if !(0 <= t.row < g.rows) || n < 1 then t
    else WithCurrent(t, InsertInRow(g, t.row, t.col, n, Blank(t)))
  }

  /** deleteChars(n). */
  function DeleteChars(t: Term, n: int): (t': Term)
    requires Inv(t)
    ensures Inv(t')
  {
    var g := Current(t);
    if !(0 <= t.row < g.rows) || n < 1 then t
    else WithCurrent(t, DeleteInRow(g, t.row, t.col, n, Blank(t)))
  }

  /** eraseChars(n): blank cells col, col+1, ... up to n of them, stopping at the end of the row. */
  function EraseChars(t: Term, n: int): (t': Term)
    requires Inv(t)
    ensures Inv(t')
  {
    var g := Current(t);
    if !(0 <= t.row < g.rows) || n < 1 then t
    else WithCurrent(t, FillRow(g, t.row, t.col, t.col + n, Blank(t)))
  }

  // ---------------------------------------------------------------------------
  // Attributes

  /** One pass of the switch in setSGR: the attributes after the code at the head of ps, and
      the parameters still to read (38;5;N and 48;5;N consume three). */
  function SgrStep(a: Attr, ps: seq<int>): (r: (Attr, seq<int>))
    requires ps != []
    ensures |r.1| < |ps|
  {
    var p, rest := ps[0], ps[1..];
    if p == 0 then (DefaultAttr, rest)
    else if p == 1 then (a.(style := a.style | Bold), rest)
    else if p == 4 then (a.(style := a.style | Underline), rest)
    else if p == 7 then (a.(style := a.style | Inverse), rest)
    else if p == 22 then (a.(style := a.style & !Bold), rest)
    else if p == 24 then (a.(style := a.style & !Underline), rest)
    else if p == 27 then (a.(style := a.style & !Inverse), rest)
    else if p == 39 then (a.(fg := DefaultFg), rest)
    else if p == 49 then (a.(bg := DefaultBg), rest)
    else if 30 <= p <= 37 then (a.(fg := p - 30), rest)
    else if 40 <= p <= 47 then (a.(bg := p - 40), rest)
    else if 90 <= p <= 97 then (a.(fg := p - 90 + 8), rest)
    else if 100 <= p <= 107 then (a.(bg := p - 100 + 8), rest)
    else if p == 38 && |ps| >= 3 && ps[1] == 5 then (a.(fg := ps[2]), ps[3..])
    else if p == 48 && |ps| >= 3 && ps[1] == 5 then (a.(bg := ps[2]), ps[3..])
    else (a, rest)
  }

  /** The codes of setSGR applied left to right. */
  function Sgr(a: Attr, ps: seq<int>): Attr
    decreases |ps|
  {
    if ps == [] then a
    else
      var r := SgrStep(a, ps);
      Sgr(r.0, r.1)
  }

  /** setSGR(params): an empty list resets the attributes. */
  function SetSGR(t: Term, ps: seq<int>): (t': Term)
    ensures t' == t.(attr := t'.attr)
  {
    t.(attr := if ps == [] then DefaultAttr else Sgr(t.attr, ps))
  }

  // ---------------------------------------------------------------------------
  // Modes and geometry

  /** setScrollingRegion(top, bottom). */
  function SetScrollingRegion(t: Term, top: int, bottom: int): (t': Term)
    requires Ok(Current(t))
    ensures Inv(t) ==> Inv(t')
    ensures 0 <= t'.top <= t'.bottom <= Current(t).rows - 1
    ensures 0 <= top <= bottom < Current(t).rows ==> t'.top == top && t'.bottom == bottom
    ensures t' == t.(top := t'.top, bottom := t'.bottom)
  {
    var rows := Current(t).rows;
    if bottom < top then t.(top := 0, bottom := rows - 1)
    else t.(top := Clamp(top, 0, rows - 1), bottom := Clamp(bottom, 0, rows - 1))
  }

  /** useAlternateScreen(alt). */
  function UseAlternateScreen(t: Term, alt: bool): (t': Term)
    requires Ok(t.main)
    ensures Inv(t) ==> Inv(t')
  {
    if t.inAlt == alt then t
    else if alt then t.(alt := FillScreen(Sized(t.main.rows, t.main.cols), Blank(t)), inAlt := true)
    else t.(inAlt := false)
  }

  /** setTerminalSize(rows, cols), without the TIOCSWINSZ ioctl. */
  function SetTerminalSize(t: Term, rows: int, cols: int): (t': Term)
    requires Ok(t.main)
    ensures Inv(t) ==> Inv(t')
  {
    if t.main.rows == rows && t.main.cols == cols then t
    else t.(main := Resized(t.main, rows, cols, Blank(t)), alt := Sized(rows, cols),
            top := 0, bottom := rows - 1)
  }

  /** TerminalWidget::fullReset(). The blank is taken before the attributes are reset. */
  function FullReset(t: Term): (t': Term)
    requires Ok(t.main) && Ok(t.alt)
    ensures Inv(t) ==> Inv(t')
  {
    t.(scrollback := [], main := FillScreen(t.main, Blank(t)), alt := FillScreen(t.alt, Blank(t)),
       inAlt := false, row := 0, col := 0, attr := DefaultAttr,
       top := 0, bottom := t.main.rows - 1)
  }

  function SetMouseEnabled(t: Term, on: bool): (t': Term)
    ensures Inv(t) ==> Inv(t')
  {
    t.(mouse := on)
  }
}
