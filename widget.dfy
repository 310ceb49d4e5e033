/** The screen-model half of TerminalWidget (src/terminalwidget.h:53-183,
    src/terminalwidget.cpp): two ScreenBuffers, the scrollback, the cursor, the attributes,
    the scroll region and the selection. Each method is proved to perform the function of
    module Screen or module Selection with the same name, so the properties proved there
    hold of the class. */
module Widgets {
  import opened Cells
  import opened Unicode
  import opened Grids
  import opened GridLoops
  import opened Buffers
  import opened Screen
  import opened Seqs
  import Selection

  /** selectedText's loop, one line on. */
  lemma PiecesStep(t: Term, abs: int)
    requires Inv(t) && Selection.ScrollbackFits(t) && 0 <= abs <= Selection.EndLine(t)
    ensures Selection.CellsAt(t, abs).None? ==> Selection.Pieces(t, abs) == Selection.Pieces(t, abs + 1)
    ensures Selection.CellsAt(t, abs).Some? ==>
      Selection.Pieces(t, abs) == [Selection.Piece(t, abs, Selection.CellsAt(t, abs).value)] + Selection.Pieces(t, abs + 1)
  {
  }

  class TerminalWidget {
    const main: ScreenBuffer
    const alt: ScreenBuffer
    var inAlt: bool
    var scrollback: seq<seq<Cell>>
    var row: int
    var col: int
    var savedRow: int
    var savedCol: int
    var fg: int
    var bg: int
    var style: bv8
    var top: int
    var bottom: int
    var mouse: bool
    var selecting: bool
    var selected: bool
    var anchorLine: int
    var anchorCol: int
    var activeLine: int
    var activeCol: int

    /** The value of the screen model. */
    ghost function State(): Term
      reads this, main, alt, main.data, alt.data
    {
      Term(Grid(main.rows, main.cols, main.data[..]), Grid(alt.rows, alt.cols, alt.data[..]), inAlt, scrollback, row, col, savedRow, savedCol,
           Attr(fg, bg, style), top, bottom, mouse, selecting, selected,
           anchorLine, anchorCol, activeLine, activeCol)
    }

    /** The two buffers are distinct objects over distinct arrays, both well formed. */
    ghost predicate Framed()
      reads this, main, alt, main.data, alt.data
    {
      main != alt && main.data != alt.data &&
      1 <= main.rows && 1 <= main.cols && main.data.Length == main.rows * main.cols &&
      1 <= alt.rows && 1 <= alt.cols && alt.data.Length == alt.rows * alt.cols
    }

    ghost predicate Valid()
      reads this, main, alt, main.data, alt.data
    {
      Framed() && Inv(State())
    }

    /** Valid except that the cursor coordinates may be negative: the state between
        assigning a coordinate and clampCursor(). */
    ghost predicate Unclamped()
      reads this, main, alt, main.data, alt.data
    {
      Framed() && Shaped(State())
    }

    /** currentBuffer(). */
    function Cur(): (b: ScreenBuffer)
      reads this
      ensures b == main || b == alt
    {
      if inAlt then alt else main
    }

    lemma CurModel()
      requires Framed()
      ensures Cur().Valid() && Cur().Model() == Current(State())
      ensures Cur().rows == Current(State()).rows && Cur().cols == Current(State()).cols
    {
    }

    /** The constructor: 24x80 buffers, region rows 0..23, mouse handling on. */
    constructor ()
      ensures Valid() && State() == Initial()
      ensures fresh(main) && fresh(alt) && fresh(main.data) && fresh(alt.data)
    {
      main := new ScreenBuffer(24, 80);
      alt := new ScreenBuffer(24, 80);
      inAlt := false;
      scrollback := [];
      row, col, savedRow, savedCol := 0, 0, 0, 0;
      fg, bg, style := DefaultFg, DefaultBg, 0;
      top, bottom := 0, 23;
      mouse, selecting, selected := true, false, false;
      anchorLine, anchorCol, activeLine, activeCol := 0, 0, 0, 0;
    }

    /** makeCellForCurrentAttr(). */
    method MakeCellForCurrentAttr() returns (x: Cell)
      ensures x == Blank(State())
    {
      x := Cell(Space, fg, bg, style);
    }

    // -------------------------------------------------------------------------
    // Cursor

    /** clampCursor(). */
    method ClampCursor()
      requires Unclamped()
      modifies this
      ensures Valid() && State() == Screen.ClampCursor(old(State()))
    {
      var buf := Cur();
      CurModel();
      row := Clamp(row, 0, buf.rows - 1);
      col := Clamp(col, 0, buf.cols - 1);
    }

    /** setCursorPos(r, c, clamp); its early return when nothing moves only skips a repaint,
        so the assignment is unconditional here. */
    method SetCursorPos(r: int, c: int, clamp: bool)
      requires Valid() && (clamp || (0 <= r && 0 <= c))
      modifies this
      ensures Valid() && State() == Screen.SetCursorPos(old(State()), r, c, clamp)
    {
      var buf := Cur();
      CurModel();
      var r', c' := r, c;
      if clamp {
        r' := Clamp(r, 0, buf.rows - 1);
        c' := Clamp(c, 0, buf.cols - 1);
      }
      row, col := r', c';
    }

    method SetCursorRow(r: int)
      requires Valid()
      modifies this
      ensures Valid() && State() == Screen.SetCursorRow(old(State()), r)
    {
      row := r;
      ClampCursor();
    }

    method SetCursorCol(c: int)
      requires Valid()
      modifies this
      ensures Valid() && State() == Screen.SetCursorCol(old(State()), c)
    {
      col := c;
      ClampCursor();
    }

    method SaveCursorPos()
      requires Valid()
      modifies this
      ensures Valid() && State() == Screen.SaveCursorPos(old(State()))
    {
      savedRow, savedCol := row, col;
    }

    method RestoreCursorPos()
      requires Valid()
      modifies this
      ensures Valid() && State() == Screen.RestoreCursorPos(old(State()))
    {
      row, col := savedRow, savedCol;
      ClampCursor();
    }

    // -------------------------------------------------------------------------
    // Scrolling

    /** scrollUp(top, bottom): copy row top out, memmove the region up one row, blank row
        bottom (ScreenBuffer.ScrollRegionUp), then push the copy onto the scrollback,
        popping the oldest row at the cap. */
    method ScrollUp(top: int, bottom: int)
      requires Valid() && RegionFits(State(), top, bottom)
      modifies this, main.data, alt.data
      ensures Valid() && State() == Screen.ScrollUp(old(State()), top, bottom)
    {
      var buf := Cur();
      CurModel();
      if bottom - top + 1 <= 0 {
        return;
      }
      var blank := MakeCellForCurrentAttr();
      var firstRow := buf.ScrollRegionUp(top, bottom, blank);
      if |scrollback| == ScrollbackMax {
        scrollback := scrollback[1..];
      }
      scrollback := scrollback + [firstRow];
    }

    /** scrollDown(top, bottom): memmove the region down one row and blank row top
        (ScreenBuffer.ScrollRegionDown). */
    method ScrollDown(top: int, bottom: int)
      requires Valid() && RegionFits(State(), top, bottom)
      modifies this, main.data, alt.data
      ensures Valid() && State() == Screen.ScrollDown(old(State()), top, bottom)
    {
      var buf := Cur();
      CurModel();
      if bottom - top + 1 <= 0 {
        return;
      }
      var blank := MakeCellForCurrentAttr();
      buf.ScrollRegionDown(top, bottom, blank);
    }

    /** lineFeed(). The source increments the row before calling scrollUp, which does not
        read the cursor, so the increment is folded into the branch here. */
    method LineFeed()
      requires Valid()
      modifies this, main.data, alt.data
      ensures Valid() && State() == Screen.LineFeed(old(State()))
    {
      if row + 1 > bottom {
        ScrollUp(top, bottom);
        row := bottom;
      } else {
        row := row + 1;
      }
      ClampCursor();
    }

    /** reverseLineFeed(). */
    method ReverseLineFeed()
      requires Valid()
      modifies this, main.data, alt.data
      ensures Valid() && State() == Screen.ReverseLineFeed(old(State()))
    {
      if row == top {
        ScrollDown(top, bottom);
      } else {
        row := Max(row - 1, 0);
      }
      ClampCursor();
    }

    // -------------------------------------------------------------------------
    // Writing

    /** putChar(ch). */
    method PutChar(u: Services, ch: u16)
      requires Valid() && PutCharSafe(u, State(), ch)
      modifies this, main.data, alt.data
      ensures Valid() && State() == Screen.PutChar(u, old(State()), ch)
    {
      if ch == 0x0D {
        col := 0;
        ClampCursor();
      } else if ch == 0x0A {
        LineFeed();
        col := 0;
        ClampCursor();
      } else if !u.isPrint(ch) || ch == 0x7F || IsHighSurrogate(ch) || IsLowSurrogate(ch) {
      } else {
        PutPrintable(u, ch);
      }
    }

    /** The writing branch of putChar: wrap first when the cursor is past the last column. */
    method PutPrintable(u: Services, ch: u16)
      requires Valid() && PutCharSafe(u, State(), ch) && ch != 0x0D && ch != 0x0A && !Discarded(u, ch)
      modifies this, main.data, alt.data
      ensures Valid() && State() == Screen.PutChar(u, old(State()), ch)
    {
      var buf := Cur();
      if col >= buf.cols {
        Wrap();
      }
      WriteAtCursor(ch);
    }

    /** The wrap of putChar: a line feed and a return to column 0. */
    method Wrap()
      requires Valid()
      modifies this, main.data, alt.data
      ensures Valid() && State() == Screen.LineFeed(old(State())).(col := 0)
    {
      LineFeed();
      col := 0;
    }

    /** The write of putChar: the cell under the cursor takes ch in the current attributes
        and the cursor moves one column right. */
    method WriteAtCursor(ch: u16)
      requires Valid() && row < Current(State()).rows && col < Current(State()).cols
      modifies this, main.data, alt.data
      ensures Valid()
      ensures var t := old(State());
        State() == WithCurrent(t, SetAt(Current(t), t.row, t.col, Cell(ch, t.attr.fg, t.attr.bg, t.attr.style))).(col := t.col + 1)
    {
      var buf := Cur();
      CurModel();
      buf.Set(row, col, Cell(ch, fg, bg, style));
      col := col + 1;
    }

    // -------------------------------------------------------------------------
    // Erasing, inserting and deleting

    /** eraseInLine(mode): mode 0 from the cursor to the end of the row, 1 from the start
        through the cursor, anything else the whole row. Its loop over the columns writes
        the blank cell in each, as fillRow's loop does; fillRow's clamps change nothing here,
        since the start is a cursor column and EraseInLineSafe keeps the end inside the row. */
    method EraseInLine(mode: int)
      requires Valid() && EraseInLineSafe(State(), mode)
      modifies this, main.data, alt.data
      ensures Valid() && State() == Screen.EraseInLine(old(State()), mode)
    {
      var buf := Cur();
      CurModel();
      if row < 0 || row >= buf.rows {
        return;
      }
      var start, end := 0, buf.cols;
      if mode == 0 {
        start := col;
      } else if mode == 1 {
        end := col + 1;
      }
      var blank := MakeCellForCurrentAttr();
      buf.FillRow(row, start, end, blank);
    }

    /** fillScreen(buf, x): every row of buf filled with x. */
    static method FillScreen(buf: ScreenBuffer, x: Cell)
      requires buf.Valid()
      modifies buf.data
      ensures buf.Valid() && buf.Model() == Grids.FillScreen(old(buf.Model()), x)
    {
      buf.FillRows(0, buf.rows, x);
    }

    /** eraseInDisplay(mode): 2 the whole screen; 0 the rest of the cursor row and every row
        below it; 1 the start of the cursor row through the cursor and every row above it;
        any other mode nothing. */
    method EraseInDisplay(mode: int)
      requires Valid() && EraseInLineSafe(State(), mode)
      modifies this, main.data, alt.data
      ensures Valid() && State() == Screen.EraseInDisplay(old(State()), mode)
    {
      if mode == 2 {
        var blank := MakeCellForCurrentAttr();
        var buf := Cur();
        CurModel();
        FillScreen(buf, blank);
      } else if mode == 0 {
        EraseBelow();
      } else if mode == 1 {
        EraseAbove();
      }
    }

    /** Mode 0 of eraseInDisplay. */
    method EraseBelow()
      requires Valid()
      modifies this, main.data, alt.data
      ensures Valid() && State() == Screen.EraseInDisplay(old(State()), 0)
    {
      var blank := MakeCellForCurrentAttr();
      EraseInLine(0);
      var buf := Cur();
      CurModel();
      buf.FillRows(row + 1, buf.rows, blank);
    }

    /** Mode 1 of eraseInDisplay. */
    method EraseAbove()
      requires Valid() && EraseInLineSafe(State(), 1)
      modifies this, main.data, alt.data
      ensures Valid() && State() == Screen.EraseInDisplay(old(State()), 1)
    {
      var blank := MakeCellForCurrentAttr();
      EraseInLine(1);
      var buf := Cur();
      CurModel();
      buf.FillRows(0, row, blank);
    }

    /** insertChars(n): n rounds, each shifting the rest of the cursor row right one column
        and blanking the cursor cell. */
    method InsertChars(n: int)
      requires Valid() && InsertCharsSafe(State(), n)
      modifies this, main.data, alt.data
      ensures Valid() && State() == Screen.InsertChars(old(State()), n)
    {
      var buf := Cur();
      CurModel();
      if row < 0 || row >= buf.rows || n < 1 {
        return;
      }
      var blank := MakeCellForCurrentAttr();
      InsertRounds(buf, row, col, n, blank);
    }

    /** The count loop of insertChars. */
    static method InsertRounds(buf: ScreenBuffer, r: int, col: int, n: int, x: Cell)
      requires buf.Valid() && 0 <= r < buf.rows && 0 <= col < buf.cols && 1 <= n
      modifies buf.data
      ensures buf.Valid() && buf.Model() == InsertInRow(old(buf.Model()), r, col, n, x)
    {
      ghost var g := buf.Model();
      var count := 0;
      while count < n
        invariant 0 <= count <= n && buf.Valid()
        invariant buf.Model() == if count == 0 then g else InsertInRow(g, r, col, count, x)
      {
        if count > 0 {
          InsertCompose(g, r, col, count, x);
        }
        buf.InsertOne(r, col, x);
        count := count + 1;
      }
    }

    /** deleteChars(n): n rounds, each shifting the rest of the cursor row left one column
        and blanking the last cell. */
    method DeleteChars(n: int)
      requires Valid()
      modifies this, main.data, alt.data
      ensures Valid() && State() == Screen.DeleteChars(old(State()), n)
    {
      var buf := Cur();
      CurModel();
      if row < 0 || row >= buf.rows || n < 1 {
        return;
      }
      var blank := MakeCellForCurrentAttr();
      DeleteRounds(buf, row, col, n, blank);
    }

    /** The count loop of deleteChars. */
    static method DeleteRounds(buf: ScreenBuffer, r: int, col: int, n: int, x: Cell)
      requires buf.Valid() && 0 <= r < buf.rows && 0 <= col && 1 <= n
      modifies buf.data
      ensures buf.Valid() && buf.Model() == DeleteInRow(old(buf.Model()), r, col, n, x)
    {
      ghost var g := buf.Model();
      var count := 0;
      while count < n
        invariant 0 <= count <= n && buf.Valid()
        invariant buf.Model() == if count == 0 then g else DeleteInRow(g, r, col, count, x)
      {
        if count > 0 {
          DeleteCompose(g, r, col, count, x);
        }
        buf.DeleteOne(r, col, x);
        count := count + 1;
      }
    }

    /** eraseChars(n): blank up to n cells from the cursor, stopping at the end of the row. */
    method EraseChars(n: int)
      requires Valid()
      modifies this, main.data, alt.data
      ensures Valid() && State() == Screen.EraseChars(old(State()), n)
    {
      var buf := Cur();
      CurModel();
      if row < 0 || row >= buf.rows || n < 1 {
        return;
      }
      var blank := MakeCellForCurrentAttr();
      EraseRun(buf, row, col, n, blank);
    }

    /** The loop of eraseChars. */
    static method EraseRun(buf: ScreenBuffer, r: int, col: int, n: int, x: Cell)
      requires buf.Valid() && 0 <= r < buf.rows && 0 <= col && 1 <= n
      modifies buf.data
      ensures buf.Valid() && buf.Model() == Grids.FillRow(old(buf.Model()), r, col, col + n, x)
    {
      ghost var g := buf.Model();
      FillRowEmpty(g, r, col, col, x);
      var i := 0;
      while i < n
        invariant 0 <= i <= n && col + i <= Max(col, buf.cols) && buf.Valid()
        invariant buf.Model() == Grids.FillRow(g, r, col, col + i, x)
      {
        var c := col + i;
        if c >= buf.cols {
          FillRowSameEnd(g, r, col, c, col + n, x);
          return;
        }
        FillRowSnoc(g, r, col, c, x);
        buf.Set(r, c, x);
        i := i + 1;
      }
    }

    // -------------------------------------------------------------------------
    // Attributes

    /** setSGR(params): the switch applied to each code in turn (SgrCode). The attributes
        are held in locals across the loop and stored at the end, which no reader can tell
        apart from updating the fields in place. */
    method SetSGR(ps: seq<int>)
      requires Valid()
      modifies this
      ensures Valid() && State() == Screen.SetSGR(old(State()), ps)
    {
      if ps == [] {
        fg, bg, style := DefaultFg, DefaultBg, 0;
        return;
      }
      fg, bg, style := SgrLoop(ps, fg, bg, style);
    }

    /** The loop of setSGR over the codes. */
    static method SgrLoop(ps: seq<int>, f0: int, b0: int, s0: bv8) returns (f: int, b: int, s: bv8)
      ensures Attr(f, b, s) == Sgr(Attr(f0, b0, s0), ps)
    {
      f, b, s := f0, b0, s0;
      var i := 0;
      while i < |ps|
        invariant 0 <= i <= |ps|
        invariant Sgr(Attr(f, b, s), ps[i..]) == Sgr(Attr(f0, b0, s0), ps)
      {
        i, f, b, s := SgrCode(ps, i, f, b, s);
      }
    }

    /** One pass of the switch in setSGR on the code at index i: the new attributes and the
        index of the next code, as SgrStep states them. */
    static method SgrCode(ps: seq<int>, i: int, f: int, b: int, s: bv8) returns (j: int, f': int, b': int, s': bv8)
      requires 0 <= i < |ps|
      ensures i < j <= |ps|
      ensures SgrStep(Attr(f, b, s), ps[i..]) == (Attr(f', b', s'), ps[j..])
    {
      var p := ps[i];
      assert ps[i..][0] == p && ps[i..][1..] == ps[i + 1..];
      if p == 38 || p == 48 {
        j, f', b' := SgrExtendedCode(ps, i, f, b);
        s' := s;
      } else {
        j := i + 1;
        f', b', s' := f, b, s;
        if p == 0 {
          f', b', s' := DefaultFg, DefaultBg, 0;
        } else if p == 1 {
          s' := s | Bold;
        } else if p == 4 {
          s' := s | Underline;
        } else if p == 7 {
          s' := s | Inverse;
        } else if p == 22 {
          s' := s & !Bold;
        } else if p == 24 {
          s' := s & !Underline;
        } else if p == 27 {
          s' := s & !Inverse;
        } else if p == 39 {
          f' := DefaultFg;
        } else if p == 49 {
          b' := DefaultBg;
        } else if 30 <= p <= 37 {
          f' := p - 30;
        } else if 40 <= p <= 47 {
          b' := p - 40;
        } else if 90 <= p <= 97 {
          f' := p - 90 + 8;
        } else if 100 <= p <= 107 {
          b' := p - 100 + 8;
        }
      }
    }

    /** Cases 38 and 48 of the switch: with a 5 and a value after it, the value becomes the
        foreground or background; otherwise only the code itself is consumed. */
    static method SgrExtendedCode(ps: seq<int>, i: int, f: int, b: int) returns (j: int, f': int, b': int)
      requires 0 <= i < |ps| && (ps[i] == 38 || ps[i] == 48)
      ensures i < j <= |ps|
      ensures forall s: bv8 :: SgrStep(Attr(f, b, s), ps[i..]) == (Attr(f', b', s), ps[j..])
    {
      j, f', b' := i + 1, f, b;
      if j + 1 < |ps| && ps[j] == 5 {
        j := j + 1;
        if j < |ps| {
          if ps[i] == 38 {
            f' := ps[j];
          } else {
            b' := ps[j];
          }
          j := j + 1;
        }
      }
      assert ps[i..][1..] == ps[i + 1..];
      if j == i + 3 {
        assert ps[i..][1] == 5 && ps[i..][2] == ps[i + 2] && ps[i..][3..] == ps[i + 3..];
      }
    }

    // -------------------------------------------------------------------------
    // Modes and geometry

    /** setScrollingRegion(top, bottom): a reversed pair resets the region to the whole
        screen; otherwise both ends clamp to the current buffer. */
    method SetScrollingRegion(t: int, b: int)
      requires Valid()
      modifies this
      ensures Valid() && State() == Screen.SetScrollingRegion(old(State()), t, b)
    {
      var buf := Cur();
      CurModel();
      if b < t {
        top, bottom := 0, buf.rows - 1;
      } else {
        top, bottom := Clamp(t, 0, buf.rows - 1), Clamp(b, 0, buf.rows - 1);
      }
    }

    /** setMouseEnabled(on). */
    method SetMouseEnabled(on: bool)
      requires Valid()
      modifies this
      ensures Valid() && State() == Screen.SetMouseEnabled(old(State()), on)
    {
      mouse := on;
    }

    /** useAlternateScreen(on): entering resizes the alternate buffer to the main one's size
        and fills it with blanks in the current attributes; leaving only switches back. */
    method UseAlternateScreen(on: bool)
      requires Valid()
      modifies this, alt
      ensures Valid() && State() == Screen.UseAlternateScreen(old(State()), on)
      ensures alt.data == old(alt.data) || fresh(alt.data)
    {
      if inAlt == on {
        return;
      }
      if on {
        var blank := MakeCellForCurrentAttr();
        alt.Resize(main.rows, main.cols);
        FillScreen(alt, blank);
      }
      inAlt := on;
    }

    /** setTerminalSize(rows, cols), without the TIOCSWINSZ ioctl: both buffers are resized,
        the overlap of the old main contents is copied back from the old cell array, the
        rows below the old height are blanked, and the region becomes the whole screen. */
    method SetTerminalSize(rows: int, cols: int)
      requires Valid()
      modifies this, main, alt
      ensures Valid() && State() == Screen.SetTerminalSize(old(State()), rows, cols)
      ensures (main.data == old(main.data) && alt.data == old(alt.data)) || (fresh(main.data) && fresh(alt.data))
    {
      if main.rows == rows && main.cols == cols {
        return;
      }
      var blank := MakeCellForCurrentAttr();
      ResizeKeeping(main, rows, cols, blank);
      alt.Resize(rows, cols);
      top, bottom := 0, rows - 1;
    }

    /** The main-screen half of setTerminalSize: keep the old cell array (the copy oldMain),
        resize, copy the overlap back and blank the rows below the old height. */
    static method ResizeKeeping(buf: ScreenBuffer, rows: int, cols: int, x: Cell)
      requires buf.Valid()
      modifies buf
      ensures buf.Valid() && fresh(buf.data) && buf.Model() == Resized(old(buf.Model()), rows, cols, x)
    {
      var oldCells, oldCols := buf.data, buf.cols;
      ghost var prev := buf.Model();
      var copyRows, copyCols := Min(rows, buf.rows), Min(cols, buf.cols);
      buf.Resize(rows, cols);
      CopyOverlap(buf, oldCells, oldCols, prev, copyRows, copyCols);
      BlankRows(buf, copyRows, rows, cols, x);
      ResizedBuilt(prev, rows, cols, x);
    }

    /** The copy loops of setTerminalSize: cell (r, c) of buf takes the old cell for every
        r < copyRows and c < copyCols. */
    static method CopyOverlap(buf: ScreenBuffer, src: array<Cell>, srcCols: int, ghost prev: Grid,
                              copyRows: int, copyCols: int)
      requires buf.Valid() && Ok(prev) && src != buf.data && src[..] == prev.cells && srcCols == prev.cols
      requires copyRows <= prev.rows && copyRows <= buf.rows && copyCols <= prev.cols && copyCols <= buf.cols
      modifies buf.data
      ensures buf.Valid() && buf.Model() == Pasted(old(buf.Model()), prev, copyRows, 0, copyCols)
    {
      ghost var g := buf.Model();
      PasteNone(g, prev, 0, 0, copyCols);
      var r := 0;
      while r < copyRows
        invariant 0 <= r && (r <= copyRows || r == 0)
        invariant buf.Valid() && buf.Model() == Pasted(g, prev, r, 0, copyCols)
      {
        var c := 0;
        while c < copyCols
          invariant 0 <= c && (c <= copyCols || c == 0)
          invariant buf.Valid() && buf.Model() == Pasted(g, prev, r, c, copyCols)
        {
          IndexInRange(r, c, prev.rows, prev.cols);
          PasteCell(g, prev, r, c, copyCols);
          buf.Set(r, c, src[r * srcCols + c]);
          c := c + 1;
        }
        PasteRowDone(g, prev, r, copyCols);
        r := r + 1;
      }
      if copyRows < 0 {
        PasteNone(g, prev, copyRows, 0, copyCols);
      }
    }

    /** The blanking loops of setTerminalSize: rows r0..r1-1, columns 0..cols-1. */
    static method BlankRows(buf: ScreenBuffer, r0: int, r1: int, cols: int, x: Cell)
      requires buf.Valid() && buf.cols == AtLeastOne(cols) && (0 <= r0 || r1 <= r0)
      modifies buf.data
      ensures buf.Valid()
      ensures buf.Model() == if cols >= 1 then Grids.FillRows(old(buf.Model()), r0, r1, x) else old(buf.Model())
    {
      ghost var g := buf.Model();
      if r1 <= r0 {
        FillRowsEmpty(g, r0, r1, x);
        return;
      }
      FillRowsEmpty(g, r0, r0, x);
      var r := r0;
      while r < r1
        invariant r0 <= r <= r1 && buf.Valid()
        invariant buf.Model() == if cols >= 1 then Grids.FillRows(g, r0, r, x) else g
      {
        if cols >= 1 {
          FillRowsStep(g, r0, r, x);
        } else {
          FillRowEmpty(g, r, 0, cols, x);
        }
        buf.FillRow(r, 0, cols, x);
        r := r + 1;
      }
    }

    /** fullReset(): the scrollback cleared, both screens blanked in the attributes of the
        moment, then the cursor, the attributes and the region reset. Clearing the scrollback
        is independent of the fills, so it is done with the other resets here. */
    method FullReset()
      requires Valid()
      modifies this, main.data, alt.data
      ensures Valid() && State() == Screen.FullReset(old(State()))
    {
      var blank := MakeCellForCurrentAttr();
      BlankScreens(blank);
      scrollback, inAlt := [], false;
      ResetCursorAndRegion();
      ResetAttributes();
    }

    /** The cursor and region assignments of fullReset. */
    method ResetCursorAndRegion()
      requires Framed()
      modifies this
      ensures Framed()
      ensures State() == old(State()).(row := 0, col := 0, top := 0, bottom := main.rows - 1)
    {
      row, col := 0, 0;
      top, bottom := 0, main.rows - 1;
    }

    /** The attribute assignments of fullReset. */
    method ResetAttributes()
      requires Framed()
      modifies this
      ensures Framed() && State() == old(State()).(attr := DefaultAttr)
    {
      fg, bg, style := DefaultFg, DefaultBg, 0;
    }

    /** setCurrentFg(fg). */
    method SetCurrentFg(f: int)
      requires Valid()
      modifies this
      ensures Valid() && State() == old(State()).(attr := old(State()).attr.(fg := f))
    {
      fg := f;
    }

    /** setCurrentBg(bg). */
    method SetCurrentBg(b: int)
      requires Valid()
      modifies this
      ensures Valid() && State() == old(State()).(attr := old(State()).attr.(bg := b))
    {
      bg := b;
    }

    /** setCurrentStyle(st). */
    method SetCurrentStyle(s: bv8)
      requires Valid()
      modifies this
      ensures Valid() && State() == old(State()).(attr := old(State()).attr.(style := s))
    {
      style := s;
    }

    /** fillScreen(*getMainScreen(), x). */
    method FillMainScreen(x: Cell)
      requires Valid()
      modifies main.data
      ensures Valid() && State() == old(State()).(main := Grids.FillScreen(old(State()).main, x))
    {
      FillScreen(main, x);
    }

    /** fillScreen(*getAlternateScreen(), x). */
    method FillAlternateScreen(x: Cell)
      requires Valid()
      modifies alt.data
      ensures Valid() && State() == old(State()).(alt := Grids.FillScreen(old(State()).alt, x))
    {
      FillScreen(alt, x);
    }

    /** The two fillScreen calls of fullReset. */
    method BlankScreens(x: Cell)
      requires Framed()
      modifies main.data, alt.data
      ensures Framed()
      ensures var t := old(State());
        State() == t.(main := Grids.FillScreen(t.main, x), alt := Grids.FillScreen(t.alt, x))
    {
      FillScreen(main, x);
      FillScreen(alt, x);
    }

    // -------------------------------------------------------------------------
    // Selection

    /** hasSelection(): a selection is present and its two ends differ. */
    method HasSelection() returns (b: bool)
      requires Valid()
      ensures b == Selection.HasSelection(State())
    {
      if !selected {
        return false;
      }
      if anchorLine == activeLine && anchorCol == activeCol {
        return false;
      }
      return true;
    }

    /** getCellsAtAbsoluteLine(absLine): a scrollback row, a row of the current screen, or
        none past the last line. */
    method GetCellsAtAbsoluteLine(abs: int) returns (r: Option<seq<Cell>>)
      requires Valid() && 0 <= abs
      ensures r == Selection.CellsAt(State(), abs)
    {
      if abs < |scrollback| {
        return Some(scrollback[abs]);
      }
      var offset := abs - |scrollback|;
      var buf := Cur();
      CurModel();
      if offset < buf.rows {
        IndexInRange(offset, 0, buf.rows, buf.cols);
        return Some(buf.data[offset * buf.cols .. offset * buf.cols + buf.cols]);
      }
      return None;
    }

    /** clampLineCol(line, col). */
    method ClampLineCol(line: int, col: int) returns (l: int, c: int)
      requires Valid()
      ensures (l, c) == Selection.ClampLineCol(State(), line, col)
    {
      var buf := Cur();
      CurModel();
      l := Clamp(line, 0, |scrollback| + buf.rows - 1);
      c := Clamp(col, 0, buf.cols - 1);
    }

    /** selectedText(): for each line from the first to the last end, the characters between
        the clamped bounds, the lines joined with '\n'; lines that do not resolve are skipped. */
    method SelectedText() returns (text: seq<u16>)
      requires Valid() && Selection.ScrollbackFits(State())
      ensures text == Selection.SelectedText(State())
    {
      var has := HasSelection();
      if !has {
        return [];
      }
      ghost var t := State();
      var buf := Cur();
      CurModel();
      var startLine, endLine := Min(anchorLine, activeLine), Max(anchorLine, activeLine);
      var lines: seq<seq<u16>> := [];
      var abs := startLine;
      while abs <= endLine
        invariant startLine <= abs <= endLine + 1
        invariant lines + Selection.Pieces(t, abs) == Selection.Pieces(t, startLine)
      {
        var piece := PieceAt(abs);
        PiecesStep(t, abs);
        if piece.Some? {
          assert Selection.Pieces(t, abs) == [piece.value] + Selection.Pieces(t, abs + 1);
          assert lines + Selection.Pieces(t, abs) == (lines + [piece.value]) + Selection.Pieces(t, abs + 1);
          lines := lines + [piece.value];
        }
        abs := abs + 1;
      }
      assert lines == lines + Selection.Pieces(t, abs);
      text := JoinWith(lines, Selection.LF);
    }

    /** One line of selectedText: its text, or none when the line does not resolve. */
    method PieceAt(abs: int) returns (piece: Option<seq<u16>>)
      requires Valid() && Selection.ScrollbackFits(State()) && 0 <= abs
      ensures piece.None? <==> Selection.CellsAt(State(), abs).None?
      ensures piece.Some? ==> piece.value == Selection.Piece(State(), abs, Selection.CellsAt(State(), abs).value)
    {
      var rowCells := GetCellsAtAbsoluteLine(abs);
      if rowCells.None? {
        return None;
      }
      var lineText := LineText(abs, rowCells.value);
      return Some(lineText);
    }

    /** The text of one resolvable line in selectedText. */
    method LineText(abs: int, rowCells: seq<Cell>) returns (lineText: seq<u16>)
      requires Valid() && |rowCells| >= Current(State()).cols
      ensures lineText == Selection.Piece(State(), abs, rowCells)
    {
      var buf := Cur();
      CurModel();
      var sc := if abs == Min(anchorLine, activeLine) then (if anchorLine < activeLine then anchorCol else activeCol) else 0;
      var ec := if abs == Max(anchorLine, activeLine) then (if anchorLine > activeLine then anchorCol else activeCol)
                else buf.cols - 1;
      if sc > ec {
        sc, ec := ec, sc;
      }
      sc := Clamp(sc, 0, buf.cols - 1);
      ec := Clamp(ec, 0, buf.cols - 1);
      lineText := CharsBetween(rowCells, sc, ec);
    }

    /** The characters of cells sc..ec, one by one. */
    static method CharsBetween(cells: seq<Cell>, sc: int, ec: int) returns (text: seq<u16>)
      requires 0 <= sc <= ec < |cells|
      ensures text == Selection.Chars(cells[sc..ec + 1])
    {
      text := [];
      var c := sc;
      while c <= ec
        invariant sc <= c <= ec + 1
        invariant text == Selection.Chars(cells[sc..c])
      {
        text := text + [cells[c].ch];
        c := c + 1;
      }
    }

    /** selectWordAtPosition(row, col), on a point clampLineCol has clamped: the run of
        non-space cells around col on that line becomes the selection. */
    method SelectWordAtPosition(u: Services, row: int, col: int)
      requires Valid() && Selection.ScrollbackFits(State()) && 0 <= row && 0 <= col < Current(State()).cols
      modifies this
      ensures Valid() && State() == Selection.SelectWord(u, old(State()), row, col)
    {
      var found := GetCellsAtAbsoluteLine(row);
      if found.None? {
        return;
      }
      var cells := found.value;
      var buf := Cur();
      CurModel();
      var startCol := WordStartOf(u, cells, col);
      var endCol := WordEndOf(u, cells, col, buf.cols - 1);
      SetSelectionEnds(row, startCol, row, endCol);
      selected := true;
    }

    /** The scan left from col over non-space cells. */
    static method WordStartOf(u: Services, cells: seq<Cell>, col: int) returns (startCol: int)
      requires 0 <= col < |cells|
      ensures startCol == Selection.WordStart(u, cells, col)
    {
      startCol := col;
      while startCol > 0 && !u.isSpace(cells[startCol - 1].ch)
        invariant 0 <= startCol <= col
        invariant Selection.WordStart(u, cells, startCol) == Selection.WordStart(u, cells, col)
      {
        startCol := startCol - 1;
      }
    }

    /** The scan right from col over non-space cells, up to column last. */
    static method WordEndOf(u: Services, cells: seq<Cell>, col: int, last: int) returns (endCol: int)
      requires 0 <= col <= last < |cells|
      ensures endCol == Selection.WordEnd(u, cells, col, last)
    {
      endCol := col;
      while endCol < last && !u.isSpace(cells[endCol + 1].ch)
        invariant col <= endCol <= last
        invariant Selection.WordEnd(u, cells, endCol, last) == Selection.WordEnd(u, cells, col, last)
      {
        endCol := endCol + 1;
      }
    }

    /** The four end coordinates of the selection. */
    method SetSelectionEnds(al: int, ac: int, l: int, c: int)
      requires Framed() && 0 <= al && 0 <= ac && 0 <= l && 0 <= c
      modifies this
      ensures Framed()
      ensures State() == old(State()).(anchorLine := al, anchorCol := ac, activeLine := l, activeCol := c)
    {
      anchorLine, anchorCol := al, ac;
      activeLine, activeCol := l, c;
    }

    /** clearSelection(). */
    method ClearSelection()
      requires Valid()
      modifies this
      ensures Valid() && State() == Selection.ClearSelection(old(State()))
    {
      selected := false;
    }

    // -------------------------------------------------------------------------
    // Mouse events with the left button, at the absolute line and column the event
    // position maps to

    /** mousePressEvent, single click: with mouse handling on, a new selection starts at the
        clamped point and is not yet present. */
    method MousePress(line: int, col: int)
      requires Valid()
      modifies this
      ensures Valid() && State() == Selection.Press(old(State()), line, col)
    {
      if !mouse {
        return;
      }
      selecting, selected := true, false;
      var l, c := ClampLineCol(line, col);
      SetSelectionEnds(l, c, l, c);
    }

    /** mouseMoveEvent with the left button held: the active end follows the pointer. */
    method MouseMove(line: int, col: int)
      requires Valid()
      modifies this
      ensures Valid() && State() == Selection.Drag(old(State()), line, col)
    {
      if !mouse || !selecting {
        return;
      }
      var l, c := ClampLineCol(line, col);
      activeLine, activeCol := l, c;
    }

    /** mouseReleaseEvent: the selection ends and is marked present. */
    method MouseRelease()
      requires Valid()
      modifies this
      ensures Valid() && State() == Selection.Release(old(State()))
    {
      if !mouse {
        return;
      }
      selecting, selected := false, true;
    }

    /** mousePressEvent, double click: the word at the clamped point. */
    method MouseDoubleClick(u: Services, line: int, col: int)
      requires Valid() && Selection.ScrollbackFits(State())
      modifies this
      ensures Valid() && State() == Selection.DoubleClick(u, old(State()), line, col)
    {
      if !mouse {
        return;
      }
      var l, c := ClampLineCol(line, col);
      SelectWordAtPosition(u, l, c);
    }
  }
}
