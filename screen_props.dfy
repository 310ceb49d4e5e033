/** Properties of the screen-model operations (module Screen): which cells and fields each
    one changes, and the places where the source writes outside the buffer. */
module ScreenProps {
  import opened Cells
  import opened Unicode
  import opened Grids
  import opened Screen

  /** The cell the current attributes give to a written code unit. */
  function Written(t: Term, ch: u16): Cell {
    Cell(ch, t.attr.fg, t.attr.bg, t.attr.style)
  }

  // ---------------------------------------------------------------------------
  // Scrolling

  /** scrollUp: rows top+1..bottom move up one, row bottom becomes the blank of the current
      attributes, other rows keep their cells; the old row top is appended to the scrollback
      and the oldest row is dropped when 1000 are kept, so there are never more than 1000. */
  lemma {:induction false} ScrollUpAt(t: Term, top: int, bottom: int, r: int, c: int)
    requires Inv(t) && 0 <= top <= bottom < Current(t).rows
    requires 0 <= r < Current(t).rows && 0 <= c < Current(t).cols
    ensures top <= r < bottom ==> r + 1 < Current(t).rows
    ensures Ok(Current(ScrollUp(t, top, bottom)))
    ensures Current(ScrollUp(t, top, bottom)).rows == Current(t).rows
    ensures Current(ScrollUp(t, top, bottom)).cols == Current(t).cols
    ensures At(Current(ScrollUp(t, top, bottom)), r, c) ==
      if top <= r < bottom then At(Current(t), r + 1, c)
      else if r == bottom then Blank(t)
      else At(Current(t), r, c)
    ensures ScrollUp(t, top, bottom).scrollback ==
      (if |t.scrollback| == ScrollbackMax then t.scrollback[1..] else t.scrollback) + [Row(Current(t), top)]
    ensures |ScrollUp(t, top, bottom).scrollback| <= ScrollbackMax
    ensures ScrollUp(t, top, bottom) ==
      WithCurrent(t, Current(ScrollUp(t, top, bottom))).(scrollback := ScrollUp(t, top, bottom).scrollback)
  {
    var g := Current(t);
    var moved := if bottom - top + 1 > 1 then MoveUp(g, top, bottom) else g;
    FillRowAt(moved, bottom, 0, g.cols, Blank(t), r, c);
    if bottom - top + 1 > 1 {
      MoveUpAt(g, top, bottom, r, c);
    }
  }

  /** scrollDown: rows top..bottom-1 move down one, row top becomes the blank, other rows and
      the scrollback are unchanged. */
  lemma {:induction false} ScrollDownAt(t: Term, top: int, bottom: int, r: int, c: int)
    requires Inv(t) && 0 <= top <= bottom < Current(t).rows
    requires 0 <= r < Current(t).rows && 0 <= c < Current(t).cols
    ensures top < r <= bottom ==> 0 <= r - 1
    ensures Ok(Current(ScrollDown(t, top, bottom)))
    ensures Current(ScrollDown(t, top, bottom)).rows == Current(t).rows
    ensures Current(ScrollDown(t, top, bottom)).cols == Current(t).cols
    ensures At(Current(ScrollDown(t, top, bottom)), r, c) ==
      if top < r <= bottom then At(Current(t), r - 1, c)
      else if r == top then Blank(t)
      else At(Current(t), r, c)
    ensures ScrollDown(t, top, bottom) == WithCurrent(t, Current(ScrollDown(t, top, bottom)))
  {
    var g := Current(t);
    var moved := if bottom - top + 1 > 1 then MoveDown(g, top, bottom) else g;
    FillRowAt(moved, top, 0, g.cols, Blank(t), r, c);
    if bottom - top + 1 > 1 {
      MoveDownAt(g, top, bottom, r, c);
    }
  }

  /** An empty region (bottom < top) makes both scrolls do nothing. */
  lemma EmptyRegionNoScroll(t: Term, top: int, bottom: int)
    requires Inv(t) && bottom < top
    ensures ScrollUp(t, top, bottom) == t && ScrollDown(t, top, bottom) == t
  {
  }

  /** lineFeed: below the region bottom the row advances by one and nothing else changes
      but the column clamp; past it the region scrolls up and the row becomes bottom. */
  lemma LineFeedEffect(t: Term)
    requires Inv(t)
    ensures t.row < t.bottom ==>
      LineFeed(t) == t.(col := Clamp(t.col, 0, Current(t).cols - 1), row := t.row + 1)
    ensures t.row >= t.bottom ==>
      var s := ScrollUp(t, t.top, t.bottom);
      LineFeed(t) == s.(row := Max(t.bottom, 0), col := Clamp(t.col, 0, Current(s).cols - 1))
  {
  }

  /** reverseLineFeed: at the region top the region scrolls down and the row stays; elsewhere
      the row goes up one, never below 0. */
  lemma ReverseLineFeedEffect(t: Term)
    requires Inv(t)
    ensures t.row == t.top ==>
      var s := ScrollDown(t, t.top, t.bottom);
      ReverseLineFeed(t) == s.(col := Clamp(t.col, 0, Current(s).cols - 1))
    ensures t.row != t.top ==>
      ReverseLineFeed(t) == t.(row := Clamp(Max(t.row - 1, 0), 0, Current(t).rows - 1),
                               col := Clamp(t.col, 0, Current(t).cols - 1))
  {
    if t.row == t.top {
      var s := ScrollDown(t, t.top, t.bottom);
      assert Current(s).rows == Current(t).rows;
    }
  }

  // ---------------------------------------------------------------------------
  // putChar

  /** CR returns to column 0; LF feeds a line and returns to column 0. */
  lemma PutCharControls(u: Services, t: Term)
    requires Inv(t)
    ensures PutChar(u, t, 0x0D) == t.(row := Clamp(t.row, 0, Current(t).rows - 1), col := 0)
    ensures PutChar(u, t, 0x0A) == LineFeed(t).(col := 0)
  {
    var l := LineFeed(t);
    assert 0 <= l.row < Current(l).rows;
  }

  /** Non-printable code units, DEL and surrogate halves change nothing. */
  lemma PutCharDiscards(u: Services, t: Term, ch: u16)
    requires Inv(t) && Discarded(u, ch) && ch != 0x0D && ch != 0x0A
    ensures PutChar(u, t, ch) == t
  {
  }

  /** A printable code unit wraps first when the column is past the end, then lands at the
      cursor with the current attributes; only that cell changes and the column advances,
      possibly to cols (the deferred wrap). */
  lemma {:induction false} PutCharWrites(u: Services, t: Term, ch: u16, r: int, c: int)
    requires Inv(t) && PutCharSafe(u, t, ch)
    requires ch != 0x0D && ch != 0x0A && !Discarded(u, ch)
    requires 0 <= r < Current(t).rows && 0 <= c < Current(t).cols
    ensures var t1 := if t.col >= Current(t).cols then LineFeed(t).(col := 0) else t;
      var t' := PutChar(u, t, ch);
      0 <= t1.row < Current(t1).rows && 0 <= t1.col < Current(t1).cols &&
      t' == WithCurrent(t1, Current(t')).(col := t1.col + 1) &&
      Current(t').rows == Current(t).rows && Current(t').cols == Current(t).cols &&
      At(Current(t'), r, c) == if r == t1.row && c == t1.col then Written(t, ch) else At(Current(t1), r, c)
    ensures 1 <= PutChar(u, t, ch).col <= Current(t).cols
  {
    var t1 := if t.col >= Current(t).cols then LineFeed(t).(col := 0) else t;
    var g := Current(t1);
    SetAtAt(g, t1.row, t1.col, Written(t, ch), r, c);
  }

  /** Writing in the last column leaves the column at cols, and eraseInLine(1) from there
      writes one column past the row: the failure is reachable from a valid state. */
  lemma DeferredWrapBreaksEraseToCursor(u: Services, t: Term, ch: u16)
    requires Inv(t) && 0 <= t.row < Current(t).rows && t.col == Current(t).cols - 1
    requires ch != 0x0D && ch != 0x0A && !Discarded(u, ch)
    ensures PutChar(u, t, ch).col == Current(PutChar(u, t, ch)).cols
    ensures !EraseInLineSafe(PutChar(u, t, ch), 1)
    ensures !InsertCharsSafe(PutChar(u, t, ch), 1)
  {
  }

  lemma DeferredWrapExample()
    ensures var t := PutChar(AsciiServices, Initial().(col := 79), 'A' as u16);
      Inv(t) && t.col == 80 && !EraseInLineSafe(t, 1) && !InsertCharsSafe(t, 1)
  {
    DeferredWrapBreaksEraseToCursor(AsciiServices, Initial().(col := 79), 'A' as u16);
  }

  // ---------------------------------------------------------------------------
  // Erasing, inserting and deleting

  /** eraseInLine: mode 0 blanks the cursor row from the cursor to the end, mode 1 from the
      start through the cursor, every other mode the whole row; a cursor row outside the
      buffer changes nothing, and nothing but the current screen changes. */
  lemma {:induction false} EraseInLineAt(t: Term, mode: int, r: int, c: int)
    requires Inv(t) && EraseInLineSafe(t, mode)
    requires 0 <= r < Current(t).rows && 0 <= c < Current(t).cols
    ensures var t' := EraseInLine(t, mode);
      t' == WithCurrent(t, Current(t')) &&
      Current(t').rows == Current(t).rows && Current(t').cols == Current(t).cols &&
      At(Current(t'), r, c) ==
        if r == t.row && (mode == 0 ==> t.col <= c) && (mode == 1 ==> c <= t.col) then Blank(t)
        else At(Current(t), r, c)
  {
    var g := Current(t);
    if 0 <= t.row < g.rows {
      var start := if mode == 0 then t.col else 0;
      var end := if mode == 1 then t.col + 1 else g.cols;
      FillRowAt(g, t.row, start, end, Blank(t), r, c);
    }
  }

  /** eraseInDisplay: mode 2 blanks the screen, mode 0 everything from the cursor on, mode 1
      everything up to and including the cursor, any other mode nothing. */
  lemma {:induction false} EraseInDisplayAt(t: Term, mode: int, r: int, c: int)
    requires Inv(t) && EraseInLineSafe(t, mode)
    requires 0 <= r < Current(t).rows && 0 <= c < Current(t).cols
    ensures var t' := EraseInDisplay(t, mode);
      t' == WithCurrent(t, Current(t')) &&
      Current(t').rows == Current(t).rows && Current(t').cols == Current(t).cols &&
      At(Current(t'), r, c) ==
        if mode == 2 then Blank(t)
        else if mode == 0 && (r > t.row || (r == t.row && c >= t.col)) then Blank(t)
        else if mode == 1 && (r < t.row || (r == t.row && c <= t.col)) then Blank(t)
        else At(Current(t), r, c)
  {
    var g := Current(t);
    if mode == 0 || mode == 1 {
      var t1 := EraseInLine(t, mode);
      EraseInLineAt(t, mode, r, c);
      if mode == 0 {
        FillRowsAt(Current(t1), t.row + 1, g.rows, Blank(t), r, c);
      } else {
        FillRowsAt(Current(t1), 0, t.row, Blank(t), r, c);
      }
    } else if mode == 2 {
      assert At(Current(EraseInDisplay(t, mode)), r, c) == Current(EraseInDisplay(t, mode)).cells[Index(g, r, c)];
    }
  }

  /** A count below 1 makes insertChars, deleteChars and eraseChars do nothing. */
  lemma CharOpsNeedPositiveCount(t: Term, n: int)
    requires Inv(t) && n < 1
    ensures InsertChars(t, n) == t && DeleteChars(t, n) == t && EraseChars(t, n) == t
  {
  }

  /** insertChars(n): on the cursor row, cells from the cursor shift right by n (those pushed
      past the last column are lost) and the n opened cells are blank; all else is kept. */
  lemma {:induction false} InsertCharsAt(t: Term, n: int, r: int, c: int)
    requires Inv(t) && InsertCharsSafe(t, n) && 1 <= n
    requires 0 <= r < Current(t).rows && 0 <= c < Current(t).cols
    ensures var t' := InsertChars(t, n);
      t' == WithCurrent(t, Current(t')) &&
      Current(t').rows == Current(t).rows && Current(t').cols == Current(t).cols &&
      At(Current(t'), r, c) ==
        if r == t.row && t.col <= c then
          (if t.col <= c - n then At(Current(t), r, c - n) else Blank(t))
        else At(Current(t), r, c)
  {
    if 0 <= t.row < Current(t).rows {
      InsertInRowAt(Current(t), t.row, t.col, n, Blank(t), r, c);
    }
  }

  /** deleteChars(n): on the cursor row, cells after the cursor shift left by n and the
      vacated tail is blank; a cursor past the last column blanks only the last cell. */
  lemma {:induction false} DeleteCharsAt(t: Term, n: int, r: int, c: int)
    requires Inv(t) && 1 <= n
    requires 0 <= r < Current(t).rows && 0 <= c < Current(t).cols
    ensures var t' := DeleteChars(t, n);
      t' == WithCurrent(t, Current(t')) &&
      Current(t').rows == Current(t).rows && Current(t').cols == Current(t).cols &&
      At(Current(t'), r, c) ==
        if r == t.row && Min(t.col, Current(t).cols - 1) <= c then
          (if t.col <= c && c + n < Current(t).cols then At(Current(t), r, c + n) else Blank(t))
        else At(Current(t), r, c)
  {
    if 0 <= t.row < Current(t).rows {
      DeleteInRowAt(Current(t), t.row, t.col, n, Blank(t), r, c);
    }
  }

  /** eraseChars(n): blanks the cells col .. col+n-1 of the cursor row that exist, without
      shifting anything. */
  lemma {:induction false} EraseCharsAt(t: Term, n: int, r: int, c: int)
    requires Inv(t) && 1 <= n
    requires 0 <= r < Current(t).rows && 0 <= c < Current(t).cols
    ensures var t' := EraseChars(t, n);
      t' == WithCurrent(t, Current(t')) &&
      Current(t').rows == Current(t).rows && Current(t').cols == Current(t).cols &&
      At(Current(t'), r, c) ==
        if r == t.row && t.col <= c < t.col + n then Blank(t) else At(Current(t), r, c)
  {
    if 0 <= t.row < Current(t).rows {
      FillRowAt(Current(t), t.row, t.col, t.col + n, Blank(t), r, c);
    }
  }

  // ---------------------------------------------------------------------------
  // setSGR

  /** The codes the switch of setSGR acts on; every other code falls to its default case. */
  predicate KnownSgr(p: int) {
    p in {0, 1, 4, 7, 22, 24, 27, 39, 49, 38, 48} || 30 <= p <= 37 || 40 <= p <= 47 ||
    90 <= p <= 97 || 100 <= p <= 107
  }

  /** An empty list and code 0 reset the attributes; 39 and 49 reset one colour each. */
  lemma SgrResets(t: Term, a: Attr, rest: seq<int>)
    ensures SetSGR(t, []).attr == DefaultAttr && SetSGR(t, [0]).attr == DefaultAttr
    ensures Sgr(a, [0] + rest) == Sgr(DefaultAttr, rest)
    ensures Sgr(a, [39] + rest) == Sgr(a.(fg := DefaultFg), rest)
    ensures Sgr(a, [49] + rest) == Sgr(a.(bg := DefaultBg), rest)
  {
  }

  /** A code other than 38 and 48 acts on its own, whatever follows it. */
  lemma SgrPlain(a: Attr, p: int, rest: seq<int>)
    requires p != 38 && p != 48
    ensures SgrStep(a, [p] + rest) == (SgrStep(a, [p]).0, rest)
    ensures Sgr(a, [p] + rest) == Sgr(SgrStep(a, [p]).0, rest)
  {
    assert ([p] + rest)[1..] == rest;
  }

  /** The eight- and sixteen-colour ranges. */
  lemma SgrColourRanges(a: Attr, p: int, rest: seq<int>)
    ensures 30 <= p <= 37 ==> Sgr(a, [p] + rest) == Sgr(a.(fg := p - 30), rest)
    ensures 40 <= p <= 47 ==> Sgr(a, [p] + rest) == Sgr(a.(bg := p - 40), rest)
    ensures 90 <= p <= 97 ==> Sgr(a, [p] + rest) == Sgr(a.(fg := p - 90 + 8), rest)
    ensures 100 <= p <= 107 ==> Sgr(a, [p] + rest) == Sgr(a.(bg := p - 100 + 8), rest)
  {
    if p != 38 && p != 48 {
      SgrPlain(a, p, rest);
    }
  }

  /** 1, 4 and 7 set the bold, underline and inverse bits; 22, 24 and 27 clear them. */
  lemma SgrStyleBits(a: Attr, p: int, rest: seq<int>)
    ensures p == 1 ==> Sgr(a, [p] + rest) == Sgr(a.(style := a.style | Bold), rest)
    ensures p == 4 ==> Sgr(a, [p] + rest) == Sgr(a.(style := a.style | Underline), rest)
    ensures p == 7 ==> Sgr(a, [p] + rest) == Sgr(a.(style := a.style | Inverse), rest)
    ensures p == 22 ==> Sgr(a, [p] + rest) == Sgr(a.(style := a.style & !Bold), rest)
    ensures p == 24 ==> Sgr(a, [p] + rest) == Sgr(a.(style := a.style & !Underline), rest)
    ensures p == 27 ==> Sgr(a, [p] + rest) == Sgr(a.(style := a.style & !Inverse), rest)
  {
    if p in {1, 4, 7, 22, 24, 27} {
      SgrPlain(a, p, rest);
      assert [p][1..] == [];
    }
  }

  /** 38;5;N and 48;5;N take N as the colour index; a 38 or 48 not followed by 5 and a value
      is dropped alone and what follows it is read as ordinary codes. */
  lemma SgrIndexedColour(a: Attr, n: int, x: int, rest: seq<int>)
    ensures Sgr(a, [38, 5, n] + rest) == Sgr(a.(fg := n), rest)
    ensures Sgr(a, [48, 5, n] + rest) == Sgr(a.(bg := n), rest)
    ensures x != 5 ==> Sgr(a, [38, x] + rest) == Sgr(a, [x] + rest)
    ensures x != 5 ==> Sgr(a, [48, x] + rest) == Sgr(a, [x] + rest)
    ensures Sgr(a, [38, 5]) == a && Sgr(a, [48, 5]) == a && Sgr(a, [38]) == a && Sgr(a, [48]) == a
  {
    SgrExtended(a, 38, n, x, rest);
    SgrExtended(a, 48, n, x, rest);
  }

  /** The cases of SgrIndexedColour for one of 38 and 48. */
  lemma SgrExtended(a: Attr, p: int, n: int, x: int, rest: seq<int>)
    requires p == 38 || p == 48
    ensures Sgr(a, [p, 5, n] + rest) == Sgr(if p == 38 then a.(fg := n) else a.(bg := n), rest)
    ensures x != 5 ==> Sgr(a, [p, x] + rest) == Sgr(a, [x] + rest)
    ensures Sgr(a, [p, 5]) == a && Sgr(a, [p]) == a
  {
    assert ([p, 5, n] + rest)[3..] == rest;
    assert ([p, x] + rest)[1..] == [x] + rest;
    assert [p, 5][1..] == [5];
    assert SgrStep(a, [5]) == (a, []);
  }

  /** A code the switch does not know is skipped and the rest of the list still applies. */
  lemma SgrSkipsUnknown(a: Attr, p: int, rest: seq<int>)
    requires !KnownSgr(p)
    ensures Sgr(a, [p] + rest) == Sgr(a, rest)
  {
    SgrPlain(a, p, rest);
  }

  /** The 24-bit form 38;2;R;G;B is not understood: 38 and 2 are dropped and the channel
      values are read as codes, here 0 resetting everything. */
  lemma SgrTrueColourExample(a: Attr)
    ensures Sgr(a, [38, 2, 255, 0, 0]) == DefaultAttr
  {
    SgrIndexedColour(a, 0, 2, [255, 0, 0]);
    SgrSkipsUnknown(a, 2, [255, 0, 0]);
    SgrSkipsUnknown(a, 255, [0, 0]);
  }

  predicate TouchesFg(p: int) { p == 0 || p == 39 || p == 38 || 30 <= p <= 37 || 90 <= p <= 97 }
  predicate TouchesBg(p: int) { p == 0 || p == 49 || p == 48 || 40 <= p <= 47 || 100 <= p <= 107 }
  predicate TouchesStyle(p: int) { p in {0, 1, 4, 7, 22, 24, 27} }

  /** One step of setSGR: a code that does not name a colour or style leaves it, and what
      remains to read is a suffix of the list. */
  lemma SgrStepFrames(a: Attr, ps: seq<int>)
    requires ps != []
    ensures SgrStep(a, ps).1 == ps[1..] || (|ps| >= 3 && SgrStep(a, ps).1 == ps[3..])
    ensures !TouchesFg(ps[0]) ==> SgrStep(a, ps).0.fg == a.fg
    ensures !TouchesBg(ps[0]) ==> SgrStep(a, ps).0.bg == a.bg
    ensures !TouchesStyle(ps[0]) ==> SgrStep(a, ps).0.style == a.style
  {
    var p := ps[0];
    if p == 0 || p == 1 || p == 4 || p == 7 || p == 22 || p == 24 || p == 27 {
      assert SgrStep(a, ps).0.fg == (if p == 0 then DefaultFg else a.fg);
      assert SgrStep(a, ps).0.bg == (if p == 0 then DefaultBg else a.bg);
    } else if p == 38 || p == 48 {
      assert SgrStep(a, ps).0.style == a.style;
    } else {
      assert SgrStep(a, ps).0.style == a.style;
      assert SgrStep(a, ps).1 == ps[1..];
    }
  }

  /** Across a whole list, codes that do not name the foreground leave it as it was. */
  lemma {:induction false} SgrKeepsFg(a: Attr, ps: seq<int>)
    requires forall i :: 0 <= i < |ps| ==> !TouchesFg(ps[i])
    ensures Sgr(a, ps).fg == a.fg
    decreases |ps|
  {
    if ps != [] {
      var r := SgrStep(a, ps);
      SgrStepFrames(a, ps);
      SgrKeepsFg(r.0, r.1);
    }
  }

  /** The same for the background. */
  lemma {:induction false} SgrKeepsBg(a: Attr, ps: seq<int>)
    requires forall i :: 0 <= i < |ps| ==> !TouchesBg(ps[i])
    ensures Sgr(a, ps).bg == a.bg
    decreases |ps|
  {
    if ps != [] {
      var r := SgrStep(a, ps);
      SgrStepFrames(a, ps);
      SgrKeepsBg(r.0, r.1);
    }
  }

  /** The same for the style bits. */
  lemma {:induction false} SgrKeepsStyle(a: Attr, ps: seq<int>)
    requires forall i :: 0 <= i < |ps| ==> !TouchesStyle(ps[i])
    ensures Sgr(a, ps).style == a.style
    decreases |ps|
  {
    if ps != [] {
      var r := SgrStep(a, ps);
      SgrStepFrames(a, ps);
      SgrKeepsStyle(r.0, r.1);
    }
  }

  // ---------------------------------------------------------------------------
  // Cursor slot, screens, size and reset

  /** restoreCursorPos after saveCursorPos returns a cursor that was inside the buffer to
      the same place. */
  lemma SaveRestoreRoundTrip(t: Term)
    requires Inv(t) && t.row < Current(t).rows && t.col < Current(t).cols
    ensures RestoreCursorPos(SaveCursorPos(t)) == SaveCursorPos(t)
  {
  }

  /** In the deferred-wrap column the round trip moves the cursor: the saved column is cols,
      and restoring it clamps it back to cols - 1. */
  lemma SaveRestoreDeferredColumn(t: Term)
    requires Inv(t) && t.row < Current(t).rows && t.col == Current(t).cols
    ensures var t' := RestoreCursorPos(SaveCursorPos(t));
      t'.row == t.row && t'.col == Current(t).cols - 1 && t' != SaveCursorPos(t)
  {
  }

  /** A reachable instance: 'A' written in the last column of the initial screen, then
      ESC 7 and ESC 8, leaves the cursor one column left of where it was saved. */
  lemma SaveRestoreDeferredExample()
    ensures var t := PutChar(AsciiServices, Initial().(col := 79), 'A' as u16);
      t.col == 80 && RestoreCursorPos(SaveCursorPos(t)).col == 79
  {
    var t := PutChar(AsciiServices, Initial().(col := 79), 'A' as u16);
    DeferredWrapBreaksEraseToCursor(AsciiServices, Initial().(col := 79), 'A' as u16);
    SaveRestoreDeferredColumn(t);
  }

  /** useAlternateScreen(x) in state x does nothing; entering gives an alternate screen of
      the main screen's size filled with the current blank; leaving only switches back, so
      the main screen comes back as it was. */
  lemma {:induction false} UseAlternateScreenEffect(t: Term, alt: bool)
    requires Inv(t)
    ensures t.inAlt == alt ==> UseAlternateScreen(t, alt) == t
    ensures UseAlternateScreen(UseAlternateScreen(t, alt), alt) == UseAlternateScreen(t, alt)
    ensures !alt ==> UseAlternateScreen(t, alt) == t.(inAlt := false)
    ensures alt && !t.inAlt ==>
      var t' := UseAlternateScreen(t, alt);
      t' == t.(alt := t'.alt, inAlt := true) &&
      t'.alt.rows == t.main.rows && t'.alt.cols == t.main.cols &&
      forall i :: 0 <= i < |t'.alt.cells| ==> t'.alt.cells[i] == Blank(t)
    ensures !t.inAlt ==> Current(UseAlternateScreen(UseAlternateScreen(t, true), false)) == Current(t)
  {
  }

  /** setTerminalSize with new dimensions: the main screen keeps the overlap, rows below the
      old height take the current blank, new columns of kept rows the default cell; the
      alternate screen is all default cells; the region is reset and the cursor is kept. */
  lemma {:induction false} SetTerminalSizeAt(t: Term, rows: int, cols: int, r: int, c: int)
    requires Inv(t) && !(t.main.rows == rows && t.main.cols == cols)
    requires 0 <= r < AtLeastOne(rows) && 0 <= c < AtLeastOne(cols)
    ensures var t' := SetTerminalSize(t, rows, cols);
      t' == t.(main := t'.main, alt := t'.alt, top := 0, bottom := rows - 1) &&
      t'.main.rows == AtLeastOne(rows) && t'.main.cols == AtLeastOne(cols) &&
      t'.alt == Sized(rows, cols) &&
      At(t'.main, r, c) ==
        if r < t.main.rows && r < rows && c < t.main.cols && c < cols then At(t.main, r, c)
        else if t.main.rows <= r < rows && c < cols then Blank(t)
        else DefaultCell
  {
    ResizedAt(t.main, rows, cols, Blank(t), r, c);
  }

  /** setTerminalSize does not clamp the cursor: after a shrink below the cursor row, the
      next printable character is written outside the buffer. */
  lemma ShrinkBreaksPutChar(u: Services, t: Term, rows: int, ch: u16)
    requires Inv(t) && 1 <= rows <= t.row && t.col < t.main.cols && rows != t.main.rows
    requires ch != 0x0D && ch != 0x0A && !Discarded(u, ch)
    ensures Inv(SetTerminalSize(t, rows, t.main.cols))
    ensures !PutCharSafe(u, SetTerminalSize(t, rows, t.main.cols), ch)
  {
  }

  lemma ShrinkExample(u: Services)
    requires Conforms(u)
    ensures var t := SetTerminalSize(Initial().(row := 23), 10, 80);
      Inv(t) && !PutCharSafe(u, t, 'A' as u16)
  {
    ShrinkBreaksPutChar(u, Initial().(row := 23), 10, 'A' as u16);
  }

  /** fullReset: both screens hold the blank of the attributes in force before the reset,
      the scrollback is empty, the cursor is home and the region spans the main screen. */
  lemma FullResetEffect(t: Term)
    requires Inv(t)
    ensures var t' := FullReset(t);
      t'.scrollback == [] && !t'.inAlt && t'.row == 0 && t'.col == 0 && t'.attr == DefaultAttr &&
      t'.top == 0 && t'.bottom == t.main.rows - 1 &&
      t'.main.rows == t.main.rows && t'.main.cols == t.main.cols &&
      t'.alt.rows == t.alt.rows && t'.alt.cols == t.alt.cols &&
      (forall i :: 0 <= i < |t'.main.cells| ==> t'.main.cells[i] == Blank(t)) &&
      (forall i :: 0 <= i < |t'.alt.cells| ==> t'.alt.cells[i] == Blank(t)) &&
      t' == t.(main := t'.main, alt := t'.alt, inAlt := false, scrollback := [], row := 0, col := 0,
               attr := DefaultAttr, top := 0, bottom := t.main.rows - 1)
  {
  }
}
