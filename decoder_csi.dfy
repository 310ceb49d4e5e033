/** The CSI command table of handleCsiCommand (src/escapeparser.cpp:175-288) and the cursor
    helpers it calls (src/escapeparser.cpp:333-351), stated against the screen model. */
module DecoderCsi {
  import opened Cells
  import opened Unicode
  import opened Grids
  import opened Screen
  import opened Decoder

  /** The count of A to F: the first parameter, or 1 when there is none. */
  lemma CountDefaultsToOne(cmd: byte, ps: seq<int>)
    requires cmd in {'A' as byte, 'B' as byte, 'C' as byte, 'D' as byte, 'E' as byte, 'F' as byte}
    ensures P(Ensured(cmd, ps), 0, 1) == if ps == [] then 1 else ps[0]
  {
  }

  /** A, B, C and D move by the count and clamp to the buffer, not to the scroll region;
      row + n and col + n wrap as C ints do. */
  lemma CsiCursorMoves(w: World, cmd: byte)
    requires WInv(w) && cmd in {'A' as byte, 'B' as byte, 'C' as byte, 'D' as byte}
    ensures var t, g, n := w.term, Current(w.term), P(Ensured(cmd, w.p.params), 0, 1);
      var t' := HandleCsi(w, cmd).value.term;
      (cmd == 'A' as byte ==> t' == t.(row := Clamp(t.row - n, 0, g.rows - 1), col := Clamp(t.col, 0, g.cols - 1))) &&
      (cmd == 'B' as byte ==> t' == t.(row := Clamp(Wrap32(t.row + n), 0, g.rows - 1), col := Clamp(t.col, 0, g.cols - 1))) &&
      (cmd == 'C' as byte ==> t' == t.(row := Clamp(t.row, 0, g.rows - 1), col := Clamp(Wrap32(t.col + n), 0, g.cols - 1))) &&
      (cmd == 'D' as byte ==> t' == t.(row := Clamp(t.row, 0, g.rows - 1), col := Clamp(t.col - n, 0, g.cols - 1)))
  {
    if cmd == 'A' as byte {
      CsiUp(w);
    } else if cmd == 'B' as byte {
      CsiDown(w);
    } else if cmd == 'C' as byte {
      CsiRight(w);
    } else {
      CsiLeft(w);
    }
  }

  lemma CsiUp(w: World)
    requires WInv(w)
    ensures var t, g, n := w.term, Current(w.term), P(Ensured('A' as byte, w.p.params), 0, 1);
      HandleCsi(w, 'A' as byte).value.term == t.(row := Clamp(t.row - n, 0, g.rows - 1), col := Clamp(t.col, 0, g.cols - 1))
  {
    var t, n := w.term, P(Ensured('A' as byte, w.p.params), 0, 1);
    var w0 := w.(p := w.p.(params := Ensured('A' as byte, w.p.params)));
    assert HandleCsi(w, 'A' as byte) == Some(w0.(term := CursorUp(t, n)));
  }

  lemma CsiDown(w: World)
    requires WInv(w)
    ensures var t, g, n := w.term, Current(w.term), P(Ensured('B' as byte, w.p.params), 0, 1);
      HandleCsi(w, 'B' as byte).value.term == t.(row := Clamp(Wrap32(t.row + n), 0, g.rows - 1), col := Clamp(t.col, 0, g.cols - 1))
  {
    var t, n := w.term, P(Ensured('B' as byte, w.p.params), 0, 1);
    var w0 := w.(p := w.p.(params := Ensured('B' as byte, w.p.params)));
    assert HandleCsi(w, 'B' as byte) == Some(w0.(term := CursorDown(t, n)));
  }

  lemma CsiRight(w: World)
    requires WInv(w)
    ensures var t, g, n := w.term, Current(w.term), P(Ensured('C' as byte, w.p.params), 0, 1);
      HandleCsi(w, 'C' as byte).value.term == t.(row := Clamp(t.row, 0, g.rows - 1), col := Clamp(Wrap32(t.col + n), 0, g.cols - 1))
  {
    var t, n := w.term, P(Ensured('C' as byte, w.p.params), 0, 1);
    var w0 := w.(p := w.p.(params := Ensured('C' as byte, w.p.params)));
    assert HandleCsi(w, 'C' as byte) == Some(w0.(term := CursorRight(t, n)));
  }

  lemma CsiLeft(w: World)
    requires WInv(w)
    ensures var t, g, n := w.term, Current(w.term), P(Ensured('D' as byte, w.p.params), 0, 1);
      HandleCsi(w, 'D' as byte).value.term == t.(row := Clamp(t.row, 0, g.rows - 1), col := Clamp(t.col - n, 0, g.cols - 1))
  {
    var t, n := w.term, P(Ensured('D' as byte, w.p.params), 0, 1);
    var w0 := w.(p := w.p.(params := Ensured('D' as byte, w.p.params)));
    assert HandleCsi(w, 'D' as byte) == Some(w0.(term := CursorLeft(t, n)));
  }

  /** E and F move the row down or up by the count and return to column 0; G sets the column
      to the count minus one; H and f go to (P(0,1)-1, P(1,1)-1); all clamped to the buffer. */
  lemma CsiCursorPositions(w: World, cmd: byte)
    requires WInv(w) && cmd in {'E' as byte, 'F' as byte, 'G' as byte, 'H' as byte, 'f' as byte}
    ensures var t, g, ps := w.term, Current(w.term), Ensured(cmd, w.p.params);
      var t' := HandleCsi(w, cmd).value.term;
      (cmd == 'E' as byte ==> t' == t.(row := Clamp(Wrap32(t.row + P(ps, 0, 1)), 0, g.rows - 1), col := 0)) &&
      (cmd == 'F' as byte ==> t' == t.(row := Clamp(t.row - P(ps, 0, 1), 0, g.rows - 1), col := 0)) &&
      (cmd == 'G' as byte ==> t' == t.(row := Clamp(t.row, 0, g.rows - 1), col := Clamp(P(ps, 0, 1) - 1, 0, g.cols - 1))) &&
      (cmd in {'H' as byte, 'f' as byte} ==>
        t' == t.(row := Clamp(P(ps, 0, 1) - 1, 0, g.rows - 1), col := Clamp(P(ps, 1, 1) - 1, 0, g.cols - 1)))
  {
  }

  /** The region command r: rows P(0,1) to P(1, main rows), one-based, as
      setScrollingRegion clamps or resets them; nothing else on the screen changes. */
  lemma CsiRegion(w: World)
    requires WInv(w)
    ensures var t, ps := w.term, w.p.params;
      var t' := HandleCsi(w, 'r' as byte).value.term;
      t' == SetScrollingRegion(t, P(ps, 0, 1) - 1, P(ps, 1, t.main.rows) - 1) &&
      t' == t.(top := t'.top, bottom := t'.bottom) &&
      0 <= t'.top <= t'.bottom < t.main.rows &&
      (ps == [] ==> t'.top == 0 && t'.bottom == t.main.rows - 1)
  {
  }

  /** J and K erase with mode P(0,0), which is 0 without parameters; they fault exactly when
      mode 1 meets a cursor in the deferred-wrap column. */
  lemma CsiErase(w: World, cmd: byte)
    requires WInv(w) && cmd in {'J' as byte, 'K' as byte}
    ensures var t, mode := w.term, P(Ensured(cmd, w.p.params), 0, 0);
      (w.p.params == [] ==> mode == 0) &&
      (HandleCsi(w, cmd).Some? <==> EraseInLineSafe(t, mode)) &&
      (HandleCsi(w, cmd).Some? && cmd == 'J' as byte ==> HandleCsi(w, cmd).value.term == EraseInDisplay(t, mode)) &&
      (HandleCsi(w, cmd).Some? && cmd == 'K' as byte ==> HandleCsi(w, cmd).value.term == EraseInLine(t, mode))
  {
  }

  /** m hands the parameters to setSGR; only the attributes change. */
  lemma CsiSgr(w: World)
    requires WInv(w)
    ensures var t, t' := w.term, HandleCsi(w, 'm' as byte).value.term;
      t' == t.(attr := if w.p.params == [] then DefaultAttr else Sgr(t.attr, w.p.params))
  {
  }

  /** The commands the table does not list, the insert, delete and erase-character finals
      P, @ and X among them, and h and l without '?', change nothing but the defaulted
      parameters. */
  lemma CsiUnlisted(w: World, cmd: byte)
    requires WInv(w)
    requires cmd !in {'A' as byte, 'B' as byte, 'C' as byte, 'D' as byte, 'E' as byte, 'F' as byte,
                      'G' as byte, 'H' as byte, 'f' as byte, 'J' as byte, 'K' as byte, 'm' as byte, 'r' as byte}
    requires cmd in {'h' as byte, 'l' as byte} ==> !w.p.privateMode
    ensures HandleCsi(w, cmd) == Some(w)
  {
  }

  /** No CSI command inserts, deletes or erases characters. */
  lemma NoCharacterCommands(w: World)
    requires WInv(w)
    ensures HandleCsi(w, 'P' as byte) == Some(w)
    ensures HandleCsi(w, '@' as byte) == Some(w)
    ensures HandleCsi(w, 'X' as byte) == Some(w)
  {
    CsiUnlisted(w, 'P' as byte);
    CsiUnlisted(w, '@' as byte);
    CsiUnlisted(w, 'X' as byte);
  }

  // ---------------------------------------------------------------------------
  // Private modes

  /** ?1049h enters the alternate screen and records the cursor in the parser's own slot;
      ?1049l leaves it and moves the cursor to that slot, clamped; ?1000h and ?1000l switch
      mouse handling. */
  lemma PrivateModeEffects(w: World)
    requires WInv(w)
    ensures var t, r := w.term, PrivateModes(w, [1049], true);
      r.term == UseAlternateScreen(t, true) && r.p == w.p.(savedRow := t.row, savedCol := t.col)
    ensures var t, r := w.term, PrivateModes(w, [1049], false);
      r.term == SetCursorPos(UseAlternateScreen(t, false), w.p.savedRow, w.p.savedCol, true) && r.p == w.p
    ensures PrivateModes(w, [1000], true) == w.(term := w.term.(mouse := true))
    ensures PrivateModes(w, [1000], false) == w.(term := w.term.(mouse := false))
  {
    assert [1049][1..] == [] && [1000][1..] == [];
  }

  /** ?1049h then ?1049l from the primary screen comes back to the primary screen, its cells
      and the cursor untouched; only the alternate buffer is left blank in the attributes
      of the moment. */
  lemma AlternateScreenRoundTrip(w: World)
    requires WInv(w) && !w.term.inAlt && w.term.row < w.term.main.rows && w.term.col < w.term.main.cols
    ensures var t := w.term;
      var r := PrivateModes(PrivateModes(w, [1049], true), [1049], false);
      r.term == t.(alt := FillScreen(Sized(t.main.rows, t.main.cols), Blank(t))) &&
      r.p == w.p.(savedRow := t.row, savedCol := t.col) && r.title == w.title
  {
    PrivateModeEffects(w);
    PrivateModeEffects(PrivateModes(w, [1049], true));
  }

  /** Sequences that carry '?' reach the private modes; a parameter list can switch several. */
  lemma CsiPrivate(w: World, cmd: byte)
    requires WInv(w) && w.p.privateMode && cmd in {'h' as byte, 'l' as byte}
    ensures HandleCsi(w, cmd) == Some(PrivateModes(w, w.p.params, cmd == 'h' as byte))
  {
  }

  // ---------------------------------------------------------------------------
  // Overflow

  /** cursorDown(n) computes row + n in a C int: a large count wraps negative and the clamp
      then puts the cursor on the top row instead of the bottom one. */
  lemma CursorDownWraps(t: Term)
    requires Inv(t) && t.row == 1 && Current(t).rows >= 2
    ensures CursorDown(t, IntMax).row == 0
  {
    assert Wrap32(1 + IntMax) == IntMin;
  }
}
