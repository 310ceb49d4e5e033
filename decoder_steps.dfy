/** The transitions of each decoder state (src/escapeparser.cpp:32-132) and the effects of the
    control characters, stated against the screen model. */
module DecoderSteps {
  import opened Cells
  import opened Unicode
  import opened Grids
  import opened Screen
  import opened Seqs
  import opened Decoder

  // ---------------------------------------------------------------------------
  // Normal

  /** A printable byte in Normal only joins the pending text. */
  lemma NormalAppends(u: Services, w: World, b: byte)
    requires WInv(w) && w.p.mode == Normal && b != ESC && !(b < 0x20 || b == 0x7F)
    ensures Step(u, w, b) == Some(w.(p := w.p.(text := w.p.text + [b])))
  {
  }

  /** ESC in Normal writes out the pending text and enters Esc; it faults exactly when the
      text does. */
  lemma NormalEsc(u: Services, w: World)
    requires WInv(w) && w.p.mode == Normal
    ensures Step(u, w, ESC).Some? <==> Flush(u, w).Some?
    ensures Step(u, w, ESC).Some? ==>
      var r := Step(u, w, ESC).value;
      r.term == Flush(u, w).value.term && r.title == w.title && r.p == w.p.(text := [], mode := Esc)
  {
  }

  /** A control byte in Normal writes out the pending text and then acts on the screen. */
  lemma NormalControl(u: Services, w: World, b: byte)
    requires WInv(w) && w.p.mode == Normal && b != ESC && (b < 0x20 || b == 0x7F)
    ensures Step(u, w, b).Some? <==> Flush(u, w).Some?
    ensures Step(u, w, b).Some? ==>
      var r := Step(u, w, b).value;
      r.term == ControlChar(Flush(u, w).value.term, b) && r.title == w.title && r.p == w.p.(text := [])
  {
  }

  /** handleControlChar: BS moves one column left, HT to the next multiple of 8, both clamped
      to the buffer; CR goes to column 0; LF is a line feed without carriage return; every
      other byte (BEL and DEL among them) changes nothing. */
  lemma ControlCharEffect(t: Term, b: byte)
    requires Inv(t)
    ensures var g := Current(t);
      b == 0x08 ==>
        ControlChar(t, b) == t.(row := Clamp(t.row, 0, g.rows - 1), col := Clamp(t.col - 1, 0, g.cols - 1))
    ensures var g := Current(t);
      b == 0x09 ==>
        ControlChar(t, b) ==
          t.(row := Clamp(t.row, 0, g.rows - 1), col := Clamp(Wrap32(t.col + 8 - t.col % 8), 0, g.cols - 1))
    ensures b == 0x0D ==> ControlChar(t, b) == t.(row := Clamp(t.row, 0, Current(t).rows - 1), col := 0)
    ensures b == 0x0A ==> ControlChar(t, b) == LineFeed(t)
    ensures b !in {0x08, 0x09, 0x0A, 0x0D} ==> ControlChar(t, b) == t
  {
  }

  /** A tab from a column inside the row, away from the int limit, stops at the next multiple
      of 8 or at the last column, whichever comes first. */
  lemma TabStop(t: Term)
    requires Inv(t) && t.col < Current(t).cols && t.col <= IntMax - 8
    ensures var c := ControlChar(t, 0x09).col;
      c == Min(t.col + 8 - t.col % 8, Current(t).cols - 1) &&
      (c == Current(t).cols - 1 || (c % 8 == 0 && t.col < c <= t.col + 8))
  {
    ControlCharEffect(t, 0x09);
  }

  // ---------------------------------------------------------------------------
  // Esc

  /** Every byte leaves Esc, and none faults. '[' and ']' open a sequence with its buffers
      cleared; the other bytes return to Normal after at most one screen command. */
  lemma EscLeaves(u: Services, w: World, b: byte)
    requires WInv(w) && w.p.mode == Esc
    ensures Step(u, w, b).Some? && Step(u, w, b).value.p.mode != Esc
    ensures Step(u, w, b).value.title == w.title
    ensures b == '[' as byte ==>
      Step(u, w, b) == Some(w.(p := w.p.(mode := Csi, params := [], paramString := [], privateMode := false)))
    ensures b == ']' as byte ==> Step(u, w, b) == Some(w.(p := w.p.(mode := Osc, oscBuffer := [])))
    ensures b !in {'[' as byte, ']' as byte} ==> Step(u, w, b).value.p == w.p.(mode := Normal)
  {
  }

  /** The screen commands of Esc: 7 and 8 save and restore the cursor, D, M and E advance or
      retreat a line (E also returns to column 0), c is the parser's full reset; the charset
      designators ( ) * and every other byte change nothing. */
  lemma EscCommands(u: Services, w: World, b: byte)
    requires WInv(w) && w.p.mode == Esc
    ensures var t, t' := w.term, Step(u, w, b).value.term;
      (b == '7' as byte ==> t' == SaveCursorPos(t)) &&
      (b == '8' as byte ==> t' == RestoreCursorPos(t)) &&
      (b == 'D' as byte ==> t' == LineFeed(t)) &&
      (b == 'M' as byte ==> t' == ReverseLineFeed(t)) &&
      (b == 'E' as byte ==> t' == LineFeed(t).(col := 0)) &&
      (b == 'c' as byte ==> t' == DoFullReset(t)) &&
      (b !in {'7' as byte, '8' as byte, 'D' as byte, 'M' as byte, 'E' as byte, 'c' as byte} ==> t' == t)
  {
    if b == 'E' as byte {
      LineFeedBounded(w.term);
    }
  }

  lemma LineFeedBounded(t: Term)
    requires Inv(t)
    ensures 0 <= LineFeed(t).row < Current(LineFeed(t)).rows
    ensures SetCursorPos(LineFeed(t), LineFeed(t).row, 0, true) == LineFeed(t).(col := 0)
  {
  }

  /** doFullReset: default cells on both screens, default attributes, the cursor home on the
      primary screen; the scrollback, the region, the saved slot and the selection stay. */
  lemma DoFullResetEffect(t: Term)
    requires Inv(t)
    ensures var t' := DoFullReset(t);
      !t'.inAlt && t'.row == 0 && t'.col == 0 && t'.attr == DefaultAttr &&
      t'.main.rows == t.main.rows && t'.main.cols == t.main.cols &&
      t'.alt.rows == t.alt.rows && t'.alt.cols == t.alt.cols &&
      (forall i :: 0 <= i < |t'.main.cells| ==> t'.main.cells[i] == DefaultCell) &&
      (forall i :: 0 <= i < |t'.alt.cells| ==> t'.alt.cells[i] == DefaultCell) &&
      t' == t.(main := t'.main, alt := t'.alt, inAlt := false, row := 0, col := 0, attr := DefaultAttr)
  {
  }

  // ---------------------------------------------------------------------------
  // Csi

  /** In Csi, digits accumulate, ';' stores, '?' marks private mode, a final byte in
      0x40..0x7E stores, dispatches and returns to Normal; every other byte, ESC and the
      control bytes included, is ignored. */
  lemma CsiBytes(u: Services, w: World, b: byte)
    requires WInv(w) && w.p.mode == Csi
    ensures IsDigit(b) ==> Step(u, w, b) == Some(w.(p := w.p.(paramString := w.p.paramString + [b])))
    ensures b == ';' as byte ==> Step(u, w, b) == Some(w.(p := StoreParam(w.p)))
    ensures b == '?' as byte ==> Step(u, w, b) == Some(w.(p := w.p.(privateMode := true)))
    ensures 0x40 <= b <= 0x7E ==>
      var d := HandleCsi(w.(p := StoreParam(w.p)), b);
      (Step(u, w, b).Some? <==> d.Some?) &&
      (d.Some? ==> Step(u, w, b).value == d.value.(p := d.value.p.(mode := Normal)))
    ensures !IsDigit(b) && b != ';' as byte && b != '?' as byte && !(0x40 <= b <= 0x7E) ==>
      Step(u, w, b) == Some(w)
  {
  }

  /** The parameter string of a Csi state built from a run of digits. */
  lemma {:induction false} CsiDigits(u: Services, w: World, ds: seq<byte>)
    requires WInv(w) && w.p.mode == Csi && AllDigits(ds)
    ensures Run(u, Some(w), ds) == Some(w.(p := w.p.(paramString := w.p.paramString + ds)))
    decreases |ds|
  {
    if ds == [] {
      assert w.p.paramString + ds == w.p.paramString;
    } else {
      var w1 := w.(p := w.p.(paramString := w.p.paramString + [ds[0]]));
      assert Step(u, w, ds[0]) == Some(w1);
      CsiDigits(u, w1, ds[1..]);
      assert w1.p.paramString + ds[1..] == w.p.paramString + ds;
    }
  }

  // ---------------------------------------------------------------------------
  // Osc

  /** In Osc, BEL ends the command and keeps the escape flag as it was; ESC raises the flag;
      with the flag up, '\\' ends the command and any other byte is dropped, lowering the
      flag; with it down, every other byte joins the buffer. */
  lemma OscBytes(u: Services, w: World, b: byte)
    requires WInv(w) && w.p.mode == Osc
    ensures b == BEL ==> Step(u, w, b) == Some(HandleOsc(w).(p := w.p.(mode := Normal)))
    ensures b == ESC ==> Step(u, w, b) == Some(w.(p := w.p.(oscEscape := true)))
    ensures b != BEL && b != ESC && !w.p.oscEscape ==>
      Step(u, w, b) == Some(w.(p := w.p.(oscBuffer := w.p.oscBuffer + [b])))
    ensures b == '\\' as byte && w.p.oscEscape ==>
      Step(u, w, b) == Some(HandleOsc(w).(p := w.p.(mode := Normal, oscEscape := false)))
    ensures b != BEL && b != ESC && b != '\\' as byte && w.p.oscEscape ==>
      Step(u, w, b) == Some(w.(p := w.p.(oscEscape := false)))
  {
  }

  /** handleOscCommand: only the title changes. With a ';' after a number that reads as 0
      or 2, the title is everything after that first ';', later ';' kept; otherwise nothing
      happens. */
  lemma OscTitle(w: World, a: seq<byte>, rest: seq<byte>)
    requires Free(a, ';' as byte) && w.p.oscBuffer == a + [';' as byte] + rest
    ensures HandleOsc(w) == if ToIntOrZero(a) in {0, 2} then w.(title := Some(rest)) else w
  {
    AfterFirstSep(a, ';' as byte, rest);
  }

  /** Without a ';' there is no title. */
  lemma OscNoSeparator(w: World)
    requires Free(w.p.oscBuffer, ';' as byte)
    ensures HandleOsc(w) == w
  {
    SplitFree(w.p.oscBuffer, ';' as byte);
  }
}
