# A verified model of the terminal core

This project models the emulation core of a small Qt terminal in Dafny. The core has two coupled parts.

- **The screen model.** `ScreenBuffer` is a row-major grid of styled cells over one array. On top of it, `TerminalWidget` keeps:
  - a primary and an alternate buffer, with a switch between them;
  - a scrollback of at most 1000 rows;
  - the cursor, the saved-cursor slot, the current colours and style, and the scroll region;
  - the selection, addressed by absolute line (scrollback rows first, then the rows of the current screen).

  The model covers every operation that changes this state:
  - `putChar`, `lineFeed` and `reverseLineFeed`;
  - `scrollUp` and `scrollDown`;
  - the erase, insert and delete family;
  - `setSGR`, `setScrollingRegion`, `useAlternateScreen`, `setTerminalSize` and `fullReset`;
  - word selection, selection extraction, and the selection updates of the mouse handlers.
- **The escape-sequence decoder.** `EscapeSequenceParser` is a byte machine with four states: Normal, Esc, Csi and Osc. It keeps its state between calls of `feed`. It buffers printable bytes as text, collects CSI parameters and the OSC payload, and dispatches the CSI, ESC, OSC and C0 commands onto the screen model.

The model has two layers.

- **Specification (pure).**
  - Modules `Grids`, `Screen`, `Selection` and `Decoder` give each entity a datatype: `Grid`, `Term` (the widget's state), `PState` (the parser's fields) and `World` (screen, parser and window title).
  - Each operation is a function from the old value to the new one. A step of the decoder returns `None` exactly when the code would touch a cell outside its buffer.
  - The modules `ScreenProps`, `SelectionProps`, `DecoderSteps`, `DecoderCsi`, `DecoderProps` and `DecoderExamples` prove what the code promises, or does, about those functions.
- **Implementation (imperative).**
  - `Buffers.ScreenBuffer` holds an `array<Cell>`. `Widgets.TerminalWidget` holds its two buffers and the widget's fields. `Parsers.EscapeSequenceParser` holds the parser's fields and a reference to the widget.
  - Each method updates these fields in place, with loops where the code has loops. Its postcondition says the new state is the specification function applied to the old state. So every lemma about the specification holds of the classes.

Qt's character services (`QChar::isPrint`, `QChar::isSpace`, `QString::fromUtf8`) are passed in as a `Services` value. The predicate `Conforms` fixes only their behaviour on ASCII.

Among the writes this model covers, the code indexes a cell out of range in three places:
- `putChar` after a shrink below the cursor row;
- `eraseInLine(1)` in the deferred-wrap column (the cursor sits at column `cols` after a write in the last column);
- `insertChars` there.

The widget's functions take these cases as preconditions: `PutCharSafe`, `EraseInLineSafe` and `InsertCharsSafe`.
- `ScreenProps.ShrinkBreaksPutChar` shows that the first case is reachable.
- `ScreenProps.DeferredWrapBreaksEraseToCursor` shows that the other two are.

Reads can also leave a row. After a widening resize, `selectedText` and `selectWordAtPosition` read past the end of a narrower scrollback row (see "## Left out").

## Model

| member | source | states |
|---|---|---|
| Cells.Wrap32 | src/escapeparser.cpp:338-346 | the sum `row + n` or `col + n` as a 32-bit signed int: the result lies in the int range, equals `x` when `x` fits, and differs from `x` by a multiple of 2^32 |
| Grids.Index | src/terminalwidget.h:200-214 | `cell(r, c)` with 0 <= r < rows and 0 <= c < cols addresses index `r * cols + c`, which lies inside the cell vector |
| Grids.Sized | src/terminalwidget.h:185-198 | construction and `resize` clamp rows and cols to at least 1, hold exactly rows*cols cells, and make every cell the default `Cell{}` |
| Grids.IndexUnique | src/terminalwidget.h:203 | row-major addressing is one-to-one over in-range columns |
| Grids.At | src/terminalwidget.h:208-214 | reads `cell(r, c)`, only for r and c inside the buffer; `Grids.Row` and `Grids.SetAtAt` relate it to the other operations |
| Grids.SetAt | src/terminalwidget.h:200-206 | an assignment to `cell(r, c)` keeps the shape; `Grids.SetAtAt` says which cell changes |
| Grids.FillRow | src/terminalwidget.h:216-226 | `fillRow` keeps the shape; `Grids.FillRowAt` gives the cells |
| Grids.FillRows | src/terminalwidget.cpp:538-547 | the fillRow loop over a range of rows keeps the shape; `Grids.FillRowsAt` gives the cells |
| Grids.InsertInRow | src/terminalwidget.cpp:450-455 | n rounds of the `insertChars` loop keep the shape; `Grids.InsertInRowAt` gives the cells |
| Grids.DeleteInRow | src/terminalwidget.cpp:412-417 | n rounds of the `deleteChars` loop keep the shape; `Grids.DeleteInRowAt` gives the cells |
| Grids.Resized | src/terminalwidget.cpp:651-669 | the main screen after `setTerminalSize` is AtLeastOne(rows) x AtLeastOne(cols); `Grids.ResizedAt` gives the cells |
| Grids.Pasted | src/terminalwidget.cpp:657-663 | a partial run of the copy loops keeps the shape; `Grids.PastedAt` gives the cells |
| Grids.MoveUp | src/terminalwidget.cpp:584-587 | the `scrollUp` memmove keeps the shape; `Grids.MoveUpAt` gives the cells |
| Grids.MoveDown | src/terminalwidget.cpp:613-616 | the `scrollDown` memmove keeps the shape; `Grids.MoveDownAt` gives the cells |
| Grids.SetAtAt | src/terminalwidget.h:200-206 | an assignment to `cell(r0, c0)` changes that cell and no other |
| Grids.FillRowAt | src/terminalwidget.h:216-226 | `fillRow(r, c0, c1, x)` sets exactly the cells of row r in [clamp(c0), clamp(c1)) to x; a row outside the buffer changes nothing |
| Grids.FillScreen | src/terminalwidget.cpp:635-642 | `fillScreen` keeps the shape and makes every cell the given one |
| Grids.Row | src/terminalwidget.cpp:581-582 | the row copied out of the buffer holds cols cells, and each is the buffer's cell in that column |
| Grids.MoveUpAt | src/terminalwidget.cpp:584-587 | after the memmove of `scrollUp`, cell (r, c) of rows top..bottom-1 holds the old cell (r+1, c); every other cell is unchanged |
| Grids.MoveDownAt | src/terminalwidget.cpp:613-616 | after the memmove of `scrollDown`, cell (r, c) of rows top+1..bottom holds the old cell (r-1, c); every other cell is unchanged |
| Grids.FillRowsAt | src/terminalwidget.cpp:538-547 | the row loops of `eraseInDisplay` set exactly the rows in the clamped range [r0, r1) |
| Grids.InsertInRowAt | src/terminalwidget.cpp:450-455 | n rounds of `insertChars` shift the cells at col.. of the row right by n. The n opened cells take the blank, cells pushed past the end are lost, and other rows are unchanged |
| Grids.DeleteInRowAt | src/terminalwidget.cpp:412-417 | n rounds of `deleteChars` shift the cells after col left by n and blank the tail. A col at or past the last column blanks only the last cell |
| Grids.ResizedAt | src/terminalwidget.cpp:651-669 | the main screen after `setTerminalSize`: the overlap keeps the old cells, rows below the old height take the blank, and every other cell is `Cell{}` |
| Grids.PastedAt | src/terminalwidget.cpp:659-663 | the copy loops, stopped at cell (k, c0) in row-major order, have copied exactly the old cells before that point |
| GridLoops.ResizedBuilt | src/terminalwidget.cpp:654-669 | resize, then the copy loops, then the blanking loops build exactly the main screen of `Grids.Resized` |
| Buffers.ScreenBuffer.Model | src/terminalwidget.h:34-51 | a valid buffer's grid has rows*cols cells and dimensions of at least 1 |
| Buffers.ScreenBuffer.constructor | src/terminalwidget.h:185-191 | the new buffer holds `Sized(rows, cols)` in a fresh array |
| Buffers.ScreenBuffer.Resize | src/terminalwidget.h:193-198 | the buffer holds `Sized(rows, cols)` in a fresh array, so nothing of the old content is kept |
| Buffers.ScreenBuffer.Get | src/terminalwidget.h:208-214 | reads cell (r, c) of the grid, for in-range r and c only |
| Buffers.ScreenBuffer.Set | src/terminalwidget.h:200-206 | writes cell (r, c), for in-range r and c only; the grid becomes `SetAt(old, r, c, x)` |
| Buffers.ScreenBuffer.FillRow | src/terminalwidget.h:216-226 | the clamping loop of `fillRow` leaves the grid as `Grids.FillRow` of the old grid |
| Buffers.ScreenBuffer.FillRows | src/terminalwidget.cpp:538-547 | filling rows r0..r1-1 one `fillRow` at a time is `Grids.FillRows` of the old grid |
| Buffers.ScreenBuffer.MoveRowsUp | src/terminalwidget.cpp:584-587 | the in-place memmove of `scrollUp` is `MoveUp` of the old grid |
| Buffers.ScreenBuffer.MoveRowsDown | src/terminalwidget.cpp:613-616 | the in-place memmove of `scrollDown` is `MoveDown` of the old grid |
| Buffers.ScreenBuffer.ScrollRegionUp | src/terminalwidget.cpp:581-589 | returns the old row top, moves the region up and blanks row bottom |
| Buffers.ScreenBuffer.ScrollRegionDown | src/terminalwidget.cpp:613-618 | moves the region down and blanks row top |
| Buffers.ScreenBuffer.InsertOne | src/terminalwidget.cpp:451-454 | one round of the `insertChars` loop is `InsertInRow` by one |
| Buffers.ScreenBuffer.DeleteOne | src/terminalwidget.cpp:413-416 | one round of the `deleteChars` loop is `DeleteInRow` by one |
| Buffers.ScreenBuffer.CopyForward | src/terminalwidget.cpp:413-415 | a front-to-back copy loop: cell i takes the old cell i+k inside [lo, hi), and every other cell is unchanged |
| Buffers.ScreenBuffer.CopyBackward | src/terminalwidget.cpp:451-453 | a back-to-front copy loop: cell i takes the old cell i-k inside [lo, hi), and every other cell is unchanged |
| Screen.Initial | src/terminalwidget.cpp:23-51 | the constructed widget: two 24x80 default buffers, cursor (0, 0), region 0..23, mouse handling on. It satisfies the invariant |
| Screen.ClampCursor | src/terminalwidget.cpp:384-395 | `clampCursor` puts the cursor inside [0, rows-1] x [0, cols-1] of the current buffer and keeps the invariant |
| Screen.SetCursorPos | src/terminalwidget.cpp:346-365 | `setCursorPos` changes only the cursor. With clamping the cursor lands inside the buffer. It lands exactly on (r, c) without clamping, or when (r, c) is inside. The invariant holds whenever it clamps or is given a non-negative position |
| Screen.Blank | src/terminalwidget.cpp:1010-1020 | `makeCellForCurrentAttr`: a space in the current colours and style. `Widgets.TerminalWidget.MakeCellForCurrentAttr` returns it, and the erase, scroll and insert lemmas use it as the blank |
| Screen.SetCursorRow | src/terminalwidget.h:104-107 | `setCursorRow` leaves the cursor inside the buffer, and the row is r when r is in range |
| Screen.SetCursorCol | src/terminalwidget.h:108-111 | `setCursorCol` leaves the cursor inside the buffer, and the column is c when c is in range |
| Screen.SaveCursorPos | src/terminalwidget.cpp:367-373 | saving the cursor keeps the invariant |
| Screen.RestoreCursorPos | src/terminalwidget.cpp:375-382 | restoring the cursor keeps the invariant |
| Screen.ScrollUp | src/terminalwidget.cpp:571-601 | `scrollUp` changes only the screens and the scrollback, keeps the buffer's dimensions, and keeps the invariant (scrollback at most 1000 rows) |
| Screen.ScrollDown | src/terminalwidget.cpp:603-625 | `scrollDown` changes only the screens and keeps the buffer's dimensions and the invariant |
| Screen.LineFeed | src/terminalwidget.cpp:237-255 | `lineFeed` leaves the cursor inside the buffer and keeps the screen, the attributes and the invariant |
| Screen.ReverseLineFeed | src/terminalwidget.cpp:257-274 | `reverseLineFeed` leaves the cursor inside the buffer and keeps the screen, the attributes and the invariant |
| Screen.PutChar | src/terminalwidget.cpp:276-328 | `putChar` keeps the invariant whenever it stays inside the buffer |
| Screen.EraseInLine | src/terminalwidget.cpp:482-521 | `eraseInLine` changes only the current screen and keeps its dimensions |
| Screen.EraseInDisplay | src/terminalwidget.cpp:523-550 | `eraseInDisplay` keeps the invariant |
| Screen.InsertChars | src/terminalwidget.cpp:441-458 | `insertChars` keeps the invariant when the cursor column is inside the row |
| Screen.DeleteChars | src/terminalwidget.cpp:403-420 | `deleteChars` keeps the invariant |
| Screen.EraseChars | src/terminalwidget.cpp:422-439 | `eraseChars` keeps the invariant |
| Screen.SgrStep | src/terminalwidget.cpp:1132-1225 | each pass of the `setSGR` loop consumes at least one parameter |
| Screen.Sgr | src/terminalwidget.cpp:1131-1226 | the codes applied left to right, one `SgrStep` per pass. `Widgets.TerminalWidget.SgrLoop` computes it; `ScreenProps.SgrKeepsFg`, `SgrKeepsBg` and `SgrKeepsStyle` bound what a list can change |
| Screen.SetSGR | src/terminalwidget.cpp:1121-1227 | `setSGR` changes only the current attributes |
| Screen.SetScrollingRegion | src/terminalwidget.cpp:223-235 | afterwards 0 <= top <= bottom <= rows-1; an in-range region is taken as given; nothing else changes |
| Screen.UseAlternateScreen | src/terminalwidget.cpp:208-221 | switching screens keeps the invariant |
| Screen.SetTerminalSize | src/terminalwidget.cpp:644-686 | `setTerminalSize` keeps the invariant, although the cursor is not re-clamped |
| Screen.FullReset | src/terminalwidget.cpp:1095-1112 | `fullReset` keeps the invariant |
| Screen.SetMouseEnabled | src/terminalwidget.cpp:194-199 | setting the mouse flag keeps the invariant |
| ScreenProps.ScrollUpAt | src/terminalwidget.cpp:571-601 | rows top+1..bottom move up one and row bottom takes the current blank; other rows are unchanged. The old row top is appended to the scrollback on either screen. The oldest row is dropped at 1000, so there are never more than 1000 |
| ScreenProps.ScrollDownAt | src/terminalwidget.cpp:603-625 | rows top..bottom-1 move down one and row top takes the blank; other rows and the scrollback are unchanged |
| ScreenProps.EmptyRegionNoScroll | src/terminalwidget.cpp:577-579 | a region with bottom < top makes both scrolls do nothing |
| ScreenProps.LineFeedEffect | src/terminalwidget.cpp:237-255 | above the region bottom the row advances by one. Otherwise the region scrolls up and the row becomes bottom. Then the cursor is clamped |
| ScreenProps.ReverseLineFeedEffect | src/terminalwidget.cpp:257-274 | at the region top the region scrolls down and the row stays. Elsewhere the row goes up one, never below 0. Then the cursor is clamped |
| ScreenProps.PutCharControls | src/terminalwidget.cpp:281-298 | CR sets the column to 0; LF does a line feed and sets the column to 0 |
| ScreenProps.PutCharDiscards | src/terminalwidget.cpp:300-305 | non-printable code units, DEL and surrogate halves change nothing |
| ScreenProps.PutCharWrites | src/terminalwidget.cpp:307-327 | a printable unit first wraps when the column is at or past cols. It then writes (ch, fg, bg, style) at the cursor, changing only that cell, and the column advances, possibly to cols |
| ScreenProps.DeferredWrapBreaksEraseToCursor | src/terminalwidget.cpp:307-327 | writing in the last column leaves the column at cols. From there `eraseInLine(1)` would write past the row (lines 497-499 and 512-513), and so would `insertChars(1)` (line 454) |
| ScreenProps.DeferredWrapExample | src/terminalwidget.cpp:497-513 | a concrete state: 'A' written at column 79 of an 80-column screen leaves column 80, where `eraseInLine(1)` and `insertChars(1)` are out of range |
| ScreenProps.EraseInLineAt | src/terminalwidget.cpp:482-521 | on the cursor row, mode 0 blanks [col, cols), mode 1 blanks [0, col], and every other mode blanks the whole row, all with the current blank. A cursor row outside the buffer changes nothing |
| ScreenProps.EraseInDisplayAt | src/terminalwidget.cpp:523-550 | mode 2 blanks the buffer, mode 0 everything from the cursor on, mode 1 everything up to and including the cursor; any other mode changes nothing |
| ScreenProps.CharOpsNeedPositiveCount | src/terminalwidget.cpp:409-410 | a count below 1 makes `insertChars`, `deleteChars` and `eraseChars` do nothing |
| ScreenProps.InsertCharsAt | src/terminalwidget.cpp:441-458 | only the cursor row from the cursor column changes; cells shift right by n, the opened cells are blank, and cells past the end are lost |
| ScreenProps.DeleteCharsAt | src/terminalwidget.cpp:403-420 | only the cursor row from the cursor column changes; cells shift left by n and the tail is blank |
| ScreenProps.EraseCharsAt | src/terminalwidget.cpp:422-439 | the cells col..col+n-1 of the cursor row that exist are blanked; none shift |
| ScreenProps.SgrResets | src/terminalwidget.cpp:1125-1139 | an empty list and code 0 reset to fg 7, bg 0, no style; 39 and 49 reset only fg or only bg (lines 1158-1163) |
| ScreenProps.SgrPlain | src/terminalwidget.cpp:1133-1203 | every code but 38 and 48 consumes only itself |
| ScreenProps.SgrColourRanges | src/terminalwidget.cpp:1164-1203 | 30-37 and 40-47 set p-30 or p-40; 90-97 and 100-107 set p-90+8 or p-100+8 |
| ScreenProps.SgrStyleBits | src/terminalwidget.cpp:1140-1157 | 1, 4 and 7 set the bold, underline and inverse bits; 22, 24 and 27 clear them |
| ScreenProps.SgrIndexedColour | src/terminalwidget.cpp:1204-1219 | 38;5;N and 48;5;N set colour index N. A 38 or 48 without both following values is dropped, and what follows is read as ordinary codes |
| ScreenProps.SgrExtended | src/terminalwidget.cpp:1204-1219 | the cases of the indexed colour codes, for 38 or 48 |
| ScreenProps.SgrSkipsUnknown | src/terminalwidget.cpp:1220-1224 | an unknown code is skipped and the rest of the list still applies |
| ScreenProps.SgrTrueColourExample | src/terminalwidget.cpp:1204-1211 | 38;2;255;0;0 is not understood: its trailing 0 resets every attribute |
| ScreenProps.SgrStepFrames | src/terminalwidget.cpp:1132-1225 | one pass leaves alone any attribute its code does not name, and what remains to read is a suffix of the list |
| ScreenProps.SgrKeepsFg | src/terminalwidget.cpp:1121-1227 | a list whose codes do not name the foreground leaves it as it was |
| ScreenProps.SgrKeepsBg | src/terminalwidget.cpp:1121-1227 | the same for the background |
| ScreenProps.SgrKeepsStyle | src/terminalwidget.cpp:1121-1227 | the same for the style bits |
| ScreenProps.SaveRestoreRoundTrip | src/terminalwidget.cpp:367-382 | restoring right after saving returns an in-range cursor to the same place |
| ScreenProps.SaveRestoreDeferredColumn | src/terminalwidget.cpp:375-382 | in the deferred-wrap column the round trip moves the cursor: the saved column is cols, and `restoreCursorPos` clamps it to cols-1 |
| ScreenProps.SaveRestoreDeferredExample | src/terminalwidget.cpp:307-327 | a reachable instance. 'A' written in column 79 of the initial screen leaves column 80, and save then restore moves the cursor back to column 79 |
| ScreenProps.UseAlternateScreenEffect | src/terminalwidget.cpp:208-221 | in state x, `useAlternateScreen(x)` does nothing. Entering gives an alternate screen of the main screen's size, filled with the current blank. Leaving only switches back, so the primary screen returns unchanged |
| ScreenProps.SetTerminalSizeAt | src/terminalwidget.cpp:644-686 | with new dimensions: the main screen keeps the overlap, new rows take the current blank and new columns of kept rows take `Cell{}`. The alternate screen is default-filled and the region is reset. Nothing else changes, the cursor included |
| ScreenProps.ShrinkBreaksPutChar | src/terminalwidget.cpp:644-686 | after a shrink below the cursor row, the next printable character would be written outside the buffer (line 315) |
| ScreenProps.ShrinkExample | src/terminalwidget.cpp:648-672 | a concrete state: cursor on row 23, a shrink to 10 rows, then 'A' is out of range |
| ScreenProps.FullResetEffect | src/terminalwidget.cpp:1095-1112 | both screens hold the blank of the attributes in force before the reset. The scrollback is empty, the cursor is home on the primary screen, the attributes are the defaults, and the region spans the main screen; nothing else changes |
| Selection.HasSelection | src/terminalwidget.cpp:808-822 | a selection exists when the flag is set and the two ends differ. `Widgets.TerminalWidget.HasSelection` returns it, and `SelectionProps.PressHidesSelection` and `PressDragRelease` follow it through the mouse gestures |
| Selection.CellsAt | src/terminalwidget.cpp:912-934 | `getCellsAtAbsoluteLine(abs)` returns the scrollback row if abs is one, else the current screen's row, else none. It is defined exactly for abs < scrollback + rows |
| Selection.ClampLineCol | src/terminalwidget.cpp:397-401 | clamps line to [0, scrollback + rows - 1] and col to [0, cols - 1], and keeps in-range values |
| Selection.Bounds | src/terminalwidget.cpp:855-860 | the column pair of a selected line, in order after the swap |
| Selection.Piece | src/terminalwidget.cpp:862-870 | the text of one line has between 1 and cols characters |
| Selection.Pieces | src/terminalwidget.cpp:846-871 | at most one piece per line from the start line to the end line |
| Selection.WordStart | src/terminalwidget.cpp:777-779 | the start of the run of non-space cells ending at col: a space, or column 0, precedes it |
| Selection.WordEnd | src/terminalwidget.cpp:780-782 | the end of the run of non-space cells starting at col: a space, or the last column, follows it |
| Selection.SelectWord | src/terminalwidget.cpp:765-798 | word selection keeps the invariant |
| Selection.ClearSelection | src/terminalwidget.cpp:800-806 | afterwards there is no selection and only the flag changed |
| Selection.Press | src/terminalwidget.cpp:1242-1251 | a press keeps the invariant |
| Selection.Drag | src/terminalwidget.cpp:1257-1268 | a drag keeps the invariant |
| Selection.Release | src/terminalwidget.cpp:1270-1281 | a release keeps the invariant |
| Selection.DoubleClick | src/terminalwidget.cpp:1235-1240 | a double click keeps the invariant |
| Selection.SelectedText | src/terminalwidget.cpp:824-873 | the line pieces joined with line feeds, or nothing without a selection. `Widgets.TerminalWidget.SelectedText` computes it; `SelectionProps.SelectedTextSplits`, `PiecesPerLine` and `NoSelectionNoText` state what it holds |
| SelectionProps.PiecesPerLine | src/terminalwidget.cpp:846-871 | when every line of the range resolves, piece k is the text of line start+k |
| SelectionProps.FirstPiece | src/terminalwidget.cpp:855-870 | on the first line of a multi-line selection: the earlier end's column through cols-1 |
| SelectionProps.InteriorPiece | src/terminalwidget.cpp:855-870 | interior lines are copied whole |
| SelectionProps.LastPiece | src/terminalwidget.cpp:855-870 | on the last line: column 0 through the later end's column |
| SelectionProps.SameLineSelection | src/terminalwidget.cpp:855-858 | when anchor and active end share a line, both bounds come from the active column, so the text is one character |
| SelectionProps.NoSelectionNoText | src/terminalwidget.cpp:829-834 | without a selection the text is empty |
| SelectionProps.SelectedTextSplits | src/terminalwidget.cpp:872 | when no copied cell holds a line feed, cutting the text at line feeds gives back the pieces |
| SelectionProps.SelectWordEffect | src/terminalwidget.cpp:765-798 | on a resolvable line, the selection is the maximal run of non-space cells around col, and the flag is set. On any other line nothing changes |
| SelectionProps.WordSelectionCopiesLastChar | src/terminalwidget.cpp:777-792 | combined with `selectedText`, a selected word copies only its last character, and a one-character word copies nothing |
| SelectionProps.PressDragRelease | src/terminalwidget.cpp:1229-1281 | press, drag and release leave the selection from the clamped press point to the clamped drag point. It is present unless the two coincide, and the screen is untouched |
| SelectionProps.PressHidesSelection | src/terminalwidget.cpp:1242-1251 | a press hides any earlier selection until the release |
| SelectionProps.MouseOffIgnored | src/terminalwidget.cpp:1053-1071 | with mouse handling off, none of the four gestures changes anything |
| Seqs.SplitOn | src/escapeparser.cpp:291 | `split(';')` returns at least one piece, and no piece holds the separator |
| Seqs.SplitJoin | src/escapeparser.cpp:291-300 | joining free pieces with the separator and splitting again gives the pieces back |
| Seqs.JoinSplit | src/escapeparser.cpp:291-300 | splitting and joining back gives the original bytes |
| Seqs.AfterFirstSep | src/escapeparser.cpp:293-300 | the first piece is what precedes the first separator, and the later pieces rejoined are everything after it |
| Seqs.JoinSnoc | src/escapeparser.cpp:297-300 | one more round of the join loop appends a separator and the next piece |
| Unicode.AsciiServicesConform | src/terminalwidget.cpp:300 | character services that meet the ASCII assumptions exist |
| Decoder.ToIntOrZero | src/escapeparser.cpp:293 | `toInt()` of the OSC number: the value when the digits fit in an int, else 0 |
| Decoder.StoreParam | src/escapeparser.cpp:309-318 | the parameter string is always cleared. A value is appended exactly when the string parses as an int, so an empty field or an overflow is dropped, not stored as 0. Stored parameters stay non-negative |
| Decoder.CursorUp | src/escapeparser.cpp:333-336 | moving up keeps the invariant |
| Decoder.CursorDown | src/escapeparser.cpp:338-341 | moving down keeps the invariant |
| Decoder.CursorRight | src/escapeparser.cpp:343-346 | moving right keeps the invariant |
| Decoder.CursorLeft | src/escapeparser.cpp:348-351 | moving left keeps the invariant |
| Decoder.PutUnit | src/escapeparser.cpp:142-151 | one decoded unit: LF is a line feed, CR goes to column 0, anything else goes to `putChar`. It fails exactly when `putChar` would write out of range |
| Decoder.PutUnits | src/escapeparser.cpp:142-152 | the loop over the decoded units keeps the invariant when it does not fault; `DecoderProps.PutUnitsAppend` splits it over a concatenation |
| Decoder.Flush | src/escapeparser.cpp:134-153 | `flushTextBuffer` empties the text buffer, changes no other parser field, and does nothing when the buffer is empty |
| Decoder.ControlChar | src/escapeparser.cpp:155-173 | a control character keeps the invariant |
| Decoder.DoFullReset | src/escapeparser.cpp:320-331 | the parser's reset keeps the invariant |
| Decoder.Ensured | src/escapeparser.cpp:176-199 | `ensure` changes a non-empty list not at all and keeps parameters non-negative |
| Decoder.P | src/escapeparser.cpp:203 | the `P(i, def)` lambda returns a stored parameter or the default, and it is non-negative when both are |
| Decoder.PrivateModes | src/escapeparser.cpp:255-282 | the private-mode loop changes only the screen model and the parser's saved slot |
| Decoder.HandleCsi | src/escapeparser.cpp:175-288 | a command changes only the screen model, the defaulted parameters and the saved slot. It fails exactly when J or K erases to the cursor from the deferred-wrap column |
| Decoder.HandleOsc | src/escapeparser.cpp:290-307 | `handleOscCommand` changes only the title. `DecoderSteps.OscTitle` and `OscNoSeparator` say when it sets the title and to what |
| Decoder.Step | src/escapeparser.cpp:32-132 | `processByte` keeps the invariants, and the text buffer is either cleared or grows by the byte |
| Decoder.Run | src/escapeparser.cpp:21-23 | the byte loop of `feed` keeps the invariants, and a fault stays a fault |
| Decoder.Feed | src/escapeparser.cpp:20-30 | `feed` always ends with an empty text buffer |
| DecoderSteps.NormalAppends | src/escapeparser.cpp:43-45 | in Normal, a printable byte only joins the pending text |
| DecoderSteps.NormalEsc | src/escapeparser.cpp:35-38 | in Normal, ESC flushes the pending text and enters Esc |
| DecoderSteps.NormalControl | src/escapeparser.cpp:39-42 | in Normal, bytes below 0x20 and DEL flush the text, then act as control characters |
| DecoderSteps.ControlCharEffect | src/escapeparser.cpp:155-173 | BS moves one column left, and HT moves to col + 8 - col % 8; both are clamped. CR goes to column 0, LF is a line feed, and other bytes are ignored |
| DecoderSteps.TabStop | src/escapeparser.cpp:160-162 | a tab stops at the next multiple of 8, or at the last column, whichever is first |
| DecoderSteps.EscLeaves | src/escapeparser.cpp:48-90 | every byte leaves Esc. '[' enters Csi, clearing the parameters, the string and the private flag. ']' enters Osc, clearing the buffer. Every other byte returns to Normal |
| DecoderSteps.EscCommands | src/escapeparser.cpp:58-87 | 7 and 8 save and restore the cursor. D, M and E do a line feed, a reverse line feed, and a line feed then column 0. c is the parser's full reset. Every other byte changes nothing on the screen |
| DecoderSteps.DoFullResetEffect | src/escapeparser.cpp:320-331 | attributes 7/0/0 and default cells on both screens, with the cursor home on the primary screen. The scrollback, the region and the selection are untouched |
| DecoderSteps.CsiBytes | src/escapeparser.cpp:92-107 | in Csi, digits accumulate, ';' stores and '?' sets private mode. A byte in 0x40-0x7E stores, dispatches and returns to Normal. Every other byte, ESC and control bytes included, is ignored |
| DecoderSteps.CsiDigits | src/escapeparser.cpp:93-95 | a run of digits is appended to the parameter string |
| DecoderSteps.OscBytes | src/escapeparser.cpp:109-130 | BEL dispatches and returns to Normal, and ESC raises the escape flag. With the flag up, '\\' dispatches and any other byte is dropped; with it down, other bytes are appended |
| DecoderSteps.OscTitle | src/escapeparser.cpp:290-307 | OSC 0 and OSC 2 set the title to everything after the first ';', later ';' kept. Other numbers change nothing |
| DecoderSteps.OscNoSeparator | src/escapeparser.cpp:295 | without a ';' no title is set |
| DecoderCsi.CountDefaultsToOne | src/escapeparser.cpp:183-190 | the count of A-F is the first parameter, or 1 when there is none |
| DecoderCsi.CsiCursorMoves | src/escapeparser.cpp:206-217 | A, B, C and D move by the count and clamp to the buffer, not the scroll region. `row + n` and `col + n` wrap as C ints |
| DecoderCsi.CsiUp | src/escapeparser.cpp:206-208 | CSI A moves up by the count, clamped |
| DecoderCsi.CsiDown | src/escapeparser.cpp:209-211 | CSI B moves down by the count, clamped |
| DecoderCsi.CsiRight | src/escapeparser.cpp:212-214 | CSI C moves right by the count, clamped |
| DecoderCsi.CsiLeft | src/escapeparser.cpp:215-217 | CSI D moves left by the count, clamped |
| DecoderCsi.CsiCursorPositions | src/escapeparser.cpp:219-236 | E and F move the row by the count and go to column 0. G sets the column to P(0,1)-1. H and f go to (P(0,1)-1, P(1,1)-1). All are clamped |
| DecoderCsi.CsiRegion | src/escapeparser.cpp:249-253 | r calls `setScrollingRegion(P(0,1)-1, P(1, main rows)-1)`, so without parameters the region is the whole screen; nothing else changes |
| DecoderCsi.CsiErase | src/escapeparser.cpp:238-243 | J and K use mode P(0,0), which defaults to 0. They fault exactly when mode 1 meets the deferred-wrap column |
| DecoderCsi.CsiSgr | src/escapeparser.cpp:245-247 | m hands the parameters to `setSGR`; only the attributes change |
| DecoderCsi.CsiUnlisted | src/escapeparser.cpp:284-286 | unlisted finals, and h and l without '?', change nothing but the defaulted parameters |
| DecoderCsi.NoCharacterCommands | src/escapeparser.cpp:205-287 | P, @ and X have no case, so no CSI command inserts, deletes or erases characters |
| DecoderCsi.PrivateModeEffects | src/escapeparser.cpp:255-282 | ?1049h enters the alternate screen and records the cursor in the parser's slot. ?1049l leaves it and moves to that slot, clamped. ?1000h and ?1000l switch mouse handling |
| DecoderCsi.AlternateScreenRoundTrip | src/escapeparser.cpp:255-282 | ?1049h then ?1049l from the primary screen returns to it with its cells and an in-range cursor unchanged |
| DecoderCsi.CsiPrivate | src/escapeparser.cpp:255-282 | after '?', h and l run the private-mode loop over every parameter |
| DecoderCsi.CursorDownWraps | src/escapeparser.cpp:338-341 | a count of INT_MAX wraps `row + n` negative, so CSI B puts the cursor on the top row |
| DecoderProps.RunAppend | src/escapeparser.cpp:21-23 | running a + b is running a, then b |
| DecoderProps.PutUnitsAppend | src/escapeparser.cpp:142-152 | writing xs + ys is writing xs, then ys |
| DecoderProps.FlushIdempotent | src/escapeparser.cpp:134-137 | flushing twice is flushing once |
| DecoderProps.StepFlushesFirst | src/escapeparser.cpp:35-42 | in Normal, ESC and control bytes act on the flushed state |
| DecoderProps.StepAppendsText | src/escapeparser.cpp:43-45 | a printable ASCII byte after pending ASCII text gives the same result whether or not the text was flushed first |
| DecoderProps.FlushStep | src/escapeparser.cpp:32-153 | flushing before a byte does not change where stepping and flushing end |
| DecoderProps.FlushRun | src/escapeparser.cpp:20-30 | the same over a whole run of ASCII bytes |
| DecoderProps.RunKeepsAscii | src/escapeparser.cpp:43-45 | ASCII input leaves only ASCII in the text buffer |
| DecoderProps.FeedSplit | src/escapeparser.cpp:20-30 | for input below 0x80, feeding a and then b ends in the same screen, parser and title as feeding a + b, faults included |
| DecoderExamples.OpenCsi | src/escapeparser.cpp:35-54 | ESC [ from an idle state opens a CSI sequence with its buffers cleared |
| DecoderExamples.FeedKeepsOpenSequence | src/escapeparser.cpp:20-30 | a sequence cut after ESC [ is still open when the next `feed` starts |
| DecoderExamples.NinesValue | src/escapeparser.cpp:312 | the value of n nines is 10^n - 1 |
| DecoderExamples.TenNinesOverflow | src/escapeparser.cpp:312-315 | 9999999999 does not fit in an int |
| DecoderExamples.OverflowedSequence | src/escapeparser.cpp:92-107 | ESC [ 9999999999 z drops the number and runs no command; only the parser's CSI fields change |
| DecoderExamples.NinesThenFinal | src/escapeparser.cpp:92-107 | inside the sequence: the ten nines, then z, return to Normal with nothing stored |
| DecoderExamples.FinalAfterNines | src/escapeparser.cpp:102-106 | the final z after ten nines drops the parameter and does nothing else |
| DecoderExamples.OverflowedParameterDropped | src/escapeparser.cpp:309-318 | feeding ESC [ 9999999999 z GoodText ends where feeding GoodText does, so GoodText is still printed |
| DecoderExamples.RunCons | src/escapeparser.cpp:21-23 | running bytes is one step, then the rest |
| DecoderExamples.OscCollects | src/escapeparser.cpp:119-122 | with the flag down, OSC bytes other than BEL and ESC join the buffer |
| DecoderExamples.OpenOsc | src/escapeparser.cpp:35-58 | ESC ] from an idle state opens an OSC command with an empty buffer |
| DecoderExamples.StaleEscapeFlag | src/escapeparser.cpp:111-116 | ESC ] ESC BEL ends the command at the BEL with the escape flag still raised |
| DecoderExamples.IconNameBody | src/escapeparser.cpp:109-130 | the body 1;T BEL sets no title with the flag down. With it up, the 1 is dropped and the title becomes T |
| DecoderExamples.IconNameFresh | src/escapeparser.cpp:290-307 | with the flag down, 1;T is OSC 1, which sets no title |
| DecoderExamples.IconNameStale | src/escapeparser.cpp:290-307 | ;T has an empty number, read as 0, so the title becomes T |
| DecoderExamples.StaleFlagSetsTitle | src/escapeparser.cpp:109-130 | ESC ] 1 ; T BEL alone sets no title, but after ESC ] ESC BEL it sets the title to T |
| Widgets.TerminalWidget.constructor | src/terminalwidget.cpp:23-51 | the new widget is in state `Screen.Initial` |
| Widgets.TerminalWidget.MakeCellForCurrentAttr | src/terminalwidget.cpp:1010-1020 | a space in the current colours and style |
| Widgets.TerminalWidget.ClampCursor | src/terminalwidget.cpp:384-395 | the new state is `Screen.ClampCursor` of the old one |
| Widgets.TerminalWidget.SetCursorPos | src/terminalwidget.cpp:346-365 | the new state is `Screen.SetCursorPos` of the old one |
| Widgets.TerminalWidget.SetCursorRow | src/terminalwidget.h:104-107 | the new state is `Screen.SetCursorRow` of the old one |
| Widgets.TerminalWidget.SetCursorCol | src/terminalwidget.h:108-111 | the new state is `Screen.SetCursorCol` of the old one |
| Widgets.TerminalWidget.SaveCursorPos | src/terminalwidget.cpp:367-373 | the new state is `Screen.SaveCursorPos` of the old one |
| Widgets.TerminalWidget.RestoreCursorPos | src/terminalwidget.cpp:375-382 | the new state is `Screen.RestoreCursorPos` of the old one |
| Widgets.TerminalWidget.ScrollUp | src/terminalwidget.cpp:571-601 | the new state is `Screen.ScrollUp` of the old one |
| Widgets.TerminalWidget.ScrollDown | src/terminalwidget.cpp:603-625 | the new state is `Screen.ScrollDown` of the old one |
| Widgets.TerminalWidget.LineFeed | src/terminalwidget.cpp:237-255 | the new state is `Screen.LineFeed` of the old one |
| Widgets.TerminalWidget.ReverseLineFeed | src/terminalwidget.cpp:257-274 | the new state is `Screen.ReverseLineFeed` of the old one |
| Widgets.TerminalWidget.PutChar | src/terminalwidget.cpp:276-328 | the new state is `Screen.PutChar` of the old one |
| Widgets.TerminalWidget.PutPrintable | src/terminalwidget.cpp:307-327 | the printable path of `putChar`: the new state is `Screen.PutChar` of the old one |
| Widgets.TerminalWidget.Wrap | src/terminalwidget.cpp:307-313 | the wrap of `putChar` is a line feed, then column 0 |
| Widgets.TerminalWidget.WriteAtCursor | src/terminalwidget.cpp:315-327 | the cell at the cursor takes the unit in the current attributes, and the column advances by one |
| Widgets.TerminalWidget.EraseInLine | src/terminalwidget.cpp:482-521 | the new state is `Screen.EraseInLine` of the old one |
| Widgets.TerminalWidget.FillScreen | src/terminalwidget.cpp:635-642 | the buffer becomes `Grids.FillScreen` of its old grid |
| Widgets.TerminalWidget.EraseInDisplay | src/terminalwidget.cpp:523-550 | the new state is `Screen.EraseInDisplay` of the old one |
| Widgets.TerminalWidget.EraseBelow | src/terminalwidget.cpp:536-542 | mode 0 of `eraseInDisplay` |
| Widgets.TerminalWidget.EraseAbove | src/terminalwidget.cpp:543-549 | mode 1 of `eraseInDisplay` |
| Widgets.TerminalWidget.InsertChars | src/terminalwidget.cpp:441-458 | the new state is `Screen.InsertChars` of the old one |
| Widgets.TerminalWidget.InsertRounds | src/terminalwidget.cpp:450-455 | n rounds of the shift loop give `InsertInRow` by n |
| Widgets.TerminalWidget.DeleteChars | src/terminalwidget.cpp:403-420 | the new state is `Screen.DeleteChars` of the old one |
| Widgets.TerminalWidget.DeleteRounds | src/terminalwidget.cpp:412-417 | n rounds of the shift loop give `DeleteInRow` by n |
| Widgets.TerminalWidget.EraseChars | src/terminalwidget.cpp:422-439 | the new state is `Screen.EraseChars` of the old one |
| Widgets.TerminalWidget.EraseRun | src/terminalwidget.cpp:431-436 | the loop with its early break blanks `Grids.FillRow(r, col, col + n)` |
| Widgets.TerminalWidget.SetSGR | src/terminalwidget.cpp:1121-1227 | the new state is `Screen.SetSGR` of the old one |
| Widgets.TerminalWidget.SgrLoop | src/terminalwidget.cpp:1131-1226 | the index loop computes `Sgr` of the starting attributes |
| Widgets.TerminalWidget.SgrCode | src/terminalwidget.cpp:1133-1225 | one pass of the switch performs `SgrStep` and advances the index past what it consumed |
| Widgets.TerminalWidget.SgrExtendedCode | src/terminalwidget.cpp:1204-1219 | cases 38 and 48 perform `SgrStep`, whatever the style |
| Widgets.TerminalWidget.SetScrollingRegion | src/terminalwidget.cpp:223-235 | the new state is `Screen.SetScrollingRegion` of the old one |
| Widgets.TerminalWidget.SetMouseEnabled | src/terminalwidget.cpp:194-199 | the new state is `Screen.SetMouseEnabled` of the old one |
| Widgets.TerminalWidget.UseAlternateScreen | src/terminalwidget.cpp:208-221 | the new state is `Screen.UseAlternateScreen` of the old one |
| Widgets.TerminalWidget.SetTerminalSize | src/terminalwidget.cpp:644-686 | the new state is `Screen.SetTerminalSize` of the old one |
| Widgets.TerminalWidget.ResizeKeeping | src/terminalwidget.cpp:651-669 | resize, copy and blank leave the buffer as `Grids.Resized` of its old grid |
| Widgets.TerminalWidget.CopyOverlap | src/terminalwidget.cpp:657-663 | the nested copy loops give `Pasted` over copyRows x copyCols |
| Widgets.TerminalWidget.BlankRows | src/terminalwidget.cpp:664-669 | the nested blanking loops fill rows copyRows..rows-1, and nothing when cols < 1 |
| Widgets.TerminalWidget.FullReset | src/terminalwidget.cpp:1095-1112 | the new state is `Screen.FullReset` of the old one |
| Widgets.TerminalWidget.SetCurrentFg | src/terminalwidget.h:113 | only the foreground changes |
| Widgets.TerminalWidget.SetCurrentBg | src/terminalwidget.h:114 | only the background changes |
| Widgets.TerminalWidget.SetCurrentStyle | src/terminalwidget.h:115 | only the style changes |
| Widgets.TerminalWidget.FillMainScreen | src/escapeparser.cpp:326 | `fillScreen` on the main screen: only that screen changes |
| Widgets.TerminalWidget.FillAlternateScreen | src/escapeparser.cpp:327 | `fillScreen` on the alternate screen: only that screen changes |
| Widgets.TerminalWidget.HasSelection | src/terminalwidget.cpp:808-822 | true exactly when the flag is set and anchor and active end differ |
| Widgets.TerminalWidget.GetCellsAtAbsoluteLine | src/terminalwidget.cpp:912-934 | returns `Selection.CellsAt` of the state |
| Widgets.TerminalWidget.ClampLineCol | src/terminalwidget.cpp:397-401 | returns `Selection.ClampLineCol` of the state |
| Widgets.TerminalWidget.SelectedText | src/terminalwidget.cpp:824-873 | the loop over the lines returns `Selection.SelectedText` of the state |
| Widgets.TerminalWidget.PieceAt | src/terminalwidget.cpp:847-870 | one round of that loop: no piece for an unresolvable line, else the line's piece |
| Widgets.TerminalWidget.LineText | src/terminalwidget.cpp:855-870 | the bounds, the swap, the clamp and the copy loop compute `Selection.Piece` |
| Widgets.TerminalWidget.CharsBetween | src/terminalwidget.cpp:866-869 | the copy loop returns the characters of cells sc..ec |
| Widgets.TerminalWidget.SelectWordAtPosition | src/terminalwidget.cpp:765-798 | the new state is `Selection.SelectWord` of the old one |
| Widgets.TerminalWidget.WordStartOf | src/terminalwidget.cpp:777-779 | the walk left computes `Selection.WordStart` |
| Widgets.TerminalWidget.WordEndOf | src/terminalwidget.cpp:780-782 | the walk right computes `Selection.WordEnd` |
| Widgets.TerminalWidget.ClearSelection | src/terminalwidget.cpp:800-806 | the new state is `Selection.ClearSelection` of the old one |
| Widgets.TerminalWidget.MousePress | src/terminalwidget.cpp:1229-1255 | the new state is `Selection.Press` of the old one |
| Widgets.TerminalWidget.MouseMove | src/terminalwidget.cpp:1257-1268 | the new state is `Selection.Drag` of the old one |
| Widgets.TerminalWidget.MouseRelease | src/terminalwidget.cpp:1270-1281 | the new state is `Selection.Release` of the old one |
| Widgets.TerminalWidget.MouseDoubleClick | src/terminalwidget.cpp:1233-1240 | the new state is `Selection.DoubleClick` of the old one |
| Parsers.EscapeSequenceParser.constructor | src/escapeparser.cpp:17-18 | Normal, empty buffers, saved slot (0, 0), over the given widget |
| Parsers.EscapeSequenceParser.Feed | src/escapeparser.cpp:20-30 | the loop over the bytes, then the flush, leave the widget and the parser in `Decoder.Feed` of the old state |
| Parsers.EscapeSequenceParser.ProcessByte | src/escapeparser.cpp:32-132 | the new state is `Decoder.Step` of the old one |
| Parsers.EscapeSequenceParser.NormalByte | src/escapeparser.cpp:34-46 | the Normal case of `processByte` |
| Parsers.EscapeSequenceParser.EscByte | src/escapeparser.cpp:48-90 | the Esc case of `processByte` |
| Parsers.EscapeSequenceParser.EnterCsi | src/escapeparser.cpp:49-54 | '[' enters Csi with the parameters, the string and the private flag cleared |
| Parsers.EscapeSequenceParser.EscCommand | src/escapeparser.cpp:63-89 | the screen commands of Esc, then Normal |
| Parsers.EscapeSequenceParser.CsiByte | src/escapeparser.cpp:92-107 | the Csi case of `processByte` |
| Parsers.EscapeSequenceParser.OscByte | src/escapeparser.cpp:109-130 | the Osc case of `processByte` |
| Parsers.EscapeSequenceParser.FlushTextBuffer | src/escapeparser.cpp:134-153 | the new state is `Decoder.Flush` of the old one |
| Parsers.EscapeSequenceParser.WriteUnits | src/escapeparser.cpp:142-152 | the loop over the decoded units writes them as `PutUnits` does |
| Parsers.EscapeSequenceParser.HandleControlChar | src/escapeparser.cpp:155-173 | the widget's new state is `Decoder.ControlChar` of the old one |
| Parsers.EscapeSequenceParser.HandleCsiCommand | src/escapeparser.cpp:175-288 | the new state is `Decoder.HandleCsi` of the old one |
| Parsers.EscapeSequenceParser.EnsureDefault | src/escapeparser.cpp:176-199 | only the parameters change, to `Ensured` of the old ones |
| Parsers.EscapeSequenceParser.CsiCursorCommand | src/escapeparser.cpp:205-236 | the cursor commands A-H and f perform `HandleCsi` |
| Parsers.EscapeSequenceParser.CsiScreenCommand | src/escapeparser.cpp:238-253 | J, K, m, r and the unlisted finals perform `HandleCsi` |
| Parsers.EscapeSequenceParser.PrivateModes | src/escapeparser.cpp:257-280 | the loop over the parameters performs `Decoder.PrivateModes` |
| Parsers.EscapeSequenceParser.PrivateMode | src/escapeparser.cpp:258-279 | one parameter of that loop |
| Parsers.EscapeSequenceParser.HandleOscCommand | src/escapeparser.cpp:290-307 | the new state is `Decoder.HandleOsc` of the old one |
| Parsers.EscapeSequenceParser.JoinPieces | src/escapeparser.cpp:296-300 | the join loop returns the pieces after the first, joined with ';' |
| Parsers.EscapeSequenceParser.StoreParam | src/escapeparser.cpp:309-318 | the parser's fields become `Decoder.StoreParam` of the old ones |
| Parsers.EscapeSequenceParser.DoFullReset | src/escapeparser.cpp:320-331 | the widget's new state is `Decoder.DoFullReset` of the old one |
| Parsers.EscapeSequenceParser.CursorUp | src/escapeparser.cpp:333-336 | the widget's new state is `Decoder.CursorUp` of the old one |
| Parsers.EscapeSequenceParser.CursorDown | src/escapeparser.cpp:338-341 | the widget's new state is `Decoder.CursorDown` of the old one |
| Parsers.EscapeSequenceParser.CursorRight | src/escapeparser.cpp:343-346 | the widget's new state is `Decoder.CursorRight` of the old one |
| Parsers.EscapeSequenceParser.CursorLeft | src/escapeparser.cpp:348-351 | the widget's new state is `Decoder.CursorLeft` of the old one |

## Left out

- Rendering is not modelled: `paintEvent`, `drawCell`, `drawCursor`, `ansiIndexToColor`, font metrics, the scroll bar (`maybeAdjustScrollBar`, `isViewPinnedBottom`), `invalidateCell`, viewport updates and `updateScreen`. These are Qt presentation code and change no state of the model.
- PTY and process I/O are not modelled: `safeWriteToPty`, `setPtyInfo`, and the `ioctl(TIOCSWINSZ)` in `setTerminalSize`. They talk to the operating system; the file descriptor and shell pid are not part of the state.
- Keyboard input, clipboard copy and paste, and `handleBell` are not modelled. They only produce output to the PTY, the clipboard or the speaker.
- Widgets.TerminalWidget.MousePress, MouseMove, MouseRelease and MouseDoubleClick take the absolute line and column directly. The pixel-to-cell division by the character size and the scroll-bar offset are Qt geometry. The button test is taken as the left button; other buttons do nothing in the code.
- src/mousehandler.cpp and src/regex.cpp are not part of this model. The first writes straight to a file descriptor with helpers that are not defined anywhere. The second wraps `std::regex` and `inet_pton`, which are unrelated to terminal emulation.
- `QChar::isPrint`, `QChar::isSpace` and `QString::fromUtf8` are parameters. Their Unicode tables and the UTF-8 decoder are foreign library code; `Conforms` pins down only their ASCII behaviour, which the split property relies on.
- The window title is kept as the bytes after the first ';'. `window()->setWindowTitle(QString::fromUtf8(t))` is left out, and so is the check that the widget has a window. The title is always recorded.
- Decoder.ToIntOrZero reads only strings of decimal digits. A leading sign or surrounding white space, which `QByteArray::toInt` would accept, is read as 0. In the CSI path only digits can reach the parameter string, so this matters only for the OSC number.
- `m_prevCursorRow` and `m_prevCursorCol`, which `setCursorPos` writes (src/terminalwidget.cpp:360-361), are not modelled. No code in these sources reads them.
- `isWithinLineSelection` (src/terminalwidget.cpp:875-910) is not modelled. It only serves painting.
- `deleteLines`, `insertLines`, `scrollUpLines` and `scrollDownLines` (src/terminalwidget.h:97-100) are not modelled, because they are declared but never defined. The same holds for `handleNormalByte`..`handleOscByte`, `changeState`, `resetState` (src/escapeparser.h:44-47, 61-62) and `copyBuffer`.
- Widgets.TerminalWidget.SelectedText, SelectWordAtPosition and MouseDoubleClick require every scrollback row to be at least as wide as the current screen (`Selection.ScrollbackFits`). Scrollback rows keep the width they had when they scrolled off. After a widening resize the code reads past the end of such a row, which this model does not describe.
- Widgets.TerminalWidget.PutChar, EraseInLine, EraseInDisplay and InsertChars require the write to stay inside the buffer (`PutCharSafe`, `EraseInLineSafe`, `InsertCharsSafe`). The code's out-of-range access in these cases is undefined behaviour. The model shows only that such states are reachable (`ScreenProps.ShrinkBreaksPutChar`, `ScreenProps.DeferredWrapBreaksEraseToCursor`). Likewise the parser methods require that the `Decoder` function returns a value.
- Cell contents are cell values; the code's `Cell*` pointers into the buffer and into scrollback rows are modelled as copies of the row. This is the same within one call, because nothing writes the buffer while such a pointer is in use.
- Integers are unbounded except where the code's `int` arithmetic can overflow on values a byte stream can supply: `row + n` and `col + n` in cursor movement and CSI E use `Cells.Wrap32`. Sizes in `setTerminalSize` and the product rows*cols are taken to fit, as they do for any real terminal size. Parameters parsed by `storeParam` are bounded by `INT_MAX`, so `P(0,1) - 1` and `row - n` stay inside the int range.
- Processing the byte cases in separate methods (`NormalByte`, `EscByte`, `CsiByte`, `OscByte`, `EscCommand` and the two halves of the CSI table) gives the same results as the single `switch` of `processByte` and `handleCsiCommand`.
