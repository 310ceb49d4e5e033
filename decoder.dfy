/** EscapeSequenceParser (src/escapeparser.h, src/escapeparser.cpp) as functions on a value:
    the parser's fields, the screen model it drives, and the last window title it set.
    A step returns None when the screen model would access a cell outside its buffer. */
module Decoder {
  import opened Cells
  import opened Unicode
  import opened Grids
  import opened Screen
  import opened Seqs

  datatype Mode = Normal | Esc | Csi | Osc

  /** The parser's fields. `text` is m_textBuffer, which escapeparser.cpp uses but
      escapeparser.h does not declare. */
  datatype PState = PState(
    mode: Mode, privateMode: bool, oscEscape: bool,
    paramString: seq<byte>, params: seq<int>, oscBuffer: seq<byte>,
    savedRow: int, savedCol: int, text: seq<byte>)

  const InitialParser: PState := PState(Normal, false, false, [], [], [], 0, 0, [])

  /** The screen model, the parser, and the title most recently sent to the window. */
  datatype World = World(term: Term, p: PState, title: Option<seq<byte>>)

  const ESC: byte := 0x1B
  const BEL: byte := 0x07

  predicate IsDigit(b: byte) { 0x30 <= b <= 0x39 }

  predicate AllDigits(s: seq<byte>) {
    forall i :: 0 <= i < |s| ==> IsDigit(s[i])
  }

  predicate NonNegative(ps: seq<int>) {
    forall i :: 0 <= i < |ps| ==> ps[i] >= 0
  }

  /** What holds of the parser between bytes: pending text only in Normal, a parameter string
      of digits, no negative parameter. */
  predicate PInv(p: PState) {
    (p.text != [] ==> p.mode == Normal) && AllDigits(p.paramString) && NonNegative(p.params)
  }

  predicate WInv(w: World) {
    Inv(w.term) && PInv(w.p)
  }

  // ---------------------------------------------------------------------------
  // Numbers

  /** The decimal value of a digit string. */
  function Value(s: seq<byte>): (v: nat)
    requires AllDigits(s)
  {
    if s == [] then 0 else Value(s[..|s| - 1]) * 10 + (s[|s| - 1] - 0x30) as int
  }

  /** QByteArray::toInt on a digit string succeeds exactly when the value fits in an int. */
  predicate ParsesAsInt(s: seq<byte>) {
    s != [] && AllDigits(s) && Value(s) <= IntMax
  }

  /** toInt() without the ok flag, as handleOscCommand reads the OSC number: 0 on failure. */
  function ToIntOrZero(s: seq<byte>): (v: int)
    ensures v >= 0 && (ParsesAsInt(s) ==> v == Value(s))
  {
    if ParsesAsInt(s) then Value(s) else 0
  }

  /** storeParam(). */
  function StoreParam(p: PState): (p': PState)
    ensures p'.paramString == []
    ensures p' == p.(paramString := [], params := p'.params)
    ensures p'.params == if ParsesAsInt(p.paramString) then p.params + [Value(p.paramString)] else p.params
    ensures NonNegative(p.params) ==> NonNegative(p'.params)
  {
    if p.paramString == [] then p
    else if ParsesAsInt(p.paramString) then p.(params := p.params + [Value(p.paramString)], paramString := [])
    else p.(paramString := [])
  }

  // ---------------------------------------------------------------------------
  // Cursor movement (cursorUp and friends); row + n and col + n are C ints and wrap.

  function CursorUp(t: Term, n: int): (t': Term)
    requires Inv(t)
    ensures Inv(t')
  {
    ClampCursor(SetCursorRow(t, t.row - n))
  }

  function CursorDown(t: Term, n: int): (t': Term)
    requires Inv(t)
    ensures Inv(t')
  {
    ClampCursor(SetCursorRow(t, Wrap32(t.row + n)))
  }

  function CursorRight(t: Term, n: int): (t': Term)
    requires Inv(t)
    ensures Inv(t')
  {
    ClampCursor(SetCursorCol(t, Wrap32(t.col + n)))
  }

  function CursorLeft(t: Term, n: int): (t': Term)
    requires Inv(t)
    ensures Inv(t')
  {
    ClampCursor(SetCursorCol(t, t.col - n))
  }

  // ---------------------------------------------------------------------------
  // Text and control characters

  /** One decoded code unit of flushTextBuffer. */
  function PutUnit(u: Services, t: Term, ch: u16): (r: Option<Term>)
    requires Inv(t)
    ensures r.Some? ==> Inv(r.value)
    ensures r.None? <==> !PutCharSafe(u, t, ch)
  {
    if ch == 0x0A then Some(LineFeed(t))
    else if ch == 0x0D then Some(SetCursorPos(t, t.row, 0, true))
    else if PutCharSafe(u, t, ch) then Some(PutChar(u, t, ch))
    else None
  }

  function PutUnits(u: Services, t: Term, cs: seq<u16>): (r: Option<Term>)
    requires Inv(t)
    ensures r.Some? ==> Inv(r.value)
    decreases |cs|
  {
    if cs == [] then Some(t)
    else
      match PutUnit(u, t, cs[0])
      case None => None
      case Some(t1) => PutUnits(u, t1, cs[1..])
  }

  /** flushTextBuffer(). */
  function Flush(u: Services, w: World): (r: Option<World>)
    requires WInv(w)
    ensures r.Some? ==> WInv(r.value) && r.value.p == w.p.(text := []) && r.value.title == w.title
    ensures w.p.text == [] ==> r == Some(w)
  {
    if w.p.text == [] then Some(w)
    else
      match PutUnits(u, w.term, u.fromUtf8(w.p.text))
      case None => None
      case Some(t) => Some(World(t, w.p.(text := []), w.title))
  }

  /** handleControlChar(b). */
  function ControlChar(t: Term, b: byte): (t': Term)
    requires Inv(t)
    ensures Inv(t')
  {
    if b == 0x08 then CursorLeft(t, 1)
    else if b == 0x09 then CursorRight(t, 8 - t.col % 8)
    else if b == 0x0D then SetCursorPos(t, t.row, 0, true)
    else if b == 0x0A then LineFeed(t)
    else t
  }

  // ---------------------------------------------------------------------------
  // Commands

  /** doFullReset(): default attributes, both screens default cells, cursor home, primary
      screen. Scrollback and scroll region are left as they were. */
  function DoFullReset(t: Term): (t': Term)
    requires Inv(t)
    ensures Inv(t')
  {
    var t1 := t.(attr := DefaultAttr, main := FillScreen(t.main, DefaultCell), alt := FillScreen(t.alt, DefaultCell));
    UseAlternateScreen(SetCursorPos(t1, 0, 0, true), false)
  }

  /** The `ensure` of handleCsiCommand: a default parameter for commands that need one. */
  function Ensured(cmd: byte, ps: seq<int>): (r: seq<int>)
    ensures ps != [] ==> r == ps
    ensures NonNegative(ps) ==> NonNegative(r)
  {
    if ps != [] then ps
    else if cmd in {'A' as byte, 'B' as byte, 'C' as byte, 'D' as byte, 'E' as byte, 'F' as byte} then [1]
    else if cmd in {'J' as byte, 'K' as byte} then [0]
    else ps
  }

  /** P(i, def). */
  function P(ps: seq<int>, i: nat, def: int): (v: int)
    ensures v == def || v in ps
    ensures NonNegative(ps) && 0 <= def ==> 0 <= v
  {
    if i < |ps| then ps[i] else def
  }

  /** The loop over the parameters of CSI ? ... h and CSI ? ... l. */
  function PrivateModes(w: World, ps: seq<int>, on: bool): (r: World)
    requires Inv(w.term)
    ensures Inv(r.term) && r.p == w.p.(savedRow := r.p.savedRow, savedCol := r.p.savedCol)
    ensures r.title == w.title
    decreases |ps|
  {
    if ps == [] then w
    else
      var t := w.term;
      var w1 :=
        if ps[0] == 1049 && on then
          var t1 := UseAlternateScreen(t, true);
          w.(term := t1, p := w.p.(savedRow := t1.row, savedCol := t1.col))
        else if ps[0] == 1049 then
          var t1 := UseAlternateScreen(t, false);
          w.(term := SetCursorPos(t1, w.p.savedRow, w.p.savedCol, true))
        else if ps[0] == 1000 then w.(term := SetMouseEnabled(t, on))
        else w;
      PrivateModes(w1, ps[1..], on)
  }

  /** handleCsiCommand(cmd), with the pending parameter already stored. */
  function HandleCsi(w: World, cmd: byte): (r: Option<World>)
    requires WInv(w)
    ensures r.Some? ==> WInv(r.value) && r.value.title == w.title
    ensures r.Some? ==> r.value.p == w.p.(params := Ensured(cmd, w.p.params),
                                          savedRow := r.value.p.savedRow, savedCol := r.value.p.savedCol)
    ensures r.None? <==> (cmd == 'J' as byte || cmd == 'K' as byte) &&
                         !EraseInLineSafe(w.term, P(Ensured(cmd, w.p.params), 0, 0))
  {
    var ps := Ensured(cmd, w.p.params);
    var w0 := w.(p := w.p.(params := ps));
    var t := w.term;
    if cmd == 'A' as byte then Some(w0.(term := CursorUp(t, P(ps, 0, 1))))
    else if cmd == 'B' as byte then Some(w0.(term := CursorDown(t, P(ps, 0, 1))))
    else if cmd == 'C' as byte then Some(w0.(term := CursorRight(t, P(ps, 0, 1))))
    else if cmd == 'D' as byte then Some(w0.(term := CursorLeft(t, P(ps, 0, 1))))
    else if cmd == 'E' as byte then Some(w0.(term := SetCursorPos(t, Wrap32(t.row + P(ps, 0, 1)), 0, true)))
    else if cmd == 'F' as byte then Some(w0.(term := SetCursorPos(t, t.row - P(ps, 0, 1), 0, true)))
    else if cmd == 'G' as byte then Some(w0.(term := SetCursorPos(t, t.row, P(ps, 0, 1) - 1, true)))
    else if cmd == 'H' as byte || cmd == 'f' as byte then
      Some(w0.(term := SetCursorPos(t, P(ps, 0, 1) - 1, P(ps, 1, 1) - 1, true)))
    else if cmd == 'J' as byte then
      (if EraseInLineSafe(t, P(ps, 0, 0)) then Some(w0.(term := EraseInDisplay(t, P(ps, 0, 0)))) else None)
    else if cmd == 'K' as byte then
      (if EraseInLineSafe(t, P(ps, 0, 0)) then Some(w0.(term := EraseInLine(t, P(ps, 0, 0)))) else None)
    else if cmd == 'm' as byte then Some(w0.(term := SetSGR(t, ps)))
    else if cmd == 'r' as byte then
      Some(w0.(term := SetScrollingRegion(t, P(ps, 0, 1) - 1, P(ps, 1, t.main.rows) - 1)))
    else if (cmd == 'h' as byte || cmd == 'l' as byte) && w.p.privateMode then
      Some(PrivateModes(w0, ps, cmd == 'h' as byte))
    else Some(w0)
  }

  /** The part of handleOscCommand this model keeps: for OSC 0 and OSC 2 with a ';', the
      title, which is the buffer after the first ';' (the later pieces joined with ';'). */
  function HandleOsc(w: World): (r: World)
    ensures r.term == w.term && r.p == w.p
  {
    var parts := SplitOn(w.p.oscBuffer, ';' as byte);
    var ps := ToIntOrZero(parts[0]);
    if (ps == 0 || ps == 2) && |parts| > 1 then w.(title := Some(JoinWith(parts[1..], ';' as byte)))
    else w
  }

  // ---------------------------------------------------------------------------
  // The byte machine

  /** processByte(b). */
  function Step(u: Services, w: World, b: byte): (r: Option<World>)
    requires WInv(w)
    ensures r.Some? ==> WInv(r.value)
    ensures r.Some? ==> r.value.p.text == [] || r.value.p.text == w.p.text + [b]
  {
    var p := w.p;
    match p.mode
    case Normal =>
      if b == ESC then
        match Flush(u, w)
        case None => None
        case Some(w1) => Some(w1.(p := w1.p.(mode := Esc)))
      else if b < 0x20 || b == 0x7F then
        match Flush(u, w)
        case None => None
        case Some(w1) => Some(w1.(term := ControlChar(w1.term, b)))
      else Some(w.(p := p.(text := p.text + [b])))
    case Esc =>
      var w1 := w.(p := p.(mode := Normal));
      if b == '[' as byte then Some(w.(p := p.(mode := Csi, params := [], privateMode := false, paramString := [])))
      else if b == ']' as byte then Some(w.(p := p.(mode := Osc, oscBuffer := [])))
      else if b == 'c' as byte then Some(w1.(term := DoFullReset(w.term)))
      else if b == '7' as byte then Some(w1.(term := SaveCursorPos(w.term)))
      else if b == '8' as byte then Some(w1.(term := RestoreCursorPos(w.term)))
      else if b == 'D' as byte then Some(w1.(term := LineFeed(w.term)))
      else if b == 'M' as byte then Some(w1.(term := ReverseLineFeed(w.term)))
      else if b == 'E' as byte then
        var t1 := LineFeed(w.term);
        Some(w1.(term := SetCursorPos(t1, t1.row, 0, true)))
      else Some(w1)
    case Csi =>
      if IsDigit(b) then Some(w.(p := p.(paramString := p.paramString + [b])))
      else if b == ';' as byte then Some(w.(p := StoreParam(p)))
      else if b == '?' as byte then Some(w.(p := p.(privateMode := true)))
      else if 0x40 <= b <= 0x7E then
        match HandleCsi(w.(p := StoreParam(p)), b)
        case None => None
        case Some(w1) => Some(w1.(p := w1.p.(mode := Normal)))
      else Some(w)
    case Osc =>
      if b == BEL then Some(HandleOsc(w).(p := p.(mode := Normal)))
      else if b == ESC then Some(w.(p := p.(oscEscape := true)))
      else if !p.oscEscape then Some(w.(p := p.(oscBuffer := p.oscBuffer + [b])))
      else if b == '\\' as byte then Some(HandleOsc(w).(p := p.(mode := Normal, oscEscape := false)))
      else Some(w.(p := p.(oscEscape := false)))
  }

  predicate OInv(o: Option<World>) {
    o.Some? ==> WInv(o.value)
  }

  /** The loop of feed(): processByte for each byte; a fault stays a fault. */
  function Run(u: Services, o: Option<World>, bs: seq<byte>): (r: Option<World>)
    requires OInv(o)
    ensures OInv(r)
    ensures o.None? ==> r.None?
    decreases |bs|
  {
    if bs == [] || o.None? then o
    else Run(u, Step(u, o.value, bs[0]), bs[1..])
  }

  function FlushO(u: Services, o: Option<World>): (r: Option<World>)
    requires OInv(o)
    ensures OInv(r)
  {
    match o
    case None => None
    case Some(w) => Flush(u, w)
  }

  /** feed(data), without the repaint request. */
  function Feed(u: Services, o: Option<World>, bs: seq<byte>): (r: Option<World>)
    requires OInv(o)
    ensures OInv(r)
    ensures r.Some? ==> r.value.p.text == []
  {
    FlushO(u, Run(u, o, bs))
  }
}
