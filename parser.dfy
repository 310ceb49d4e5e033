/** EscapeSequenceParser (src/escapeparser.h, src/escapeparser.cpp) as a class over a
    TerminalWidget. Its fields are the parser's members; `title` stands for the window
    title the parser last set. Each method is proved to perform the function of module
    Decoder with the same name, so the properties proved there hold of the class. A
    method's precondition that the Decoder function returns a value says that the byte
    stream does not make the widget touch a cell outside its buffer. */
module Parsers {
  import opened Cells
  import opened Unicode
  import opened Grids
  import opened Screen
  import opened Seqs
  import opened Decoder
  import opened Widgets

  /** Supplying the default parameter before handleCsiCommand's own `ensure` changes
      nothing. */
  lemma EnsuredTwice(w: World, cmd: byte)
    requires WInv(w)
    ensures var w1 := w.(p := w.p.(params := Ensured(cmd, w.p.params)));
      WInv(w1) && HandleCsi(w1, cmd) == HandleCsi(w, cmd)
  {
  }

  class EscapeSequenceParser {
    const widget: TerminalWidget
    var mode: Mode
    var privateMode: bool
    var oscEscape: bool
    var paramString: seq<byte>
    var params: seq<int>
    var oscBuffer: seq<byte>
    var savedRow: int
    var savedCol: int
    var text: seq<byte>
    var title: Option<seq<byte>>

    /** The value of the parser's own fields. */
    ghost function P(): PState
      reads this
    {
      PState(mode, privateMode, oscEscape, paramString, params, oscBuffer, savedRow, savedCol, text)
    }

    /** The screen model, the parser and the title. */
    ghost function W(): World
      reads this, widget, widget.main, widget.alt, widget.main.data, widget.alt.data
    {
      World(widget.State(), P(), title)
    }

    ghost predicate Valid()
      reads this, widget, widget.main, widget.alt, widget.main.data, widget.alt.data
    {
      widget.Valid() && PInv(P())
    }

    /** EscapeSequenceParser(widget): Normal, empty buffers, saved slot (0, 0). */
    constructor (w: TerminalWidget)
      requires w.Valid()
      ensures Valid() && widget == w && P() == InitialParser && title == None
    {
      widget := w;
      mode := Normal;
      privateMode, oscEscape := false, false;
      paramString, params, oscBuffer := [], [], [];
      savedRow, savedCol := 0, 0;
      text := [];
      title := None;
    }

    /** feed(data): every byte through processByte, then the pending text written out. The
        repaint request updateScreen() is not part of this model. */
    method Feed(u: Services, data: seq<byte>)
      requires Valid() && Decoder.Feed(u, Some(W()), data).Some?
      modifies this, widget, widget.alt, widget.main.data, widget.alt.data
      ensures Valid() && W() == Decoder.Feed(u, Some(old(W())), data).value
      ensures widget.alt.data == old(widget.alt.data) || fresh(widget.alt.data)
    {
      ghost var w0 := W();
      var i := 0;
      while i < |data|
        invariant 0 <= i <= |data| && Valid()
        invariant widget.alt.data == old(widget.alt.data) || fresh(widget.alt.data)
        invariant Run(u, Some(W()), data[i..]) == Run(u, Some(w0), data)
      {
        assert data[i..][0] == data[i] && data[i..][1..] == data[i + 1..];
        ProcessByte(u, data[i]);
        i := i + 1;
      }
      FlushTextBuffer(u);
    }

    /** processByte(b). */
    method ProcessByte(u: Services, b: byte)
      requires Valid() && Step(u, W(), b).Some?
      modifies this, widget, widget.alt, widget.main.data, widget.alt.data
      ensures Valid() && W() == Step(u, old(W()), b).value
      ensures widget.alt.data == old(widget.alt.data) || fresh(widget.alt.data)
    {
      match mode
      case Normal => NormalByte(u, b);
      case Esc => EscByte(u, b);
      case Csi => CsiByte(u, b);
      case Osc => OscByte(u, b);
    }

    /** processByte(b) in Normal. */
    method NormalByte(u: Services, b: byte)
      requires Valid() && mode == Normal && Step(u, W(), b).Some?
      modifies this, widget, widget.main.data, widget.alt.data
      ensures Valid() && W() == Step(u, old(W()), b).value
    {
      if b == ESC {
        FlushTextBuffer(u);
        mode := Esc;
      } else if b < 0x20 || b == 0x7F {
        FlushTextBuffer(u);
        HandleControlChar(b);
      } else {
        text := text + [b];
      }
    }

    /** processByte(b) in Esc: '[' and ']' open a sequence; every other byte returns to
        Normal after at most one widget command. */
    method EscByte(u: Services, b: byte)
      requires Valid() && mode == Esc
      modifies this, widget, widget.alt, widget.main.data, widget.alt.data
      ensures Valid() && W() == Step(u, old(W()), b).value
      ensures widget.alt.data == old(widget.alt.data) || fresh(widget.alt.data)
    {
      if b == '[' as byte {
        EnterCsi();
      } else if b == ']' as byte {
        mode := Osc;
        oscBuffer := [];
      } else if b == 'c' as byte {
        DoFullReset();
        mode := Normal;
      } else {
        EscCommand(u, b);
        mode := Normal;
      }
    }

    /** The '[' branch of Esc: a CSI sequence starts with no parameters. */
    method EnterCsi()
      modifies this
      ensures P() == old(P()).(mode := Csi, params := [], privateMode := false, paramString := [])
      ensures title == old(title)
    {
      mode := Csi;
      params := [];
      privateMode := false;
      paramString := [];
    }

    /** The widget command of an Esc byte other than '[', ']' and 'c'. */
    method EscCommand(u: Services, b: byte)
      requires Valid() && mode == Esc && b != '[' as byte && b != ']' as byte && b != 'c' as byte
      modifies widget, widget.main.data, widget.alt.data
      ensures Valid() && Some(W().(p := W().p.(mode := Normal))) == Step(u, old(W()), b)
    {
      if b == '7' as byte {
        widget.SaveCursorPos();
      } else if b == '8' as byte {
        widget.RestoreCursorPos();
      } else if b == '(' as byte || b == ')' as byte || b == '*' as byte {
      } else if b == 'D' as byte {
        widget.LineFeed();
      } else if b == 'M' as byte {
        widget.ReverseLineFeed();
      } else if b == 'E' as byte {
        widget.LineFeed();
        widget.SetCursorPos(widget.row, 0, true);
      }
    }

    /** processByte(b) in Csi. */
    method CsiByte(u: Services, b: byte)
      requires Valid() && mode == Csi && Step(u, W(), b).Some?
      modifies this, widget, widget.alt, widget.main.data, widget.alt.data
      ensures Valid() && W() == Step(u, old(W()), b).value
      ensures widget.alt.data == old(widget.alt.data) || fresh(widget.alt.data)
    {
      if b >= '0' as byte && b <= '9' as byte {
        paramString := paramString + [b];
      } else if b == ';' as byte {
        StoreParam();
      } else if b == '?' as byte {
        privateMode := true;
      } else if (b >= 0x40 && b <= 0x7E) || b == '@' as byte {
        StoreParam();
        HandleCsiCommand(b);
        mode := Normal;
      }
    }

    /** processByte(b) in Osc. */
    method OscByte(u: Services, b: byte)
      requires Valid() && mode == Osc
      modifies this
      ensures Valid() && W() == Step(u, old(W()), b).value
    {
      if b == BEL {
        HandleOscCommand();
        mode := Normal;
      } else if b == ESC {
        oscEscape := true;
      } else {
        if !oscEscape {
          oscBuffer := oscBuffer + [b];
        } else {
          if b == '\\' as byte {
            HandleOscCommand();
            mode := Normal;
          }
          oscEscape := false;
        }
      }
    }

    /** flushTextBuffer(): the pending bytes decoded as UTF-8, the buffer cleared, then each
        code unit written: '\n' is a line feed, '\r' a carriage return, the rest putChar. */
    method FlushTextBuffer(u: Services)
      requires Valid() && Flush(u, W()).Some?
      modifies this, widget, widget.main.data, widget.alt.data
      ensures Valid() && W() == Flush(u, old(W())).value
    {
      if text == [] {
        return;
      }
      var decoded := u.fromUtf8(text);
      text := [];
      WriteUnits(u, decoded);
    }

    /** The loop of flushTextBuffer over the decoded code units. */
    method WriteUnits(u: Services, decoded: seq<u16>)
      requires widget.Valid() && PutUnits(u, widget.State(), decoded).Some?
      modifies widget, widget.main.data, widget.alt.data
      ensures widget.Valid() && Some(widget.State()) == PutUnits(u, old(widget.State()), decoded)
    {
      ghost var t0 := widget.State();
      var i := 0;
      while i < |decoded|
        invariant 0 <= i <= |decoded| && widget.Valid()
        invariant PutUnits(u, widget.State(), decoded[i..]) == PutUnits(u, t0, decoded)
      {
        var ch := decoded[i];
        assert decoded[i..][0] == ch && decoded[i..][1..] == decoded[i + 1..];
        if ch == 0x0A {
          widget.LineFeed();
        } else if ch == 0x0D {
          widget.SetCursorPos(widget.row, 0, true);
        } else {
          widget.PutChar(u, ch);
        }
        i := i + 1;
      }
    }

    /** handleControlChar(b). */
    method HandleControlChar(b: byte)
      requires widget.Valid()
      modifies widget, widget.main.data, widget.alt.data
      ensures widget.Valid() && widget.State() == ControlChar(old(widget.State()), b)
    {
      if b == 0x08 {
        CursorLeft(1);
      } else if b == 0x09 {
        CursorRight(8 - widget.col % 8);
      } else if b == 0x0D {
        widget.SetCursorPos(widget.row, 0, true);
      } else if b == 0x0A {
        widget.LineFeed();
      }
    }

    /** handleCsiCommand(cmd): the default parameter, then the command. */
    method HandleCsiCommand(cmd: byte)
      requires Valid() && HandleCsi(W(), cmd).Some?
      modifies this, widget, widget.alt, widget.main.data, widget.alt.data
      ensures Valid() && W() == HandleCsi(old(W()), cmd).value
      ensures widget.alt.data == old(widget.alt.data) || fresh(widget.alt.data)
    {
      ghost var w0 := W();
      EnsureDefault(cmd);
      var ps := params;
      EnsuredTwice(w0, cmd);
      assert W() == w0.(p := w0.p.(params := ps));
      if cmd in {'h' as byte, 'l' as byte} {
        if privateMode {
          PrivateModes(ps, cmd == 'h' as byte);
        }
      } else if cmd in {'A' as byte, 'B' as byte, 'C' as byte, 'D' as byte, 'E' as byte, 'F' as byte,
                        'G' as byte, 'H' as byte, 'f' as byte} {
        CsiCursorCommand(cmd, ps);
      } else {
        CsiScreenCommand(cmd, ps);
      }
    }

    /** The `ensure` of handleCsiCommand: 1 for A to F, 0 for J and K, when there is no
        parameter. */
    method EnsureDefault(cmd: byte)
      modifies this
      ensures P() == old(P()).(params := Ensured(cmd, old(params))) && title == old(title)
    {
      if cmd in {'A' as byte, 'B' as byte, 'C' as byte, 'D' as byte, 'E' as byte, 'F' as byte} {
        if params == [] {
          params := [1];
        }
      } else if cmd in {'J' as byte, 'K' as byte} {
        if params == [] {
          params := [0];
        }
      }
    }

    /** The cursor commands of handleCsiCommand. */
    method CsiCursorCommand(cmd: byte, ps: seq<int>)
      requires Valid() && ps == params && Ensured(cmd, ps) == ps
      requires cmd in {'A' as byte, 'B' as byte, 'C' as byte, 'D' as byte, 'E' as byte, 'F' as byte,
                       'G' as byte, 'H' as byte, 'f' as byte}
      modifies widget
      ensures Valid() && Some(W()) == HandleCsi(old(W()), cmd)
    {
      if cmd == 'A' as byte {
        CursorUp(Decoder.P(ps, 0, 1));
      } else if cmd == 'B' as byte {
        CursorDown(Decoder.P(ps, 0, 1));
      } else if cmd == 'C' as byte {
        CursorRight(Decoder.P(ps, 0, 1));
      } else if cmd == 'D' as byte {
        CursorLeft(Decoder.P(ps, 0, 1));
      } else if cmd == 'E' as byte {
        widget.SetCursorPos(Wrap32(widget.row + Decoder.P(ps, 0, 1)), 0, true);
      } else if cmd == 'F' as byte {
        widget.SetCursorPos(widget.row - Decoder.P(ps, 0, 1), 0, true);
      } else if cmd == 'G' as byte {
        var col := Decoder.P(ps, 0, 1) - 1;
        widget.SetCursorPos(widget.row, col, true);
      } else if cmd == 'H' as byte || cmd == 'f' as byte {
        var row := Decoder.P(ps, 0, 1) - 1;
        var col := Decoder.P(ps, 1, 1) - 1;
        widget.SetCursorPos(row, col, true);
      }
    }

    /** The erase, attribute and region commands of handleCsiCommand, and the commands it
        ignores. */
    method CsiScreenCommand(cmd: byte, ps: seq<int>)
      requires Valid() && ps == params && Ensured(cmd, ps) == ps
      requires cmd !in {'A' as byte, 'B' as byte, 'C' as byte, 'D' as byte, 'E' as byte, 'F' as byte,
                        'G' as byte, 'H' as byte, 'f' as byte, 'h' as byte, 'l' as byte}
      requires HandleCsi(W(), cmd).Some?
      modifies widget, widget.main.data, widget.alt.data
      ensures Valid() && Some(W()) == HandleCsi(old(W()), cmd)
    {
      if cmd == 'J' as byte {
        widget.EraseInDisplay(Decoder.P(ps, 0, 0));
      } else if cmd == 'K' as byte {
        widget.EraseInLine(Decoder.P(ps, 0, 0));
      } else if cmd == 'm' as byte {
        widget.SetSGR(ps);
      } else if cmd == 'r' as byte {
        var top := Decoder.P(ps, 0, 1) - 1;
        var bot := Decoder.P(ps, 1, widget.main.rows) - 1;
        widget.SetScrollingRegion(top, bot);
      }
    }

    /** The loops over the parameters of CSI ? ... h (on) and CSI ? ... l (off). */
    method PrivateModes(ps: seq<int>, on: bool)
      requires Valid()
      modifies this, widget, widget.alt, widget.main.data, widget.alt.data
      ensures Valid() && W() == Decoder.PrivateModes(old(W()), ps, on)
      ensures widget.alt.data == old(widget.alt.data) || fresh(widget.alt.data)
    {
      ghost var w0 := W();
      var i := 0;
      while i < |ps|
        invariant 0 <= i <= |ps| && Valid()
        invariant widget.alt.data == old(widget.alt.data) || fresh(widget.alt.data)
        invariant Decoder.PrivateModes(W(), ps[i..], on) == Decoder.PrivateModes(w0, ps, on)
      {
        assert ps[i..][0] == ps[i] && ps[i..][1..] == ps[i + 1..];
        PrivateMode(ps[i], on);
        i := i + 1;
      }
    }

    /** One parameter of the private-mode loops. */
    method PrivateMode(p: int, on: bool)
      requires Valid()
      modifies this, widget, widget.alt, widget.main.data, widget.alt.data
      ensures Valid() && W() == Decoder.PrivateModes(old(W()), [p], on)
      ensures widget.alt.data == old(widget.alt.data) || fresh(widget.alt.data)
    {
      assert [p][1..] == [];
      if p == 1049 {
        if on {
          widget.UseAlternateScreen(true);
          savedRow := widget.row;
          savedCol := widget.col;
        } else {
          widget.UseAlternateScreen(false);
          widget.SetCursorPos(savedRow, savedCol, true);
        }
      } else if p == 1000 {
        widget.SetMouseEnabled(on);
      }
    }

    /** handleOscCommand(): for a number 0 or 2 before the first ';', the title becomes the
        pieces after it joined again with ';'. */
    method HandleOscCommand()
      modifies this
      ensures W() == HandleOsc(old(W()))
    {
      var parts := SplitOn(oscBuffer, ';' as byte);
      if |parts| > 0 {
        var ps := ToIntOrZero(parts[0]);
        if ps == 0 || ps == 2 {
          if |parts| > 1 {
            var t := JoinPieces(parts);
            title := Some(t);
          }
        }
      }
    }

    /** The join loop of handleOscCommand: the pieces after the first, with ';' between. */
    static method JoinPieces(parts: seq<seq<byte>>) returns (t: seq<byte>)
      requires |parts| > 1
      ensures t == JoinWith(parts[1..], ';' as byte)
    {
      t := parts[1];
      var i := 2;
      assert parts[1..2] == [parts[1]];
      while i < |parts|
        invariant 2 <= i <= |parts|
        invariant t == JoinWith(parts[1..i], ';' as byte)
      {
        JoinSnoc(parts[1..i], parts[i], ';' as byte);
        assert parts[1..i] + [parts[i]] == parts[1..i + 1];
        t := t + [';' as byte] + parts[i];
        i := i + 1;
      }
      assert parts[1..i] == parts[1..];
    }

    /** storeParam(): a non-empty parameter string that reads as an int joins the
        parameters; the string is cleared either way. */
    method StoreParam()
      modifies this
      ensures P() == Decoder.StoreParam(old(P())) && title == old(title)
    {
      if paramString != [] {
        if ParsesAsInt(paramString) {
          params := params + [Value(paramString)];
        }
        paramString := [];
      }
    }

    /** doFullReset(). */
    method DoFullReset()
      requires widget.Valid()
      modifies widget, widget.alt, widget.main.data, widget.alt.data
      ensures widget.Valid() && widget.State() == Decoder.DoFullReset(old(widget.State()))
      ensures widget.alt.data == old(widget.alt.data) || fresh(widget.alt.data)
    {
      widget.SetCurrentFg(7);
      widget.SetCurrentBg(0);
      widget.SetCurrentStyle(0);
      var blankCell := DefaultCell;
      widget.FillMainScreen(blankCell);
      widget.FillAlternateScreen(blankCell);
      widget.SetCursorPos(0, 0, true);
      widget.UseAlternateScreen(false);
    }

    /** cursorUp(n). */
    method CursorUp(n: int)
      requires widget.Valid()
      modifies widget
      ensures widget.Valid() && widget.State() == Decoder.CursorUp(old(widget.State()), n)
    {
      widget.SetCursorRow(widget.row - n);
      widget.ClampCursor();
    }

    /** cursorDown(n); row + n is a C int. */
    method CursorDown(n: int)
      requires widget.Valid()
      modifies widget
      ensures widget.Valid() && widget.State() == Decoder.CursorDown(old(widget.State()), n)
    {
      widget.SetCursorRow(Wrap32(widget.row + n));
      widget.ClampCursor();
    }

    /** cursorRight(n); col + n is a C int. */
    method CursorRight(n: int)
      requires widget.Valid()
      modifies widget
      ensures widget.Valid() && widget.State() == Decoder.CursorRight(old(widget.State()), n)
    {
      widget.SetCursorCol(Wrap32(widget.col + n));
      widget.ClampCursor();
    }

    /** cursorLeft(n). */
    method CursorLeft(n: int)
      requires widget.Valid()
      modifies widget
      ensures widget.Valid() && widget.State() == Decoder.CursorLeft(old(widget.State()), n)
    {
      widget.SetCursorCol(widget.col - n);
      widget.ClampCursor();
    }
  }
}
