/** The value of a ScreenBuffer (src/terminalwidget.h:34-51, 185-226): a rows x cols grid of
    cells stored row-major, and the pure operations on it that the screen model uses. */
module Grids {
  import opened Cells

  datatype Grid = Grid(rows: int, cols: int, cells: seq<Cell>)

  /** Both dimensions are at least 1 and there are exactly rows*cols cells. */
  predicate Ok(g: Grid) {
    1 <= g.rows && 1 <= g.cols && |g.cells| == g.rows * g.cols
  }

  lemma MulLe(a: int, b: int, k: int)
    requires a <= b && 0 <= k
    ensures a * k <= b * k
    decreases b - a
  {
    if a < b {
      MulLe(a, b - 1, k);
    }
  }

  /** Row-major addressing stays inside the cell vector. */
  lemma IndexInRange(r: int, c: int, rows: int, cols: int)
    requires 0 <= r < rows && 0 <= c < cols
    ensures 0 <= r * cols <= r * cols + c < rows * cols
    ensures r * cols + cols <= rows * cols
  {
    MulLe(0, r, cols);
    MulLe(r + 1, rows, cols);
  }

  /** Row-major addressing is one-to-one. */
  lemma IndexUnique(r1: int, c1: int, r2: int, c2: int, cols: int)
    requires 0 <= c1 < cols && 0 <= c2 < cols
    requires r1 * cols + c1 == r2 * cols + c2
    ensures r1 == r2 && c1 == c2
  {
    if r1 < r2 {
      MulLe(r1 + 1, r2, cols);
    } else if r2 < r1 {
      MulLe(r2 + 1, r1, cols);
    }
  }

  /** The row-major index of (r, c). */
  function Index(g: Grid, r: int, c: int): (i: int)
    requires Ok(g) && 0 <= r < g.rows && 0 <= c < g.cols
    ensures 0 <= i < |g.cells|
    ensures i == r * g.cols + c
  {
    IndexInRange(r, c, g.rows, g.cols);
    r * g.cols + c
  }

  /** The buffer built by ScreenBuffer(rows, cols) and by resize(rows, cols). */
  function Sized(rows: int, cols: int): (g: Grid)
    ensures Ok(g)
    ensures g.rows == AtLeastOne(rows) && g.cols == AtLeastOne(cols)
    ensures forall i :: 0 <= i < |g.cells| ==> g.cells[i] == DefaultCell
  {
    var r, c := AtLeastOne(rows), AtLeastOne(cols);
    Grid(r, c, seq(r * c, _ => DefaultCell))
  }

  /** `cell(r, c)`. */
  function At(g: Grid, r: int, c: int): Cell
    requires Ok(g) && 0 <= r < g.rows && 0 <= c < g.cols
  {
    g.cells[Index(g, r, c)]
  }

  /** Assignment to `cell(r, c)`. */
  function SetAt(g: Grid, r: int, c: int, x: Cell): (h: Grid)
    requires Ok(g) && 0 <= r < g.rows && 0 <= c < g.cols
    ensures Ok(h) && h.rows == g.rows && h.cols == g.cols
  {
    g.(cells := g.cells[Index(g, r, c) := x])
  }

  /** `fillRow(r, c0, c1, x)`. */
  function FillRow(g: Grid, r: int, c0: int, c1: int, x: Cell): (h: Grid)
    requires Ok(g)
    ensures Ok(h) && h.rows == g.rows && h.cols == g.cols
  {
    if r < 0 || r >= g.rows then g
    else
      var a, b := Clamp(c0, 0, g.cols), Clamp(c1, 0, g.cols);
      var lo, hi := r * g.cols + a, r * g.cols + b;
      g.(cells := seq(|g.cells|, i requires 0 <= i < |g.cells| => if lo <= i < hi then x else g.cells[i]))
  }

  /** fillRow(r, 0, cols, x) for every r in [r0, r1): rows outside the buffer are skipped. */
  function FillRows(g: Grid, r0: int, r1: int, x: Cell): (h: Grid)
    requires Ok(g)
    ensures Ok(h) && h.rows == g.rows && h.cols == g.cols
  {
    var a, b := Clamp(r0, 0, g.rows), Clamp(r1, 0, g.rows);
    var lo, hi := a * g.cols, b * g.cols;
    g.(cells := seq(|g.cells|, i requires 0 <= i < |g.cells| => if lo <= i < hi then x else g.cells[i]))
  }

  /** `fillScreen(buf, x)`: fillRow(r, 0, cols, x) for every row. */
  function FillScreen(g: Grid, x: Cell): (h: Grid)
    requires Ok(g)
    ensures Ok(h) && h.rows == g.rows && h.cols == g.cols
    ensures forall i :: 0 <= i < |h.cells| ==> h.cells[i] == x
  {
    FillRows(g, 0, g.rows, x)
  }

  /** The n rounds of insertChars on row r from column col: cells at col.. shift right by n,
      the n vacated cells become x and cells pushed past the last column are dropped. */
  function InsertInRow(g: Grid, r: int, col: int, n: int, x: Cell): (h: Grid)
    requires Ok(g) && 0 <= r < g.rows && 0 <= col < g.cols && 1 <= n
    ensures Ok(h) && h.rows == g.rows && h.cols == g.cols
  {
    IndexInRange(r, col, g.rows, g.cols);
    var lo, hi := r * g.cols + col, r * g.cols + g.cols;
    g.(cells := seq(|g.cells|, i requires 0 <= i < |g.cells| =>
      if lo <= i < hi then (if lo <= i - n then g.cells[i - n] else x) else g.cells[i]))
  }

  /** The n rounds of deleteChars on row r from column col: cells shift left by n and the
      tail fills with x. A cursor at or past the last column only blanks the last cell. */
  function DeleteInRow(g: Grid, r: int, col: int, n: int, x: Cell): (h: Grid)
    requires Ok(g) && 0 <= r < g.rows && 0 <= col && 1 <= n
    ensures Ok(h) && h.rows == g.rows && h.cols == g.cols
  {
    IndexInRange(r, Min(col, g.cols - 1), g.rows, g.cols);
    var first, lo, hi := r * g.cols + col, r * g.cols + Min(col, g.cols - 1), r * g.cols + g.cols;
    g.(cells := seq(|g.cells|, i requires 0 <= i < |g.cells| =>
      if lo <= i < hi then (if first <= i && i + n < hi then g.cells[i + n] else x) else g.cells[i]))
  }

  /** The main screen after setTerminalSize(rows, cols): the resized buffer with the overlap
      of the old contents copied in and rows beyond the old height set to x. */
  function Resized(prev: Grid, rows: int, cols: int, x: Cell): (h: Grid)
    requires Ok(prev)
    ensures Ok(h) && h.rows == AtLeastOne(rows) && h.cols == AtLeastOne(cols)
  {
    var R, C := AtLeastOne(rows), AtLeastOne(cols);
    var copyRows, copyCols := Min(rows, prev.rows), Min(cols, prev.cols);
    Grid(R, C, seq(R * C, i requires 0 <= i < R * C =>
      var r, c := i / C, i % C;
      if r < copyRows && c < copyCols then At(prev, r, c)
      else if copyRows <= r < rows && c < cols then x
      else DefaultCell))
  }

  /** The copy loops of setTerminalSize once they have reached cell (k, c0) in row-major
      order: the cells (r, c) of prev's extent with r < k and c < n, or r == k and c < c0,
      hold prev's cells; the others keep g's. */
  function Pasted(g: Grid, prev: Grid, k: int, c0: int, n: int): (h: Grid)
    requires Ok(g) && Ok(prev)
    ensures Ok(h) && h.rows == g.rows && h.cols == g.cols
  {
    g.(cells := seq(|g.cells|, i requires 0 <= i < |g.cells| =>
      var r, c := i / g.cols, i % g.cols;
      if r < prev.rows && c < prev.cols && ((r < k && c < n) || (r == k && c < c0)) then At(prev, r, c)
      else g.cells[i]))
  }

  /** The memmove of scrollUp: rows top+1..bottom move up by one; row bottom keeps its cells. */
  function MoveUp(g: Grid, top: int, bottom: int): (h: Grid)
    requires Ok(g) && 0 <= top <= bottom < g.rows
    ensures Ok(h) && h.rows == g.rows && h.cols == g.cols
  {
    IndexInRange(bottom, 0, g.rows, g.cols);
    var lo, hi := top * g.cols, bottom * g.cols;
    g.(cells := seq(|g.cells|, i requires 0 <= i < |g.cells| =>
      if lo <= i < hi then g.cells[i + g.cols] else g.cells[i]))
  }

  /** The memmove of scrollDown: rows top..bottom-1 move down by one; row top keeps its cells. */
  function MoveDown(g: Grid, top: int, bottom: int): (h: Grid)
    requires Ok(g) && 0 <= top <= bottom < g.rows
    ensures Ok(h) && h.rows == g.rows && h.cols == g.cols
  {
    IndexInRange(top, 0, g.rows, g.cols);
    var lo, hi := top * g.cols + g.cols, bottom * g.cols + g.cols;
    g.(cells := seq(|g.cells|, i requires 0 <= i < |g.cells| =>
      if lo <= i < hi then g.cells[i - g.cols] else g.cells[i]))
  }

  /** The cells of row r, as `&cell(r, 0)` exposes them. */
  function Row(g: Grid, r: int): (s: seq<Cell>)
    requires Ok(g) && 0 <= r < g.rows
    ensures |s| == g.cols
    ensures forall c :: 0 <= c < g.cols ==> s[c] == At(g, r, c)
  {
    IndexInRange(r, 0, g.rows, g.cols);
    g.cells[r * g.cols .. r * g.cols + g.cols]
  }

  // ---------------------------------------------------------------------------
  // Properties of the buffer operations, cell by cell.

  /** `cell(r, c)` after an assignment to `cell(r0, c0)`: only that cell changed. */
  lemma {:induction false} SetAtAt(g: Grid, r0: int, c0: int, x: Cell, r: int, c: int)
    requires Ok(g) && 0 <= r0 < g.rows && 0 <= c0 < g.cols
    requires 0 <= r < g.rows && 0 <= c < g.cols
    ensures At(SetAt(g, r0, c0, x), r, c) == if r == r0 && c == c0 then x else At(g, r, c)
  {
    if Index(g, r, c) == Index(g, r0, c0) {
      IndexUnique(r, c, r0, c0, g.cols);
    }
  }

  /** fillRow sets exactly the clamped half-open range [c0, c1) of row r, and changes
      nothing when r is outside the buffer. */
  lemma {:induction false} FillRowAt(g: Grid, r0: int, c0: int, c1: int, x: Cell, r: int, c: int)
    requires Ok(g) && 0 <= r < g.rows && 0 <= c < g.cols
    ensures At(FillRow(g, r0, c0, c1, x), r, c) ==
      if r == r0 && Clamp(c0, 0, g.cols) <= c < Clamp(c1, 0, g.cols) then x else At(g, r, c)
    ensures (r0 < 0 || r0 >= g.rows) ==> FillRow(g, r0, c0, c1, x) == g
  {
    if 0 <= r0 < g.rows && r != r0 {
      var a, b := Clamp(c0, 0, g.cols), Clamp(c1, 0, g.cols);
      var i := Index(g, r, c);
      if r0 * g.cols + a <= i < r0 * g.cols + b {
        IndexUnique(r, c, r0, i - r0 * g.cols, g.cols);
      }
    }
  }

  lemma RowStep(r: int, k: int)
    ensures (r + 1) * k == r * k + k
    ensures (r - 1) * k == r * k - k
  {
  }

  /** The memmove of scrollUp, row by row. */
  lemma {:induction false} MoveUpAt(g: Grid, top: int, bottom: int, r: int, c: int)
    requires Ok(g) && 0 <= top <= bottom < g.rows
    requires 0 <= r < g.rows && 0 <= c < g.cols
    ensures top <= r < bottom ==> r + 1 < g.rows
    ensures At(MoveUp(g, top, bottom), r, c) ==
      if top <= r < bottom then At(g, r + 1, c) else At(g, r, c)
  {
    var k := g.cols;
    var h := MoveUp(g, top, bottom);
    var i := Index(g, r, c);
    assert At(h, r, c) == h.cells[i];
    RowStep(r, k);
    if r < top {
      MulLe(r + 1, top, k);
      assert h.cells[i] == g.cells[i];
    } else if r < bottom {
      MulLe(top, r, k);
      MulLe(r + 1, bottom, k);
      var j := Index(g, r + 1, c);
      assert j == i + k;
      assert h.cells[i] == g.cells[j];
    } else {
      MulLe(bottom, r, k);
      assert h.cells[i] == g.cells[i];
    }
  }

  /** The memmove of scrollDown, row by row. */
  lemma {:induction false} MoveDownAt(g: Grid, top: int, bottom: int, r: int, c: int)
    requires Ok(g) && 0 <= top <= bottom < g.rows
    requires 0 <= r < g.rows && 0 <= c < g.cols
    ensures top < r <= bottom ==> 0 <= r - 1
    ensures At(MoveDown(g, top, bottom), r, c) ==
      if top < r <= bottom then At(g, r - 1, c) else At(g, r, c)
  {
    var k := g.cols;
    var h := MoveDown(g, top, bottom);
    var i := Index(g, r, c);
    assert At(h, r, c) == h.cells[i];
    RowStep(r, k);
    RowStep(top, k);
    RowStep(bottom, k);
    if r <= top {
      MulLe(r + 1, top + 1, k);
      assert h.cells[i] == g.cells[i];
    } else if r <= bottom {
      MulLe(top + 1, r, k);
      MulLe(r + 1, bottom + 1, k);
      var j := Index(g, r - 1, c);
      assert j == i - k;
      assert h.cells[i] == g.cells[j];
    } else {
      MulLe(bottom + 1, r, k);
      assert h.cells[i] == g.cells[i];
    }
  }

  /** fillRow over a range of rows, cell by cell. */
  lemma {:induction false} FillRowsAt(g: Grid, r0: int, r1: int, x: Cell, r: int, c: int)
    requires Ok(g) && 0 <= r < g.rows && 0 <= c < g.cols
    ensures At(FillRows(g, r0, r1, x), r, c) ==
      if Clamp(r0, 0, g.rows) <= r < Clamp(r1, 0, g.rows) then x else At(g, r, c)
  {
    var k := g.cols;
    var a, b := Clamp(r0, 0, g.rows), Clamp(r1, 0, g.rows);
    var h := FillRows(g, r0, r1, x);
    var i := Index(g, r, c);
    assert At(h, r, c) == h.cells[i];
    RowStep(r, k);
    if r < a {
      MulLe(r + 1, a, k);
    } else if r < b {
      MulLe(a, r, k);
      MulLe(r + 1, b, k);
    } else {
      MulLe(b, r, k);
    }
  }

  /** insertChars on one row, cell by cell: the other rows and the columns left of col
      are unchanged. */
  lemma {:induction false} InsertInRowAt(g: Grid, r0: int, col: int, n: int, x: Cell, r: int, c: int)
    requires Ok(g) && 0 <= r0 < g.rows && 0 <= col < g.cols && 1 <= n
    requires 0 <= r < g.rows && 0 <= c < g.cols
    ensures At(InsertInRow(g, r0, col, n, x), r, c) ==
      if r == r0 && col <= c then (if col <= c - n then At(g, r0, c - n) else x) else At(g, r, c)
  {
    var k := g.cols;
    var h := InsertInRow(g, r0, col, n, x);
    var i := Index(g, r, c);
    assert At(h, r, c) == h.cells[i];
    if r == r0 {
      if col <= c - n {
        assert Index(g, r0, c - n) == i - n;
      }
    } else if r0 * k + col <= i < r0 * k + k {
      IndexUnique(r, c, r0, i - r0 * k, k);
    }
  }

  /** deleteChars on one row, cell by cell. */
  lemma {:induction false} DeleteInRowAt(g: Grid, r0: int, col: int, n: int, x: Cell, r: int, c: int)
    requires Ok(g) && 0 <= r0 < g.rows && 0 <= col && 1 <= n
    requires 0 <= r < g.rows && 0 <= c < g.cols
    ensures At(DeleteInRow(g, r0, col, n, x), r, c) ==
      if r == r0 && Min(col, g.cols - 1) <= c then
        (if col <= c && c + n < g.cols then At(g, r0, c + n) else x)
      else At(g, r, c)
  {
    var k := g.cols;
    var h := DeleteInRow(g, r0, col, n, x);
    var i := Index(g, r, c);
    assert At(h, r, c) == h.cells[i];
    if r == r0 {
      if col <= c && c + n < k {
        assert Index(g, r0, c + n) == i + n;
      }
    } else if r0 * k + Min(col, k - 1) <= i < r0 * k + k {
      IndexUnique(r, c, r0, i - r0 * k, k);
    }
  }

  lemma DivModIndex(r: int, c: int, k: int)
    requires 0 <= c < k
    ensures (r * k + c) / k == r && (r * k + c) % k == c
  {
    var i := r * k + c;
    assert i == (i / k) * k + i % k && 0 <= i % k < k;
    IndexUnique(i / k, i % k, r, c, k);
  }

  /** setTerminalSize on the main screen, cell by cell: the overlap of the old and new sizes
      keeps its cells, rows below the old height become x, and columns added to kept rows
      hold the default cell that resize filled them with. */
  lemma {:induction false} ResizedAt(prev: Grid, rows: int, cols: int, x: Cell, r: int, c: int)
    requires Ok(prev)
    requires 0 <= r < AtLeastOne(rows) && 0 <= c < AtLeastOne(cols)
    ensures At(Resized(prev, rows, cols, x), r, c) ==
      if r < prev.rows && r < rows && c < prev.cols && c < cols then At(prev, r, c)
      else if prev.rows <= r < rows && c < cols then x
      else DefaultCell
  {
    var h := Resized(prev, rows, cols, x);
    var i := Index(h, r, c);
    DivModIndex(r, c, h.cols);
    assert At(h, r, c) == h.cells[i];
  }

  /** The copy loops of setTerminalSize, cell by cell. */
  lemma {:induction false} PastedAt(g: Grid, prev: Grid, k: int, c0: int, n: int, r: int, c: int)
    requires Ok(g) && Ok(prev) && 0 <= r < g.rows && 0 <= c < g.cols
    ensures At(Pasted(g, prev, k, c0, n), r, c) ==
      if r < prev.rows && c < prev.cols && ((r < k && c < n) || (r == k && c < c0)) then At(prev, r, c)
      else At(g, r, c)
  {
    var h := Pasted(g, prev, k, c0, n);
    var i := Index(g, r, c);
    DivModIndex(r, c, g.cols);
    assert At(h, r, c) == h.cells[i];
  }
}
