/** Facts about the buffer operations of module Grids that the loops of the imperative
    model build up one step at a time: a fill one cell or one row longer, one more round of
    a character shift, and equality of grids cell by cell. */
module GridLoops {
  import opened Cells
  import opened Grids

  /** Two grids of the same shape with the same cells are equal. */
  lemma GridExt(g: Grid, h: Grid)
    requires Ok(g) && Ok(h) && g.rows == h.rows && g.cols == h.cols
    requires forall r, c :: 0 <= r < g.rows && 0 <= c < g.cols ==> At(g, r, c) == At(h, r, c)
    ensures g == h
  {
    forall i | 0 <= i < |g.cells|
      ensures g.cells[i] == h.cells[i]
    {
      var r, c := i / g.cols, i % g.cols;
      assert i == r * g.cols + c;
      assert 0 <= r < g.rows by {
        if r >= g.rows {
          MulLe(g.rows, r, g.cols);
        }
      }
      assert Index(g, r, c) == i && Index(h, r, c) == i;
      assert At(g, r, c) == At(h, r, c);
    }
  }

  /** A fill that reaches column c, followed by writing cell c, is the fill through c. */
  lemma FillRowSnoc(g: Grid, r: int, a: int, c: int, x: Cell)
    requires Ok(g) && 0 <= r < g.rows && 0 <= a <= c < g.cols
    ensures Ok(FillRow(g, r, a, c, x))
    ensures SetAt(FillRow(g, r, a, c, x), r, c, x) == FillRow(g, r, a, c + 1, x)
  {
    var h := FillRow(g, r, a, c, x);
    assert Index(h, r, c) == r * g.cols + c;
  }

  /** A fill whose end is not past its start changes nothing. */
  lemma FillRowEmpty(g: Grid, r: int, a: int, b: int, x: Cell)
    requires Ok(g) && b <= a
    ensures FillRow(g, r, a, b, x) == g
  {
  }

  /** Ends that clamp to the same column give the same fill. */
  lemma FillRowSameEnd(g: Grid, r: int, a: int, b1: int, b2: int, x: Cell)
    requires Ok(g) && Clamp(b1, 0, g.cols) == Clamp(b2, 0, g.cols)
    ensures FillRow(g, r, a, b1, x) == FillRow(g, r, a, b2, x)
  {
  }

  /** Filling one more whole row extends a fill over a range of rows. */
  lemma FillRowsStep(g: Grid, a: int, r: int, x: Cell)
    requires Ok(g) && 0 <= a <= r
    ensures Ok(FillRows(g, a, r, x))
    ensures FillRow(FillRows(g, a, r, x), r, 0, g.cols, x) == FillRows(g, a, r + 1, x)
  {
    var h := FillRows(g, a, r, x);
    if r < g.rows {
      RowStep(r, g.cols);
      MulLe(a, r, g.cols);
      assert FillRow(h, r, 0, g.cols, x).cells == FillRows(g, a, r + 1, x).cells;
    }
  }

  /** An empty range of rows changes nothing. */
  lemma FillRowsEmpty(g: Grid, a: int, b: int, x: Cell)
    requires Ok(g) && b <= a
    ensures FillRows(g, a, b, x) == g
  {
    if Clamp(a, 0, g.rows) > Clamp(b, 0, g.rows) {
    } else {
      assert Clamp(a, 0, g.rows) * g.cols == Clamp(b, 0, g.rows) * g.cols;
    }
  }

  /** One more round of insertChars: the shift by k followed by a shift by one is the shift
      by k + 1. */
  lemma InsertCompose(g: Grid, r: int, col: int, k: int, x: Cell)
    requires Ok(g) && 0 <= r < g.rows && 0 <= col < g.cols && 1 <= k
    ensures Ok(InsertInRow(g, r, col, k, x))
    ensures InsertInRow(InsertInRow(g, r, col, k, x), r, col, 1, x) == InsertInRow(g, r, col, k + 1, x)
  {
    IndexInRange(r, col, g.rows, g.cols);
  }

  /** One more round of deleteChars. */
  lemma DeleteCompose(g: Grid, r: int, col: int, k: int, x: Cell)
    requires Ok(g) && 0 <= r < g.rows && 0 <= col && 1 <= k
    ensures Ok(DeleteInRow(g, r, col, k, x))
    ensures DeleteInRow(DeleteInRow(g, r, col, k, x), r, col, 1, x) == DeleteInRow(g, r, col, k + 1, x)
  {
    IndexInRange(r, Min(col, g.cols - 1), g.rows, g.cols);
  }

  // ---------------------------------------------------------------------------
  // The cells of the in-place moves, index by index, as the memmove loops write them

  lemma MoveUpCell(g: Grid, top: int, bottom: int, j: int)
    requires Ok(g) && 0 <= top <= bottom < g.rows && 0 <= j < |g.cells|
    ensures var h, lo, hi := MoveUp(g, top, bottom), top * g.cols, bottom * g.cols;
      |h.cells| == |g.cells| &&
      (lo <= j < hi ==> j + g.cols < |g.cells| && h.cells[j] == g.cells[j + g.cols]) &&
      (!(lo <= j < hi) ==> h.cells[j] == g.cells[j])
  {
    IndexInRange(bottom, 0, g.rows, g.cols);
  }

  lemma MoveDownCell(g: Grid, top: int, bottom: int, j: int)
    requires Ok(g) && 0 <= top <= bottom < g.rows && 0 <= j < |g.cells|
    ensures var h, lo, hi := MoveDown(g, top, bottom), top * g.cols + g.cols, bottom * g.cols + g.cols;
      |h.cells| == |g.cells| &&
      (lo <= j < hi ==> 0 <= j - g.cols && h.cells[j] == g.cells[j - g.cols]) &&
      (!(lo <= j < hi) ==> h.cells[j] == g.cells[j])
  {
    IndexInRange(top, 0, g.rows, g.cols);
  }

  lemma InsertOneCell(g: Grid, r: int, col: int, x: Cell, j: int)
    requires Ok(g) && 0 <= r < g.rows && 0 <= col < g.cols && 0 <= j < |g.cells|
    ensures var h, lo, hi := InsertInRow(g, r, col, 1, x), r * g.cols + col, r * g.cols + g.cols;
      |h.cells| == |g.cells| &&
      (lo < j < hi ==> h.cells[j] == g.cells[j - 1]) &&
      (j == lo ==> h.cells[j] == x) &&
      (!(lo <= j < hi) ==> h.cells[j] == g.cells[j])
  {
    IndexInRange(r, col, g.rows, g.cols);
  }

  lemma DeleteOneCell(g: Grid, r: int, col: int, x: Cell, j: int)
    requires Ok(g) && 0 <= r < g.rows && 0 <= col && 0 <= j < |g.cells|
    ensures var h, first, lo, hi := DeleteInRow(g, r, col, 1, x), r * g.cols + col,
                                    r * g.cols + Min(col, g.cols - 1), r * g.cols + g.cols;
      |h.cells| == |g.cells| && lo <= hi <= |g.cells| &&
      (first <= j && j + 1 < hi ==> h.cells[j] == g.cells[j + 1]) &&
      (lo <= j < hi && !(first <= j && j + 1 < hi) ==> h.cells[j] == x) &&
      (!(lo <= j < hi) ==> h.cells[j] == g.cells[j])
  {
    IndexInRange(r, Min(col, g.cols - 1), g.rows, g.cols);
  }

  // ---------------------------------------------------------------------------
  // The copy loops of setTerminalSize

  /** Before the first cell nothing is copied. */
  lemma PasteNone(g: Grid, prev: Grid, k: int, c0: int, n: int)
    requires Ok(g) && Ok(prev) && k <= 0 && (k == 0 ==> c0 <= 0)
    ensures Pasted(g, prev, k, c0, n) == g
  {
    var h := Pasted(g, prev, k, c0, n);
    forall r, c | 0 <= r < g.rows && 0 <= c < g.cols
      ensures At(h, r, c) == At(g, r, c)
    {
      PastedAt(g, prev, k, c0, n, r, c);
    }
    GridExt(h, g);
  }

  /** Copying cell (k, c0) of prev moves the copy one cell on. */
  lemma PasteCell(g: Grid, prev: Grid, k: int, c0: int, n: int)
    requires Ok(g) && Ok(prev) && 0 <= k < prev.rows && k < g.rows
    requires 0 <= c0 < n && n <= prev.cols && n <= g.cols
    ensures SetAt(Pasted(g, prev, k, c0, n), k, c0, At(prev, k, c0)) == Pasted(g, prev, k, c0 + 1, n)
  {
    var h0 := Pasted(g, prev, k, c0, n);
    var h := SetAt(h0, k, c0, At(prev, k, c0));
    var h1 := Pasted(g, prev, k, c0 + 1, n);
    forall r, c | 0 <= r < g.rows && 0 <= c < g.cols
      ensures At(h, r, c) == At(h1, r, c)
    {
      SetAtAt(h0, k, c0, At(prev, k, c0), r, c);
      PastedAt(g, prev, k, c0, n, r, c);
      PastedAt(g, prev, k, c0 + 1, n, r, c);
    }
    GridExt(h, h1);
  }

  /** A finished row is the start of the next one. */
  lemma PasteRowDone(g: Grid, prev: Grid, k: int, n: int)
    requires Ok(g) && Ok(prev)
    ensures Pasted(g, prev, k, Max(n, 0), n) == Pasted(g, prev, k + 1, 0, n)
  {
    var h0 := Pasted(g, prev, k, Max(n, 0), n);
    var h1 := Pasted(g, prev, k + 1, 0, n);
    forall r, c | 0 <= r < g.rows && 0 <= c < g.cols
      ensures At(h0, r, c) == At(h1, r, c)
    {
      PastedAt(g, prev, k, Max(n, 0), n, r, c);
      PastedAt(g, prev, k + 1, 0, n, r, c);
    }
    GridExt(h0, h1);
  }

  /** The main screen setTerminalSize builds: resize, copy the overlap over copyRows rows and
      copyCols columns, then blank rows copyRows..rows-1 over the requested columns, which is
      nothing when fewer than one column is requested. */
  lemma ResizedBuilt(prev: Grid, rows: int, cols: int, x: Cell)
    requires Ok(prev)
    ensures var p := Pasted(Sized(rows, cols), prev, Min(rows, prev.rows), 0, Min(cols, prev.cols));
      Resized(prev, rows, cols, x) == if cols >= 1 then FillRows(p, Min(rows, prev.rows), rows, x) else p
  {
    var copyRows, copyCols := Min(rows, prev.rows), Min(cols, prev.cols);
    var g := Sized(rows, cols);
    var p := Pasted(g, prev, copyRows, 0, copyCols);
    var h := Resized(prev, rows, cols, x);
    var b := if cols >= 1 then FillRows(p, copyRows, rows, x) else p;
    forall r, c | 0 <= r < g.rows && 0 <= c < g.cols
      ensures At(h, r, c) == At(b, r, c)
    {
      ResizedAt(prev, rows, cols, x, r, c);
      PastedAt(g, prev, copyRows, 0, copyCols, r, c);
      if cols >= 1 {
        FillRowsAt(p, copyRows, rows, x, r, c);
      }
      assert At(g, r, c) == DefaultCell by {
        assert g.cells[Index(g, r, c)] == DefaultCell;
      }
    }
    GridExt(h, b);
  }
}
