/** ScreenBuffer (src/terminalwidget.h:34-51, 185-226): a rows x cols grid of cells held
    row-major in one array. Its value is a Grids.Grid. */
module Buffers {
  import opened Cells
  import opened Grids
  import opened GridLoops

  class ScreenBuffer {
    var rows: int
    var cols: int
    var data: array<Cell>

    ghost predicate Valid()
      reads this, data
    {
      1 <= rows && 1 <= cols && data.Length == rows * cols
    }

    /** The grid this buffer holds. */
    function Model(): (g: Grid)
      reads this, data
      ensures Valid() ==> Ok(g)
    {
      Grid(rows, cols, data[..])
    }

    /** ScreenBuffer(rows, cols): both dimensions at least 1, every cell the default. */
    constructor (r: int, c: int)
      ensures Valid() && fresh(data) && Model() == Sized(r, c)
    {
      rows := AtLeastOne(r);
      cols := AtLeastOne(c);
      new;
      data := new Cell[rows * cols](_ => DefaultCell);
      assert data[..] == Sized(r, c).cells;
    }

    /** resize(rows, cols): a fresh default-filled vector of the new size; nothing is kept. */
    method Resize(r: int, c: int)
      modifies this
      ensures Valid() && fresh(data) && Model() == Sized(r, c)
    {
      rows := AtLeastOne(r);
      cols := AtLeastOne(c);
      data := new Cell[rows * cols](_ => DefaultCell);
      assert data[..] == Sized(r, c).cells;
    }

    /** cell(r, c), read. */
    method Get(r: int, c: int) returns (x: Cell)
      requires Valid() && 0 <= r < rows && 0 <= c < cols
      ensures x == At(Model(), r, c)
    {
      IndexInRange(r, c, rows, cols);
      x := data[r * cols + c];
    }

    /** cell(r, c) = x. */
    method Set(r: int, c: int, x: Cell)
      requires Valid() && 0 <= r < rows && 0 <= c < cols
      modifies data
      ensures Valid() && Model() == SetAt(old(Model()), r, c, x)
    {
      IndexInRange(r, c, rows, cols);
      data[r * cols + c] := x;
    }

    /** fillRow(r, c0, c1, x). */
    method FillRow(r: int, c0: int, c1: int, x: Cell)
      requires Valid()
      modifies data
      ensures Valid() && Model() == Grids.FillRow(old(Model()), r, c0, c1, x)
    {
      if r < 0 || r >= rows {
        return;
      }
      var a, b := Clamp(c0, 0, cols), Clamp(c1, 0, cols);
      ghost var g := Model();
      if b <= a {
        FillRowEmpty(g, r, a, b, x);
        assert Grids.FillRow(g, r, c0, c1, x) == Grids.FillRow(g, r, a, b, x);
        return;
      }
      var col := a;
      FillRowEmpty(g, r, a, a, x);
      while col < b
        invariant a <= col <= b
        invariant Valid()
        invariant Model() == Grids.FillRow(g, r, a, col, x)
      {
        FillRowSnoc(g, r, a, col, x);
        Set(r, col, x);
        col := col + 1;
      }
      assert Grids.FillRow(g, r, c0, c1, x) == Grids.FillRow(g, r, a, b, x);
    }

    /** fillRow(r, 0, cols, x) for r from r0 up to r1: the row loops of eraseInDisplay and
        fillScreen. */
    method FillRows(r0: int, r1: int, x: Cell)
      requires Valid() && 0 <= r0
      modifies data
      ensures Valid() && Model() == Grids.FillRows(old(Model()), r0, r1, x)
    {
      ghost var g := Model();
      FillRowsEmpty(g, r0, r0, x);
      var r := r0;
      while r < r1
        invariant r0 <= r && (r <= r1 || r == r0)
        invariant Valid() && Model() == Grids.FillRows(g, r0, r, x)
      {
        FillRowsStep(g, r0, r, x);
        FillRow(r, 0, cols, x);
        r := r + 1;
      }
      if r1 < r0 {
        FillRowsEmpty(g, r0, r1, x);
      }
    }

    /** The memmove of scrollUp: rows top+1..bottom move up one row. */
    method MoveRowsUp(top: int, bottom: int)
      requires Valid() && 0 <= top <= bottom < rows
      modifies data
      ensures Valid() && Model() == MoveUp(old(Model()), top, bottom)
    {
      ghost var g := Model();
      IndexInRange(bottom, 0, rows, cols);
      var lo, hi := top * cols, bottom * cols;
      CopyForward(lo, hi, cols, g.cells);
      ghost var h := MoveUp(g, top, bottom);
      forall j | 0 <= j < data.Length
        ensures data[j] == h.cells[j]
      {
        MoveUpCell(g, top, bottom, j);
      }
      assert data[..] == h.cells;
    }

    /** The memmove of scrollDown: rows top..bottom-1 move down one row, last first. */
    method MoveRowsDown(top: int, bottom: int)
      requires Valid() && 0 <= top <= bottom < rows
      modifies data
      ensures Valid() && Model() == MoveDown(old(Model()), top, bottom)
    {
      ghost var g := Model();
      IndexInRange(top, 0, rows, cols);
      IndexInRange(bottom, 0, rows, cols);
      var lo, hi := top * cols + cols, bottom * cols + cols;
      CopyBackward(lo, hi, cols, g.cells);
      ghost var h := MoveDown(g, top, bottom);
      forall j | 0 <= j < data.Length
        ensures data[j] == h.cells[j]
      {
        MoveDownCell(g, top, bottom, j);
      }
      assert data[..] == h.cells;
    }

    /** The buffer half of scrollUp for a non-empty region: copy out row top, move the rows
        below it up one row, blank row bottom. */
    method ScrollRegionUp(top: int, bottom: int, x: Cell) returns (first: seq<Cell>)
      requires Valid() && 0 <= top <= bottom < rows
      modifies data
      ensures Valid() && first == Row(old(Model()), top)
      ensures Model() == Grids.FillRow(if top < bottom then MoveUp(old(Model()), top, bottom) else old(Model()),
                                       bottom, 0, cols, x)
    {
      IndexInRange(top, 0, rows, cols);
      first := data[top * cols .. top * cols + cols];
      if top < bottom {
        MoveRowsUp(top, bottom);
      }
      FillRow(bottom, 0, cols, x);
    }

    /** The buffer half of scrollDown for a non-empty region. */
    method ScrollRegionDown(top: int, bottom: int, x: Cell)
      requires Valid() && 0 <= top <= bottom < rows
      modifies data
      ensures Valid()
      ensures Model() == Grids.FillRow(if top < bottom then MoveDown(old(Model()), top, bottom) else old(Model()),
                                       top, 0, cols, x)
    {
      if top < bottom {
        MoveRowsDown(top, bottom);
      }
      FillRow(top, 0, cols, x);
    }

    /** One round of insertChars(n) on row r: cells col..cols-2 move right one column, last
        first, and cell col takes x. */
    method InsertOne(r: int, col: int, x: Cell)
      requires Valid() && 0 <= r < rows && 0 <= col < cols
      modifies data
      ensures Valid() && Model() == InsertInRow(old(Model()), r, col, 1, x)
    {
      ghost var g := Model();
      IndexInRange(r, col, rows, cols);
      var lo, hi := r * cols + col, r * cols + cols;
      CopyBackward(lo + 1, hi, 1, g.cells);
      data[lo] := x;
      ghost var h := InsertInRow(g, r, col, 1, x);
      forall j | 0 <= j < data.Length
        ensures data[j] == h.cells[j]
      {
        InsertOneCell(g, r, col, x, j);
      }
      assert data[..] == h.cells;
    }

    /** One round of deleteChars(n) on row r: cells col+1..cols-1 move left one column, first
        first, and the last cell takes x. */
    method DeleteOne(r: int, col: int, x: Cell)
      requires Valid() && 0 <= r < rows && 0 <= col
      modifies data
      ensures Valid() && Model() == DeleteInRow(old(Model()), r, col, 1, x)
    {
      ghost var g := Model();
      IndexInRange(r, Min(col, cols - 1), rows, cols);
      var first, hi := r * cols + col, r * cols + cols;
      if first < hi - 1 {
        CopyForward(first, hi - 1, 1, g.cells);
      }
      data[hi - 1] := x;
      ghost var h := DeleteInRow(g, r, col, 1, x);
      forall j | 0 <= j < data.Length
        ensures data[j] == h.cells[j]
      {
        DeleteOneCell(g, r, col, x, j);
      }
      assert data[..] == h.cells;
    }

    /** memmove towards the front: cell i takes cell i + k for lo <= i < hi, first to last. */
    method CopyForward(lo: int, hi: int, k: int, ghost src: seq<Cell>)
      requires data[..] == src && 0 <= lo <= hi && 0 <= k && hi + k <= |src|
      modifies data
      ensures forall j {:trigger data[j]} :: 0 <= j < data.Length ==>
        data[j] == if lo <= j < hi then src[j + k] else src[j]
    {
      var i := lo;
      while i < hi
        invariant lo <= i <= hi && data.Length == |src|
        invariant forall j {:trigger data[j]} :: 0 <= j < data.Length ==>
          data[j] == if lo <= j < i then src[j + k] else src[j]
      {
        assert data[i + k] == src[i + k];
        data[i] := data[i + k];
        i := i + 1;
      }
    }

    /** memmove towards the back: cell i takes cell i - k for lo <= i < hi, last to first. */
    method CopyBackward(lo: int, hi: int, k: int, ghost src: seq<Cell>)
      requires data[..] == src && 0 <= k <= lo && hi <= |src|
      modifies data
      ensures forall j {:trigger data[j]} :: 0 <= j < data.Length ==>
        data[j] == if lo <= j < hi then src[j - k] else src[j]
    {
      var i := Max(hi, lo);
      while i > lo
        invariant lo <= i <= Max(hi, lo) && data.Length == |src|
        invariant forall j {:trigger data[j]} :: 0 <= j < data.Length ==>
          data[j] == if i <= j < hi then src[j - k] else src[j]
      {
        i := i - 1;
        assert data[i - k] == src[i - k];
        data[i] := data[i - k];
      }
    }
  }
}
