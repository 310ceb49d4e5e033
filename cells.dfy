/** Value types shared by the screen model and the decoder: code units, bytes,
    styled cells, and the C `int` arithmetic the source relies on. */
module Cells {

  /** A QChar: one UTF-16 code unit. */
  newtype u16 = x: int | 0 <= x < 0x1_0000

  /** One byte of PTY output. */
  newtype byte = x: int | 0 <= x < 0x100

  datatype Option<T> = None | Some(value: T)

  /** TextStyle bits (src/terminalwidget.h:23). */
  const Bold: bv8 := 1
  const Underline: bv8 := 2
  const Inverse: bv8 := 4

  const Space: u16 := 0x20
  const DefaultFg: int := 7
  const DefaultBg: int := 0

  /** One grid position: code unit, foreground and background colour index, style bits. */
  datatype Cell = Cell(ch: u16, fg: int, bg: int, style: bv8)

  /** `Cell{}`: a space, foreground 7, background 0, no style. */
  const DefaultCell: Cell := Cell(Space, DefaultFg, DefaultBg, 0)

  const IntMax: int := 0x7FFF_FFFF
  const IntMin: int := -0x8000_0000

  /** Two's-complement wrap-around of a 32-bit signed `int`. */
  function Wrap32(x: int): (r: int)
    ensures IntMin <= r <= IntMax
    ensures IntMin <= x <= IntMax ==> r == x
    ensures (x - r) % 0x1_0000_0000 == 0
  {
    (x - IntMin) % 0x1_0000_0000 + IntMin
  }

  /** std::clamp(x, lo, hi). */
  function Clamp(x: int, lo: int, hi: int): (r: int)
    requires lo <= hi
    ensures lo <= r <= hi
    ensures lo <= x <= hi ==> r == x
  {
    if x < lo then lo else if x > hi then hi else x
  }

  /** std::max(n, 1). */
  function AtLeastOne(n: int): (r: int)
    ensures r >= 1 && (n >= 1 ==> r == n)
  {
    if n < 1 then 1 else n
  }

  function Min(a: int, b: int): int { if a < b then a else b }
  function Max(a: int, b: int): int { if a < b then b else a }
}
