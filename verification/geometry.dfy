/** Grid geometry of the snake board: the cell size, the tick rate, cells,
    directions and the one-cell step that every movement is made of.
    Coordinates are pixels; a cell is grid-aligned when both coordinates are
    multiples of SIZE. */
module Geometry {

  /** Side of one cell, in pixels. */
  const SIZE: int := 20

  /** Game speed, in ticks per second. */
  const SPEED: int := 5

  /** Minimum time between two processed ticks, in milliseconds
      (1000 / SPEED; the division is exact for SPEED = 5). */
  const TICK_INTERVAL: int := 1000 / SPEED

  /** A position on the board, in pixels. */
  datatype Cell = Cell(x: int, y: int)

  datatype Direction = Up | Down | Left | Right

  /** The rendering surface's size in pixels. */
  datatype Board = Board(width: int, height: int)

  /** The direction that undoes `d`. */
  function Opposite(d: Direction): (r: Direction)
    ensures r != d
    ensures Horizontal(r) == Horizontal(d)
  {
    match d
    case Up => Down
    case Down => Up
    case Left => Right
    case Right => Left
  }

  /** Taking the opposite twice gives the direction back. */
  lemma OppositeInvolutive(d: Direction)
    ensures Opposite(Opposite(d)) == d
  {
  }

  /** Horizontal directions change x only, vertical ones y only. */
  predicate Horizontal(d: Direction)
  {
    d == Left || d == Right
  }

  /** The cell one SIZE step away from `c` in direction `d`. */
  function Step(c: Cell, d: Direction): (r: Cell)
    ensures Horizontal(d) ==> r.y == c.y && (r.x - c.x == SIZE || c.x - r.x == SIZE)
    ensures !Horizontal(d) ==> r.x == c.x && (r.y - c.y == SIZE || c.y - r.y == SIZE)
    ensures (d == Right || d == Down) <==> r.x + r.y > c.x + c.y
    ensures r != c
  {
    match d
    case Right => Cell(c.x + SIZE, c.y)
    case Left => Cell(c.x - SIZE, c.y)
    case Up => Cell(c.x, c.y - SIZE)
    case Down => Cell(c.x, c.y + SIZE)
  }

  /** Stepping forward and then back returns to the start, and two opposite
      steps are the only way two steps cancel out. */
  lemma StepInverse(c: Cell, d: Direction, e: Direction)
    ensures Step(Step(c, d), e) == c <==> e == Opposite(d)
  {
  }

  predicate Aligned(c: Cell)
  {
    c.x % SIZE == 0 && c.y % SIZE == 0
  }

  predicate InBounds(c: Cell, b: Board)
  {
    0 <= c.x < b.width && 0 <= c.y < b.height
  }

  /** A step keeps a grid-aligned cell grid-aligned. */
  lemma StepAligned(c: Cell, d: Direction)
    requires Aligned(c)
    ensures Aligned(Step(c, d))
  {
  }
}
