/** Grid geometry of the snake field: integer cell positions and the column and
    row counts derived from the canvas size. */
module Grid {

  /** Side of one grid cell in canvas pixels. */
  const CellSize: nat := 25

  /** A cell position; the head may transiently lie outside the field. */
  datatype Pos = Pos(x: int, y: int)

  /** Number of whole cells that fit along a canvas side of `pixels` pixels (a
      floor division); the column count for the width, the row count for the
      height. */
  function Cells(pixels: nat): (n: nat)
    ensures n * CellSize <= pixels < (n + 1) * CellSize
  {
    pixels / CellSize
  }

  /** The head is inside the field: neither below 0 nor above cols - 1 / rows - 1. */
  predicate InBounds(p: Pos, cols: nat, rows: nat) {
    0 <= p.x <= cols - 1 && 0 <= p.y <= rows - 1
  }

  /** A position `floor(random() * cols)`, `floor(random() * rows)` can take for a
      random number in [0, 1): 0 .. cols - 1, or exactly 0 on a zero-extent axis. */
  predicate Spawnable(p: Pos, cols: nat, rows: nat) {
    0 <= p.x < (if cols == 0 then 1 else cols) &&
    0 <= p.y < (if rows == 0 then 1 else rows)
  }

  /** A freshly placed apple lies inside a non-degenerate field; on a field with no
      columns or no rows, no position at all is inside. */
  lemma SpawnableInBounds(p: Pos, cols: nat, rows: nat)
    requires Spawnable(p, cols, rows)
    ensures InBounds(p, cols, rows) <==> cols > 0 && rows > 0
  {
  }
}
