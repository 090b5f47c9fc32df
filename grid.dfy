/** Cells of the square playing field and the shape invariant of the snake's body. */
module Grid {

  /** One tile of the board; the source keeps it as an object `{x, y}`. */
  datatype Cell = Cell(x: int, y: int)

  /** The cell lies on a board of `tileCount` by `tileCount` tiles. */
  predicate InGrid(c: Cell, tileCount: int) {
    0 <= c.x < tileCount && 0 <= c.y < tileCount
  }

  /** No cell occurs twice in `body`. */
  predicate Distinct(body: seq<Cell>) {
    forall i, j :: 0 <= i < j < |body| ==> body[i] != body[j]
  }

  /** The shape every snake keeps: head first, never empty, on the board, never crossing itself. */
  predicate WellFormed(body: seq<Cell>, tileCount: int) {
    && |body| >= 1
    && (forall i :: 0 <= i < |body| ==> InGrid(body[i], tileCount))
    && Distinct(body)
  }
}
