/**
 * The field the gnomes walk over: a rectangle of cells, each either a rock
 * (impassable) or a passable cell holding a non-negative amount of gold.
 * The solvers only ever read it.
 */
module Grids {

  datatype Cell = Rock | Gold(amount: nat)

  /** Every row has as many columns as the first one. */
  predicate Rectangular(cells: seq<seq<Cell>>) {
    forall r :: 0 <= r < |cells| ==> |cells[r]| == |cells[0]|
  }

  /** A grid, indexed as `g[row][column]`. */
  type Grid = cells: seq<seq<Cell>> | Rectangular(cells) witness []

  function Rows(g: Grid): nat {
    |g|
  }

  function Columns(g: Grid): nat {
    if |g| == 0 then 0 else |g[0]|
  }

  predicate InBounds(g: Grid, r: int, c: int) {
    0 <= r < Rows(g) && 0 <= c < Columns(g)
  }

  /** A gnome may stand on (r, c): it is on the grid and not a rock. */
  predicate Passable(g: Grid, r: int, c: int) {
    InBounds(g, r, c) && !g[r][c].Rock?
  }

  /** Gold collected by visiting (r, c); a rock holds none. */
  function GoldAt(g: Grid, r: int, c: int): nat
    requires InBounds(g, r, c)
  {
    match g[r][c]
    case Rock => 0
    case Gold(n) => n
  }
}
