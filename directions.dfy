/** The snake's heading and the one-cell step it makes in each direction. */
module Directions {
  import opened Geometry

  /** The four headings; each carries the name the game dispatches on. */
  datatype Direction = Down | Up | Right | Left {
    function Name(): string {
      match this
      case Down => "down"
      case Up => "up"
      case Right => "right"
      case Left => "left"
    }
  }

  /** Reference table of the unit step of each heading: RIGHT and LEFT move
      along rows, DOWN and UP along columns. */
  function RowDelta(d: Direction): int {
    match d
    case Right => 1
    case Left => -1
    case _ => 0
  }

  function ColDelta(d: Direction): int {
    match d
    case Down => 1
    case Up => -1
    case _ => 0
  }

  function Opposite(d: Direction): Direction {
    match d
    case Down => Up
    case Up => Down
    case Right => Left
    case Left => Right
  }

  /** The cell one step from `g` in direction `d`, found by dispatching on the
      direction's name, with every name other than down, up and right meaning
      left. It agrees with the unit-step table. */
  function NextCell(g: Grid, d: Direction): (n: Grid)
    ensures n == Grid(g.row + RowDelta(d), g.col + ColDelta(d))
  {
    var name := d.Name();
    if name == "down" then Grid(g.row, g.col + 1)
    else if name == "up" then Grid(g.row, g.col - 1)
    else if name == "right" then Grid(g.row + 1, g.col)
    else Grid(g.row - 1, g.col)
  }

  /** Two cells that share a side. */
  predicate Adjacent(a: Grid, b: Grid) {
    (a.row == b.row && (a.col - b.col == 1 || b.col - a.col == 1)) ||
    (a.col == b.col && (a.row - b.row == 1 || b.row - a.row == 1))
  }

  lemma NextCellAdjacent(g: Grid, d: Direction)
    ensures Adjacent(g, NextCell(g, d))
    ensures NextCell(g, d) != g
  {
  }

  /** Stepping back in the opposite direction undoes a step. */
  lemma NextCellUndo(g: Grid, d: Direction)
    ensures NextCell(NextCell(g, d), Opposite(d)) == g
  {
  }

  /** Two steps in the same direction never return to the start. */
  lemma NoImmediateReturn(g: Grid, d: Direction)
    ensures NextCell(NextCell(g, d), d) != g
  {
  }

  /** Each neighbour of a cell is reached by exactly one heading. */
  lemma NextCellInjective(g: Grid, d: Direction, e: Direction)
    requires NextCell(g, d) == NextCell(g, e)
    ensures d == e
  {
  }
}
