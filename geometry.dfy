/** Integer geometry of the board: cells, pixel points and the four corners
    of the square quad drawn for a cell. */
module Geometry {

  /** A cell of the board, addressed by row and column; equality is by both fields. */
  datatype Grid = Grid(row: int, col: int)

  /** A pixel position on the window. */
  datatype Point = Point(x: int, y: int)

  /** The corners of a cell's quad: bottom-right, top-right, top-left, bottom-left. */
  datatype Vertices = Vertices(br: Point, tr: Point, tl: Point, bl: Point)

  /** The quad whose bottom-right corner is `bottomRight` and whose side is `side`
      pixels long: an axis-aligned square reaching up and to the left. */
  function MakeVertices(bottomRight: Point, side: int): (v: Vertices)
    ensures v.br == bottomRight
    ensures v.tr.x == v.br.x && v.bl.y == v.br.y
    ensures v.tl.x == v.bl.x && v.tl.y == v.tr.y
    ensures v.br.x - v.bl.x == side && v.br.y - v.tr.y == side
  {
    Vertices(bottomRight,
             Point(bottomRight.x, bottomRight.y - side),
             Point(bottomRight.x - side, bottomRight.y - side),
             Point(bottomRight.x - side, bottomRight.y))
  }

  /** The pixel origin (the bottom-right corner) of cell `g` on a board of
      `side`-pixel cells: one cell further than the cell's top-left pixel. */
  function Origin(side: int, g: Grid): Point
  {
    Point(side * g.row + side, side * g.col + side)
  }

  /** The cell whose origin is `p`: the inverse of `Origin`. */
  function CellAt(side: int, p: Point): Grid
    requires side > 0
  {
    Grid(p.x / side - 1, p.y / side - 1)
  }

  lemma {:induction false} MulAtLeast(a: int, b: int)
    requires a > 0 && b >= 1
    ensures a * b >= a
    decreases b
  {
    if b > 1 {
      MulAtLeast(a, b - 1);
      assert a * b == a * (b - 1) + a;
    }
  }

  /** Dividing an exact multiple of `side` by `side` gives the factor back. */
  lemma DivExact(side: int, k: int)
    requires side > 0
    ensures (side * k) / side == k
  {
    var q := (side * k) / side;
    var r := (side * k) % side;
    assert side * k == side * q + r && 0 <= r < side;
    assert side * (k - q) == side * k - side * q;
    if k - q >= 1 {
      MulAtLeast(side, k - q);
    } else if q - k >= 1 {
      MulAtLeast(side, q - k);
    }
  }

  /** Every cell is recovered from its origin, so distinct cells are drawn at distinct places. */
  lemma OriginRoundTrip(side: int, g: Grid)
    requires side > 0
    ensures CellAt(side, Origin(side, g)) == g
  {
    assert side * g.row + side == side * (g.row + 1);
    assert side * g.col + side == side * (g.col + 1);
    DivExact(side, g.row + 1);
    DivExact(side, g.col + 1);
  }

  lemma OriginInjective(side: int, g: Grid, h: Grid)
    requires side > 0
    requires Origin(side, g) == Origin(side, h)
    ensures g == h
  {
    OriginRoundTrip(side, g);
    OriginRoundTrip(side, h);
  }

  /** The quad of a cell of a `rows` by `cols` board lies inside the
      `side * rows` by `side * cols` pixel window. */
  lemma QuadInsideWindow(side: int, rows: int, cols: int, g: Grid)
    requires side > 0
    requires 0 <= g.row < rows && 0 <= g.col < cols
    ensures var v := MakeVertices(Origin(side, g), side);
      0 <= v.tl.x && v.br.x <= side * rows && 0 <= v.tl.y && v.br.y <= side * cols
  {
    var v := MakeVertices(Origin(side, g), side);
    MulMonotone(side, g.row + 1, rows);
    MulMonotone(side, g.col + 1, cols);
    MulMonotone(side, 0, g.row);
    MulMonotone(side, 0, g.col);
    assert v.tl.x == side * g.row && v.br.x == side * (g.row + 1);
    assert v.tl.y == side * g.col && v.br.y == side * (g.col + 1);
  }

  lemma MulMonotone(a: int, b: int, c: int)
    requires a > 0 && b <= c
    ensures a * b <= a * c
  {
    if b < c {
      MulAtLeast(a, c - b);
      assert a * c - a * b == a * (c - b);
    }
  }

  /** The quads of cells next to each other share an edge: the next cell in
      the row direction continues to the right, the next cell in the column
      direction continues downwards. */
  lemma NeighbourQuadsShareEdge(side: int, g: Grid)
    ensures var here := MakeVertices(Origin(side, g), side);
      var right := MakeVertices(Origin(side, Grid(g.row + 1, g.col)), side);
      var below := MakeVertices(Origin(side, Grid(g.row, g.col + 1)), side);
      right.bl == here.br && right.tl == here.tr &&
      below.tr == here.br && below.tl == here.bl
  {
    assert side * (g.row + 1) == side * g.row + side;
    assert side * (g.col + 1) == side * g.col + side;
  }

  /** Every pixel of the `side * rows` by `side * cols` window lies in the quad
      of an on-board cell, taking each quad to include its top and left edges. */
  lemma QuadsCoverWindow(side: int, rows: int, cols: int, p: Point)
    requires side > 0
    requires 0 <= p.x < side * rows && 0 <= p.y < side * cols
    ensures var g := Grid(p.x / side, p.y / side);
      var v := MakeVertices(Origin(side, g), side);
      0 <= g.row < rows && 0 <= g.col < cols &&
      v.tl.x <= p.x < v.br.x && v.tl.y <= p.y < v.br.y
  {
    CoordinateInCell(side, rows, p.x);
    CoordinateInCell(side, cols, p.y);
  }

  /** One pixel coordinate below `side * n` falls in cell `c / side`, which is
      below `n`. */
  lemma CoordinateInCell(side: int, n: int, c: int)
    requires side > 0 && 0 <= c < side * n
    ensures 0 <= c / side < n && side * (c / side) <= c < side * (c / side) + side
  {
    var q := c / side;
    assert c == side * q + c % side && 0 <= c % side < side;
    if q < 0 {
      MulMonotone(side, q, -1);
    }
    if q >= n {
      MulMonotone(side, n, q);
    }
  }
}
