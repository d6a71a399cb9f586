/** The game-state engine as values: one snapshot of the snake and the board,
    and the effect of each operation on a snapshot. The classes in module Game
    are specified by these functions, and the lemmas in EngineProofs are about
    them. */
module Engine {
  import opened Geometry
  import opened Directions
  import opened Seqs

  /** The capacity of the pool of objectives. */
  const MaxObjectives: int := 10

  /** The target length a new snake starts with; the score is measured from it. */
  const InitialLength: int := 5

  /** The visual role of a board cell. */
  datatype ElementType = DefaultColor | SnakeHead | SnakeTail | Objective | DeadHead

  /** What the board keeps for an occupied cell: its role, the pixel origin of
      its quad and the quad's side. The colour only matters for drawing. */
  datatype GridElement = GridElement(kind: ElementType, origin: Point, sidePx: int) {
    function Corners(): Vertices {
      MakeVertices(origin, sidePx)
    }
  }

  /** Board dimensions in cells and the side of a cell in pixels. */
  datatype Config = Config(rows: int, cols: int, sidePx: int)

  /** The snake: alive flag, head cell, heading, target length and the body,
      tail first and head last. */
  datatype SnakeState = SnakeState(alive: bool, head: Grid, heading: Direction, length: int, body: seq<Grid>)

  /** The snake together with the board's map of occupied cells and its
      objectives in spawn order. */
  datatype Board = Board(snake: SnakeState, cells: map<Grid, GridElement>, objectives: seq<Grid>)

  /** Which wall test a tick applies: the program's, whose second test
      compares the row with the column count, or the intended one. */
  datatype WallRule = AsWritten | Intended

  function NewSnake(start: Grid, heading: Direction): SnakeState {
    SnakeState(true, start, heading, InitialLength, [start])
  }

  function NewBoard(snake: SnakeState): Board {
    Board(snake, map[], [])
  }

  /** The element the board stores for cell `g` with role `kind`. */
  function Element(cfg: Config, kind: ElementType, g: Grid): GridElement {
    GridElement(kind, Origin(cfg.sidePx, g), cfg.sidePx)
  }

  predicate InBounds(cfg: Config, g: Grid) {
    0 <= g.row < cfg.rows && 0 <= g.col < cfg.cols
  }

  /** The wall test of a tick; a cell that fails it is fatal. */
  predicate PassesWallCheck(cfg: Config, g: Grid, rule: WallRule) {
    match rule
    case AsWritten => (0 <= g.row && g.row < cfg.rows) && (0 <= g.col && g.row < cfg.cols)
    case Intended => InBounds(cfg, g)
  }

  // ---------------------------------------------------------------- snake

  /** A heading change: ignored when the snake is dead, and, when the body has
      more than one cell, ignored when the new heading points into the neck
      (the cell just behind the head). */
  function Turn(s: SnakeState, d: Direction): SnakeState
  {
    if !s.alive then s
    else if |s.body| > 1 then
      if NextCell(s.head, d) != s.body[|s.body| - 2] then s.(heading := d) else s
    else s.(heading := d)
  }

  // ------------------------------------------------------------------ tick

  /** The cell the snake would enter on the next tick. */
  function Candidate(b: Board): Grid {
    NextCell(b.snake.head, b.snake.heading)
  }

  /** Whether the next tick is a successful move. */
  predicate TickOk(cfg: Config, b: Board, rule: WallRule) {
    PassesWallCheck(cfg, Candidate(b), rule) && Candidate(b) !in b.snake.body
  }

  /** One tick. On a wall or self collision only the alive flag changes.
      Otherwise the candidate is marked head, the old head is remarked tail,
      the candidate is appended to the body and becomes the head; when the
      body then reaches the target length its oldest cell leaves both the
      body and the map; an objective at the candidate is consumed and the
      target length grows by one. */
  function Tick(cfg: Config, b: Board, rule: WallRule): Board
    requires |b.snake.body| > 0
  {
    if !TickOk(cfg, b, rule) then b.(snake := b.snake.(alive := false))
    else Advance(cfg, b)
  }

  /** The successful move of a tick. */
  function Advance(cfg: Config, b: Board): Board
  {
    var s := b.snake;
    var next := Candidate(b);
    var marked := b.cells[next := Element(cfg, SnakeHead, next)][s.head := Element(cfg, SnakeTail, s.head)];
    var grown := s.body + [next];
    var cells := if |grown| == s.length then marked - {grown[0]} else marked;
    var body := if |grown| == s.length then grown[1..] else grown;
    var ate := next in b.objectives;
    Board(SnakeState(s.alive, next, s.heading, if ate then s.length + 1 else s.length, body),
          cells,
          if ate then RemoveFirst(b.objectives, next) else b.objectives)
  }

  // ------------------------------------------------------------ objectives

  /** A cell that is neither an objective nor part of the body. */
  predicate Free(b: Board, g: Grid) {
    g !in b.objectives && g !in b.snake.body
  }

  predicate HasFree(b: Board, draws: seq<Grid>) {
    exists i :: 0 <= i < |draws| && Free(b, draws[i])
  }

  /** Rejection sampling over a sequence of random draws: the first free draw. */
  function Sample(b: Board, draws: seq<Grid>): (g: Grid)
    requires HasFree(b, draws)
    ensures Free(b, g)
    ensures exists i :: 0 <= i < |draws| && draws[i] == g && forall j :: 0 <= j < i ==> !Free(b, draws[j])
    decreases |draws|
  {
    if Free(b, draws[0]) then
      draws[0]
    else
      var i :| 0 <= i < |draws| && Free(b, draws[i]);
      assert 0 <= i - 1 < |draws[1..]| && Free(b, draws[1..][i - 1]);
      var g := Sample(b, draws[1..]);
      ghost var k :| 0 <= k < |draws[1..]| && draws[1..][k] == g && forall j :: 0 <= j < k ==> !Free(b, draws[1..][j]);
      assert draws[k + 1] == g && forall j :: 0 <= j < k + 1 ==> !Free(b, draws[j]) by {
        forall j | 0 <= j < k + 1 ensures !Free(b, draws[j]) {
          if j > 0 { assert draws[j] == draws[1..][j - 1]; }
        }
      }
      g
  }

  /** When the pool is full, the oldest objective leaves the list and the map. */
  function Evict(b: Board): Board {
    if |b.objectives| == MaxObjectives then
      Board(b.snake, b.cells - {b.objectives[0]}, b.objectives[1..])
    else b
  }

  /** A new objective: after any eviction, `g` is appended to the pool and
      marked on the board. */
  function Spawn(cfg: Config, b: Board, g: Grid): Board {
    var e := Evict(b);
    Board(e.snake, e.cells[g := Element(cfg, Objective, g)], e.objectives + [g])
  }

  // ------------------------------------------------------------- game over

  /** The final frame: the last body cell is marked as a dead head. */
  function MarkDead(cfg: Config, b: Board): Board
    requires |b.snake.body| > 0
  {
    var last := b.snake.body[|b.snake.body| - 1];
    b.(cells := b.cells[last := Element(cfg, DeadHead, last)])
  }

  /** The final score: objectives consumed beyond the initial length. */
  function Score(s: SnakeState): int {
    s.length - InitialLength
  }

  /** Clearing the board empties the map of occupied cells. */
  function Clear(b: Board): Board {
    b.(cells := map[])
  }

  // ------------------------------------------------------------ invariants

  /** Consecutive body cells share a side. */
  predicate Connected(body: seq<Grid>) {
    forall i :: 1 <= i < |body| ==> Adjacent(body[i - 1], body[i])
  }

  /** The snake's own invariant: a non-empty connected body without
      repetitions ending at the head, shorter than the target length, and,
      while alive, a heading that does not point into the neck. */
  predicate SnakeInv(s: SnakeState) {
    |s.body| >= 1 &&
    s.head == s.body[|s.body| - 1] &&
    Distinct(s.body) &&
    Connected(s.body) &&
    InitialLength <= s.length &&
    |s.body| < s.length &&
    (s.alive && |s.body| > 1 ==> NextCell(s.head, s.heading) != s.body[|s.body| - 2])
  }

  /** A bounded pool of distinct on-board objectives, none on the body. */
  predicate ObjectivesInv(cfg: Config, b: Board) {
    |b.objectives| <= MaxObjectives &&
    Distinct(b.objectives) &&
    (forall g :: g in b.objectives ==> InBounds(cfg, g)) &&
    (forall g :: g in b.objectives ==> g !in b.snake.body)
  }

  /** The map of occupied cells agrees with the snake and the objectives:
      every objective is a key marked OBJECTIVE; every body cell behind the
      head is a key marked SNAKE_TAIL; the head is a key once the snake has
      moved (the start cell is only entered by the first move) and is marked
      SNAKE_HEAD or DEAD_HEAD; nothing else is a key; every element is drawn
      at its own cell's origin. */
  predicate CellsInv(cfg: Config, b: Board) {
    Bookkept(cfg, b.snake.body, b.cells, b.objectives)
  }

  predicate Bookkept(cfg: Config, body: seq<Grid>, cells: map<Grid, GridElement>, objectives: seq<Grid>) {
    |body| >= 1 &&
    (forall g :: g in objectives ==> g in cells && cells[g].kind == Objective) &&
    (forall i :: 0 <= i < |body| - 1 ==> body[i] in cells && cells[body[i]].kind == SnakeTail) &&
    (|body| > 1 ==> body[|body| - 1] in cells) &&
    (body[|body| - 1] in cells ==>
       cells[body[|body| - 1]].kind == SnakeHead || cells[body[|body| - 1]].kind == DeadHead) &&
    (forall g :: g in cells ==> g in objectives || g in body) &&
    (forall g :: g in cells ==> cells[g] == Element(cfg, cells[g].kind, g))
  }

  predicate Inv(cfg: Config, b: Board) {
    SnakeInv(b.snake) && ObjectivesInv(cfg, b) && CellsInv(cfg, b)
  }

  /** The invariant the intended wall rule keeps in addition: the body stays on the board. */
  predicate OnBoard(cfg: Config, b: Board) {
    forall g :: g in b.snake.body ==> InBounds(cfg, g)
  }
}
