/** What the engine's operations guarantee: each keeps the board invariant,
    deletions only ever name present keys, the target length only grows, and
    over any run of operations the score counts the objectives eaten. */
module EngineProofs {
  import opened Geometry
  import opened Directions
  import opened Seqs
  import opened Engine

  // ------------------------------------------------------------- the start

  /** A freshly created snake on an empty board satisfies the invariant; it is
      on the board when its start cell is. */
  lemma NewBoardInv(cfg: Config, start: Grid, d: Direction)
    ensures Inv(cfg, NewBoard(NewSnake(start, d)))
    ensures InBounds(cfg, start) ==> OnBoard(cfg, NewBoard(NewSnake(start, d)))
  {
  }

  // ------------------------------------------------------------------ turn

  /** A heading change alters at most the heading; a dead snake ignores it; a
      longer snake rejects exactly the headings that lead into its neck. */
  lemma TurnEffect(s: SnakeState, d: Direction)
    ensures Turn(s, d).(heading := s.heading) == s
    ensures !s.alive ==> Turn(s, d) == s
    ensures s.alive && |s.body| > 1 ==>
      Turn(s, d).heading == (if NextCell(s.head, d) == s.body[|s.body| - 2] then s.heading else d)
    ensures s.alive && |s.body| <= 1 ==> Turn(s, d).heading == d
  {
  }

  lemma TurnPreservesInv(cfg: Config, b: Board, d: Direction)
    requires Inv(cfg, b)
    ensures Inv(cfg, b.(snake := Turn(b.snake, d)))
  {
  }

  /** A snake whose last step went along its heading cannot reverse: the
      opposite heading leads into the neck and is rejected. */
  lemma ReversalRejected(s: SnakeState)
    requires SnakeInv(s) && |s.body| > 1
    requires s.head == NextCell(s.body[|s.body| - 2], s.heading)
    ensures Turn(s, Opposite(s.heading)) == s
  {
    NextCellUndo(s.body[|s.body| - 2], s.heading);
  }

  // ------------------------------------------------------------------ tick

  /** A failed tick kills the snake and changes nothing else. A wall failure
      and a self collision are each fatal. */
  lemma TickFailure(cfg: Config, b: Board, rule: WallRule)
    requires |b.snake.body| > 0
    requires !PassesWallCheck(cfg, Candidate(b), rule) || Candidate(b) in b.snake.body
    ensures !TickOk(cfg, b, rule)
    ensures var a := Tick(cfg, b, rule);
      !a.snake.alive && a.snake.(alive := b.snake.alive) == b.snake &&
      a.cells == b.cells && a.objectives == b.objectives
  {
  }

  lemma DistinctSnoc(s: seq<Grid>, x: Grid)
    requires Distinct(s) && x !in s
    ensures Distinct(s + [x])
  {
    var t := s + [x];
    forall i, j | 0 <= i < j < |t| ensures t[i] != t[j] {
      if j == |s| { assert t[i] == s[i]; assert s[i] in s; }
    }
  }

  lemma ConnectedSnoc(s: seq<Grid>, x: Grid)
    requires Connected(s) && |s| > 0 && Adjacent(s[|s| - 1], x)
    ensures Connected(s + [x])
  {
    var t := s + [x];
    forall i | 1 <= i < |t| ensures Adjacent(t[i - 1], t[i]) {
      if i < |s| { assert t[i - 1] == s[i - 1] && t[i] == s[i]; }
    }
  }

  lemma DistinctTail(s: seq<Grid>)
    requires |s| > 0 && Distinct(s)
    ensures Distinct(s[1..]) && s[0] !in s[1..]
  {
  }

  lemma ConnectedTail(s: seq<Grid>)
    requires |s| > 0 && Connected(s)
    ensures Connected(s[1..])
  {
    var t := s[1..];
    forall i | 1 <= i < |t| ensures Adjacent(t[i - 1], t[i]) {
      assert t[i - 1] == s[i] && t[i] == s[i + 1];
    }
  }

  /** A successful tick: the head moves to the candidate, which ends the body
      and is marked SNAKE_HEAD; the old head, when it stays in the body, is
      marked SNAKE_TAIL; the body is the old body plus the candidate, less its
      oldest cell exactly when it reached the target length, and that cell is
      no longer on the board. */
  lemma TickSuccess(cfg: Config, b: Board, rule: WallRule)
    requires Inv(cfg, b) && TickOk(cfg, b, rule)
    ensures var a := Tick(cfg, b, rule); var next := Candidate(b);
      var grown := b.snake.body + [next];
      a.snake.alive == b.snake.alive && a.snake.heading == b.snake.heading &&
      a.snake.head == next && a.snake.body[|a.snake.body| - 1] == next &&
      next in a.cells && a.cells[next].kind == SnakeHead &&
      (|a.snake.body| > 1 ==> a.snake.body[|a.snake.body| - 2] == b.snake.head &&
                               a.cells[b.snake.head].kind == SnakeTail) &&
      (if |grown| == b.snake.length
       then a.snake.body == grown[1..] && grown[0] !in a.cells
       else a.snake.body == grown)
  {
    var s := b.snake;
    var next := Candidate(b);
    var grown := s.body + [next];
    var a := Tick(cfg, b, rule);
    NextCellAdjacent(s.head, s.heading);
    assert grown[|grown| - 1] == next && grown[|grown| - 2] == s.head;
    if |grown| == s.length {
      assert a.snake.body == grown[1..];
      DistinctSnoc(s.body, next);
      assert grown[0] != next && (|grown| > 2 ==> grown[0] != s.head) by {
        assert grown[0] == grown[0] && grown[|grown| - 1] == next;
      }
    }
  }

  /** The candidate of a successful move and the cells it disturbs. */
  lemma TickSnakeInv(cfg: Config, b: Board, rule: WallRule)
    requires Inv(cfg, b)
    ensures SnakeInv(Tick(cfg, b, rule).snake)
  {
    var s := b.snake;
    if TickOk(cfg, b, rule) {
      var next := Candidate(b);
      var grown := s.body + [next];
      NextCellAdjacent(s.head, s.heading);
      NoImmediateReturn(s.head, s.heading);
      DistinctSnoc(s.body, next);
      ConnectedSnoc(s.body, next);
      if |grown| == s.length {
        DistinctTail(grown);
        ConnectedTail(grown);
        assert grown[1..][|grown| - 2] == next;
      }
    }
  }

  lemma TickObjectivesInv(cfg: Config, b: Board, rule: WallRule)
    requires Inv(cfg, b)
    ensures ObjectivesInv(cfg, Tick(cfg, b, rule))
  {
    var s := b.snake;
    if TickOk(cfg, b, rule) {
      var next := Candidate(b);
      var a := Tick(cfg, b, rule);
      forall g | g in a.objectives ensures g !in a.snake.body && InBounds(cfg, g) {
        assert g in b.objectives && g != next;
      }
    }
  }

  /** After the marking of a successful tick, every cell of the grown body
      behind the candidate is a key marked SNAKE_TAIL, and every objective
      other than the candidate is still a key marked OBJECTIVE. */
  lemma MarkedCells(cfg: Config, b: Board)
    requires Inv(cfg, b) && Candidate(b) !in b.snake.body
    ensures var s := b.snake; var next := Candidate(b); var grown := s.body + [next];
      var marked := b.cells[next := Element(cfg, SnakeHead, next)][s.head := Element(cfg, SnakeTail, s.head)];
      (forall i :: 0 <= i < |grown| - 1 ==> grown[i] in marked && marked[grown[i]].kind == SnakeTail) &&
      (forall g :: g in b.objectives && g != next ==> g in marked && marked[g].kind == Objective) &&
      next in marked && marked[next].kind == SnakeHead &&
      (forall g :: g in marked ==> g in b.objectives || g in grown) &&
      (forall g :: g in marked ==> marked[g] == Element(cfg, marked[g].kind, g))
  {
    var s := b.snake;
    var next := Candidate(b);
    var grown := s.body + [next];
    var marked := b.cells[next := Element(cfg, SnakeHead, next)][s.head := Element(cfg, SnakeTail, s.head)];
    assert s.head in s.body;
    forall i | 0 <= i < |grown| - 1 ensures grown[i] in marked && marked[grown[i]].kind == SnakeTail {
      assert grown[i] == s.body[i] && s.body[i] in s.body;
    }
    forall g | g in b.objectives && g != next ensures g in marked && marked[g].kind == Objective {
      assert g != s.head;
    }
    forall g | g in marked ensures g in b.objectives || g in grown {
      if g != next && g != s.head {
        assert g in b.cells;
      }
    }
  }

  lemma TickCellsInv(cfg: Config, b: Board, rule: WallRule)
    requires Inv(cfg, b)
    ensures CellsInv(cfg, Tick(cfg, b, rule))
  {
    var s := b.snake;
    if TickOk(cfg, b, rule) {
      var next := Candidate(b);
      var a := Tick(cfg, b, rule);
      var grown := s.body + [next];
      var marked := b.cells[next := Element(cfg, SnakeHead, next)][s.head := Element(cfg, SnakeTail, s.head)];
      MarkedCells(cfg, b);
      DistinctSnoc(s.body, next);
      if |grown| == s.length {
        DistinctTail(grown);
        TruncatedCells(cfg, grown, marked, b.objectives, a.objectives);
      } else {
        assert a.cells == marked && a.snake.body == grown;
        assert forall g :: g in a.objectives ==> g in b.objectives && g != next;
        assert forall g :: g in b.objectives ==> g in a.objectives || g == next;
        assert grown[|grown| - 1] == next;
      }
    }
  }

  /** Dropping the oldest cell from both the grown body and the marked map
      keeps the map in step with the body. */
  lemma TruncatedCells(cfg: Config, grown: seq<Grid>, marked: map<Grid, GridElement>,
                                          objectives: seq<Grid>, objectives': seq<Grid>)
    requires |grown| >= 2 && Distinct(grown) && grown[0] !in grown[1..]
    requires forall g :: g in objectives ==> g !in grown[..|grown| - 1]
    requires forall i :: 0 <= i < |grown| - 1 ==> grown[i] in marked && marked[grown[i]].kind == SnakeTail
    requires forall g :: g in objectives && g != grown[|grown| - 1] ==> g in marked && marked[g].kind == Objective
    requires grown[|grown| - 1] in marked && marked[grown[|grown| - 1]].kind == SnakeHead
    requires forall g :: g in marked ==> g in objectives || g in grown
    requires forall g :: g in marked ==> marked[g] == Element(cfg, marked[g].kind, g)
    requires forall g :: g in objectives' ==> g in objectives && g != grown[|grown| - 1]
    requires forall g :: g in objectives ==> g in objectives' || g == grown[|grown| - 1]
    ensures Bookkept(cfg, grown[1..], marked - {grown[0]}, objectives')
  {
    var body := grown[1..];
    var cells := marked - {grown[0]};
    forall i | 0 <= i < |body| - 1 ensures body[i] in cells && cells[body[i]].kind == SnakeTail {
      assert body[i] == grown[i + 1];
    }
    forall g | g in objectives' ensures g in cells && cells[g].kind == Objective {
      assert g != grown[0] by { assert grown[0] in grown[..|grown| - 1]; }
    }
    forall g | g in cells ensures g in objectives' || g in body {
      if g in grown && g != grown[0] {
        var k :| 0 <= k < |grown| && grown[k] == g;
        assert body[k - 1] == g;
      }
    }
    assert body[|body| - 1] == grown[|grown| - 1];
  }

  lemma TickPreservesInv(cfg: Config, b: Board, rule: WallRule)
    requires Inv(cfg, b)
    ensures Inv(cfg, Tick(cfg, b, rule))
  {
    TickSnakeInv(cfg, b, rule);
    TickObjectivesInv(cfg, b, rule);
    TickCellsInv(cfg, b, rule);
  }

  /** The target length grows by one exactly when a successful tick lands on
      an objective, which then leaves the pool while the other objectives keep
      their spawn order; otherwise the length and the pool are unchanged. */
  lemma TickGrowth(cfg: Config, b: Board, rule: WallRule)
    requires Inv(cfg, b)
    ensures var a := Tick(cfg, b, rule);
      var ate := TickOk(cfg, b, rule) && Candidate(b) in b.objectives;
      a.snake.length == b.snake.length + (if ate then 1 else 0) &&
      (ate ==> Candidate(b) !in a.objectives && |a.objectives| == |b.objectives| - 1) &&
      (ate ==> var i := IndexOf(b.objectives, Candidate(b));
               a.objectives == b.objectives[..i] + b.objectives[i + 1..]) &&
      (!ate ==> a.objectives == b.objectives)
  {
    if TickOk(cfg, b, rule) && Candidate(b) in b.objectives {
      RemoveFirstKeepsOrder(b.objectives, Candidate(b));
    }
  }

  /** The truncation's delete names a key that is present. */
  lemma TruncationDeletesKey(cfg: Config, b: Board)
    requires Inv(cfg, b)
    ensures var s := b.snake; var next := Candidate(b);
      var marked := b.cells[next := Element(cfg, SnakeHead, next)][s.head := Element(cfg, SnakeTail, s.head)];
      (s.body + [next])[0] in marked
  {
    var s := b.snake;
    if |s.body| > 1 {
      assert (s.body + [Candidate(b)])[0] == s.body[0];
    }
  }

  // ---------------------------------------------------------------- walls

  /** Stepping UP from column 0 or LEFT from row 0 hits a wall under either
      rule, and so does stepping DOWN past the last column under the intended
      rule. */
  lemma LowEdgesAreWalls(cfg: Config, b: Board, rule: WallRule)
    requires |b.snake.body| > 0
    requires (b.snake.head.col == 0 && b.snake.heading == Up) ||
             (b.snake.head.row == 0 && b.snake.heading == Left) ||
             (rule == Intended && b.snake.head.col == cfg.cols - 1 && b.snake.heading == Down)
    ensures !TickOk(cfg, b, rule) && !Tick(cfg, b, rule).snake.alive
    ensures Tick(cfg, b, rule).cells == b.cells
  {
  }

  /** The intended wall rule keeps the whole body on the board. */
  lemma IntendedTickStaysOnBoard(cfg: Config, b: Board)
    requires Inv(cfg, b) && OnBoard(cfg, b)
    ensures OnBoard(cfg, Tick(cfg, b, Intended))
  {
    if TickOk(cfg, b, Intended) {
      var a := Tick(cfg, b, Intended);
      var grown := b.snake.body + [Candidate(b)];
      forall g | g in a.snake.body ensures InBounds(cfg, g) {
        assert g in grown;
      }
    }
  }

  /** As written, the wall test lets a snake heading DOWN from the last column
      of a board with no more rows than columns walk off the board alive:
      the intended rule stops it there. */
  lemma WallCheckMissesLastColumn(cfg: Config, b: Board)
    requires Inv(cfg, b) && OnBoard(cfg, b)
    requires cfg.rows <= cfg.cols
    requires b.snake.head.col == cfg.cols - 1 && b.snake.heading == Down
    ensures TickOk(cfg, b, AsWritten) && !TickOk(cfg, b, Intended)
    ensures !OnBoard(cfg, Tick(cfg, b, AsWritten))
  {
    var next := Candidate(b);
    assert b.snake.head in b.snake.body;
    assert next !in b.snake.body;
    TickSuccess(cfg, b, AsWritten);
    var a := Tick(cfg, b, AsWritten);
    assert a.snake.body[|a.snake.body| - 1] in a.snake.body;
  }

  /** The shipped 20-by-20 board with 25-pixel cells: a two-cell snake at
      (1,18), (1,19) heading DOWN survives the tick into column 20. */
  lemma ShippedBoardLetsSnakeLeave()
    ensures var cfg := Config(20, 20, 25);
      var b := Board(SnakeState(true, Grid(1, 19), Down, InitialLength, [Grid(1, 18), Grid(1, 19)]),
                     map[Grid(1, 18) := Element(cfg, SnakeTail, Grid(1, 18)),
                         Grid(1, 19) := Element(cfg, SnakeHead, Grid(1, 19))],
                     []);
      Inv(cfg, b) && TickOk(cfg, b, AsWritten) && Tick(cfg, b, AsWritten).snake.head == Grid(1, 20)
  {
    var cfg := Config(20, 20, 25);
    var b := Board(SnakeState(true, Grid(1, 19), Down, InitialLength, [Grid(1, 18), Grid(1, 19)]),
                   map[Grid(1, 18) := Element(cfg, SnakeTail, Grid(1, 18)),
                       Grid(1, 19) := Element(cfg, SnakeHead, Grid(1, 19))],
                   []);
    assert Inv(cfg, b);
    WallCheckMissesLastColumn(cfg, b);
  }

  // ------------------------------------------------------------ objectives

  /** The eviction's delete names a key that is present. */
  lemma EvictionDeletesKey(cfg: Config, b: Board)
    requires Inv(cfg, b) && |b.objectives| == MaxObjectives
    ensures b.objectives[0] in b.cells
  {
    assert b.objectives[0] in b.objectives;
  }

  /** Spawning: a full pool loses its oldest objective first; the new cell
      ends the pool, is marked OBJECTIVE, and the pool stays within capacity. */
  lemma SpawnEffect(cfg: Config, b: Board, g: Grid)
    requires Inv(cfg, b)
    ensures var a := Spawn(cfg, b, g);
      a.snake == b.snake &&
      a.objectives == (if |b.objectives| == MaxObjectives then b.objectives[1..] else b.objectives) + [g] &&
      a.cells[g].kind == Objective &&
      |a.objectives| <= MaxObjectives &&
      (|b.objectives| == MaxObjectives && g != b.objectives[0] ==> b.objectives[0] !in a.cells)
  {
  }

  /** A spawn at a free on-board cell keeps the invariant: the pool stays
      bounded, without repetitions and off the body. */
  lemma SpawnPreservesInv(cfg: Config, b: Board, g: Grid)
    requires Inv(cfg, b) && InBounds(cfg, g) && Free(Evict(b), g)
    ensures Inv(cfg, Spawn(cfg, b, g))
  {
    var e := Evict(b);
    if |b.objectives| == MaxObjectives {
      assert b.objectives[0] in b.objectives;
      assert b.objectives[0] !in b.snake.body;
      DistinctTail(b.objectives);
    }
    assert Distinct(e.objectives) && forall h :: h in e.objectives ==> h in b.objectives;
    DistinctSnoc(e.objectives, g);
    var a := Spawn(cfg, b, g);
    forall h | h in a.cells ensures h in a.objectives || h in a.snake.body {
      if h != g {
        assert h in b.cells;
        if h in b.objectives && h !in b.snake.body {
          if |b.objectives| == MaxObjectives {
            assert h != b.objectives[0];
            var k :| 0 <= k < |b.objectives| && b.objectives[k] == h;
            assert e.objectives[k - 1] == h;
          }
        }
      }
    }
    var body := b.snake.body;
    forall i | 0 <= i < |body| - 1 ensures body[i] in a.cells && a.cells[body[i]].kind == SnakeTail {
      assert body[i] in body;
    }
    assert body[|body| - 1] in body;
  }

  /** The cell rejection sampling picks is free and on the board whenever the
      draws are. */
  lemma SampleOnBoard(cfg: Config, b: Board, draws: seq<Grid>)
    requires HasFree(b, draws)
    requires forall i :: 0 <= i < |draws| ==> InBounds(cfg, draws[i])
    ensures InBounds(cfg, Sample(b, draws)) && Free(b, Sample(b, draws))
  {
    var i :| 0 <= i < |draws| && draws[i] == Sample(b, draws) && forall j :: 0 <= j < i ==> !Free(b, draws[j]);
  }

  // ------------------------------------------------------------- game over

  /** Marking the dead head only changes the last body cell's marking, and
      keeps the invariant. */
  lemma MarkDeadEffect(cfg: Config, b: Board)
    requires Inv(cfg, b)
    ensures var a := MarkDead(cfg, b); var last := b.snake.body[|b.snake.body| - 1];
      a.snake == b.snake && a.objectives == b.objectives &&
      a.cells.Keys == b.cells.Keys + {last} && a.cells[last].kind == DeadHead &&
      (forall g :: g in b.cells && g != last ==> a.cells[g] == b.cells[g])
    ensures Inv(cfg, MarkDead(cfg, b))
  {
    var body := b.snake.body;
    var last := body[|body| - 1];
    forall i | 0 <= i < |body| - 1 ensures body[i] != last {
    }
    forall g | g in b.objectives ensures g != last {
      assert last in body;
    }
  }

  /** The score is never negative while the invariant holds. */
  lemma ScoreNonNegative(cfg: Config, b: Board)
    requires Inv(cfg, b)
    ensures Score(b.snake) >= 0
  {
  }

  // --------------------------------------------------------------- runs

  /** The operations a game performs on the board: a heading change from the
      player, a tick of the driver, or a spawn with the random draws it consumes. */
  datatype Op = TurnOp(d: Direction) | TickOp | SpawnOp(draws: seq<Grid>)

  /** An operation the program can complete from `b`: a spawn needs on-board
      draws one of which is free after the eviction. */
  predicate Enabled(cfg: Config, b: Board, op: Op) {
    |b.snake.body| > 0 &&
    (op.SpawnOp? ==> HasFree(Evict(b), op.draws) &&
                     forall i :: 0 <= i < |op.draws| ==> InBounds(cfg, op.draws[i]))
  }

  function Apply(cfg: Config, b: Board, op: Op): Board
    requires Enabled(cfg, b, op)
  {
    match op
    case TurnOp(d) => b.(snake := Turn(b.snake, d))
    case TickOp => Tick(cfg, b, AsWritten)
    case SpawnOp(draws) => Spawn(cfg, b, Sample(Evict(b), draws))
  }

  /** Every operation of the run is enabled where it is applied. */
  predicate Feasible(cfg: Config, b: Board, ops: seq<Op>)
    decreases |ops|
  {
    |ops| == 0 || (Enabled(cfg, b, ops[0]) && Feasible(cfg, Apply(cfg, b, ops[0]), ops[1..]))
  }

  function Run(cfg: Config, b: Board, ops: seq<Op>): Board
    requires Feasible(cfg, b, ops)
    decreases |ops|
  {
    if |ops| == 0 then b else Run(cfg, Apply(cfg, b, ops[0]), ops[1..])
  }

  /** The number of ticks of the run that land on an objective. */
  function Eaten(cfg: Config, b: Board, ops: seq<Op>): nat
    requires Feasible(cfg, b, ops)
    decreases |ops|
  {
    if |ops| == 0 then 0
    else
      var here := if ops[0].TickOp? && TickOk(cfg, b, AsWritten) && Candidate(b) in b.objectives then 1 else 0;
      here + Eaten(cfg, Apply(cfg, b, ops[0]), ops[1..])
  }

  lemma ApplyPreservesInv(cfg: Config, b: Board, op: Op)
    requires Inv(cfg, b) && Enabled(cfg, b, op)
    ensures Inv(cfg, Apply(cfg, b, op))
  {
    match op
    case TurnOp(d) => TurnPreservesInv(cfg, b, d);
    case TickOp => TickPreservesInv(cfg, b, AsWritten);
    case SpawnOp(draws) =>
      SampleOnBoard(cfg, Evict(b), draws);
      SpawnPreservesInv(cfg, b, Sample(Evict(b), draws));
  }

  /** Every run of enabled operations keeps the invariant. */
  lemma {:induction false} RunPreservesInv(cfg: Config, b: Board, ops: seq<Op>)
    requires Inv(cfg, b) && Feasible(cfg, b, ops)
    ensures Inv(cfg, Run(cfg, b, ops))
    decreases |ops|
  {
    if |ops| > 0 {
      ApplyPreservesInv(cfg, b, ops[0]);
      RunPreservesInv(cfg, Apply(cfg, b, ops[0]), ops[1..]);
    }
  }

  /** Over any run the target length grows by exactly the number of objectives
      eaten, so from a new game the score counts the objectives eaten. */
  lemma {:induction false} RunScore(cfg: Config, b: Board, ops: seq<Op>)
    requires Inv(cfg, b) && Feasible(cfg, b, ops)
    ensures Run(cfg, b, ops).snake.length == b.snake.length + Eaten(cfg, b, ops)
    ensures b.snake.length == InitialLength ==> Score(Run(cfg, b, ops).snake) == Eaten(cfg, b, ops)
    decreases |ops|
  {
    if |ops| > 0 {
      if ops[0].TickOp? {
        TickGrowth(cfg, b, AsWritten);
      }
      ApplyPreservesInv(cfg, b, ops[0]);
      RunScore(cfg, Apply(cfg, b, ops[0]), ops[1..]);
    }
  }

  /** A dead snake stays dead: no operation brings it back. */
  lemma {:induction false} RunNeverRevives(cfg: Config, b: Board, ops: seq<Op>)
    requires Feasible(cfg, b, ops) && !b.snake.alive
    ensures !Run(cfg, b, ops).snake.alive
    decreases |ops|
  {
    if |ops| > 0 {
      RunNeverRevives(cfg, Apply(cfg, b, ops[0]), ops[1..]);
    }
  }
}
