/** The game objects as the program keeps them: a snake whose fields change
    in place, and a board that owns the map of occupied cells and the pool of
    objectives and moves the snake. Each method is specified by the engine
    function of the same operation, and keeps the engine's invariant. */
module Game {
  import opened Geometry
  import opened Directions
  import opened Seqs
  import opened Engine
  import opened EngineProofs

  class Snake {
    var alive: bool
    var currentGrid: Grid
    var direction: Direction
    var length: int
    var snakeGrids: seq<Grid>

    /** The snake's fields as a value. */
    function State(): SnakeState
      reads this
    {
      SnakeState(alive, currentGrid, direction, length, snakeGrids)
    }

    /** A live snake of target length five whose body is its start cell. */
    constructor (startGrid: Grid, startDirection: Direction)
      ensures State() == NewSnake(startGrid, startDirection)
    {
      alive := true;
      currentGrid := startGrid;
      direction := startDirection;
      length := InitialLength;
      snakeGrids := [startGrid];
    }

    /** The cell one step from the head in direction `dir`: DOWN and UP change
        the column by +1 and -1, RIGHT and LEFT the row by +1 and -1. Reading
        it changes nothing. */
    function GetMove(dir: Direction): (g: Grid)
      reads this
      ensures g.row == currentGrid.row + RowDelta(dir) && g.col == currentGrid.col + ColDelta(dir)
      ensures Adjacent(currentGrid, g)
    {
      NextCellAdjacent(currentGrid, dir);
      NextCell(currentGrid, dir)
    }

    /** A heading change from the player; only the heading can change. */
    method ChangeDirection(newDir: Direction)
      modifies this`direction
      ensures State() == Turn(old(State()), newDir)
      ensures !alive ==> direction == old(direction)
      ensures alive && |snakeGrids| > 1 ==>
        direction == (if GetMove(newDir) == snakeGrids[|snakeGrids| - 2] then old(direction) else newDir)
      ensures alive && |snakeGrids| <= 1 ==> direction == newDir
    {
      if alive {
        if |snakeGrids| > 1 {
          if GetMove(newDir) != snakeGrids[|snakeGrids| - 2] {
            direction := newDir;
          }
        } else {
          direction := newDir;
        }
      }
    }
  }

  class GameGrid {
    const snake: Snake
    const rows: int
    const cols: int
    const sideSizePx: int
    var activeGridElements: map<Grid, GridElement>
    var objectiveList: seq<Grid>

    function Dimensions(): Config {
      Config(rows, cols, sideSizePx)
    }

    /** The board and its snake as a value. */
    function State(): Board
      reads this, snake
    {
      Board(snake.State(), activeGridElements, objectiveList)
    }

    ghost predicate Valid()
      reads this, snake
    {
      Inv(Dimensions(), State())
    }

    /** An empty board for `snake`; it is valid when the snake is a valid
        one-cell snake, as a newly created one is. */
    constructor (snake: Snake, rows: int, cols: int, sideSizePx: int)
      ensures this.snake == snake && Dimensions() == Config(rows, cols, sideSizePx)
      ensures State() == NewBoard(snake.State())
      ensures |snake.snakeGrids| == 1 && SnakeInv(snake.State()) ==> Valid()
    {
      this.snake := snake;
      this.rows := rows;
      this.cols := cols;
      this.sideSizePx := sideSizePx;
      activeGridElements := map[];
      objectiveList := [];
    }

    /** Adds an objective. A full pool first loses its oldest objective, from
        the list and the map. Then random cells are drawn, here taken in turn
        from `draws`, until one is neither an objective nor part of the body;
        it is appended to the pool and marked OBJECTIVE. Each draw is on the
        board, as the random generator promises; the program draws for ever
        when no cell is free, so one of the draws must be free. */
    method AddObjective(draws: seq<Grid>)
      requires Valid()
      requires forall i :: 0 <= i < |draws| ==> InBounds(Dimensions(), draws[i])
      requires HasFree(Evict(State()), draws)
      modifies this
      ensures Valid()
      ensures State() == Spawn(Dimensions(), old(State()), Sample(Evict(old(State())), draws))
    {
      ghost var before := State();
      if |objectiveList| == MaxObjectives {
        EvictionDeletesKey(Dimensions(), before);
        var found := DeleteGridElement(objectiveList[0]);
        assert found;
        objectiveList := objectiveList[1..];
      }
      var newObjGrid := DrawFreeCell(draws);
      SampleOnBoard(Dimensions(), Evict(before), draws);
      SpawnPreservesInv(Dimensions(), before, newObjGrid);
      objectiveList := objectiveList + [newObjGrid];
      var created := CreateGridElement(Objective, newObjGrid);
    }

    /** The rejection loop of `AddObjective`: the first of the draws that is
        neither an objective nor a body cell. */
    method DrawFreeCell(draws: seq<Grid>) returns (newObjGrid: Grid)
      requires HasFree(State(), draws)
      ensures newObjGrid == Sample(State(), draws)
      ensures newObjGrid !in objectiveList && newObjGrid !in snake.snakeGrids
    {
      var i := 0;
      newObjGrid := draws[0];
      while newObjGrid in objectiveList || newObjGrid in snake.snakeGrids
        invariant 0 <= i < |draws| && newObjGrid == draws[i]
        invariant HasFree(State(), draws[i..])
        invariant Sample(State(), draws[i..]) == Sample(State(), draws)
        decreases |draws| - i
      {
        assert draws[i..][1..] == draws[i + 1..];
        i := i + 1;
        newObjGrid := draws[i];
      }
    }

    /** Marks cell `gridIndex` with `elementType`, replacing any element it
        had; the element is drawn at the cell's pixel origin. Other cells are
        untouched. */
    method CreateGridElement(elementType: ElementType, gridIndex: Grid) returns (created: bool)
      modifies this`activeGridElements
      ensures created
      ensures activeGridElements == old(activeGridElements)[gridIndex := Element(Dimensions(), elementType, gridIndex)]
    {
      if gridIndex in activeGridElements {
        var found := DeleteGridElement(gridIndex);
      }
      var xCoord := sideSizePx * gridIndex.row + sideSizePx;
      var yCoord := sideSizePx * gridIndex.col + sideSizePx;
      var originCoords := Point(xCoord, yCoord);
      activeGridElements := activeGridElements[gridIndex := GridElement(elementType, originCoords, sideSizePx)];
      created := true;
    }

    /** Removes cell `gridIndex` from the map. `found` is false exactly when
        the key is missing, where the program throws; the map is then unchanged. */
    method DeleteGridElement(gridIndex: Grid) returns (found: bool)
      modifies this`activeGridElements
      ensures found == (gridIndex in old(activeGridElements))
      ensures activeGridElements == old(activeGridElements) - {gridIndex}
    {
      if gridIndex in activeGridElements {
        activeGridElements := activeGridElements - {gridIndex};
        found := true;
      } else {
        found := false;
      }
    }

    /** Empties the map of occupied cells; the snake and the pool stay. */
    method ClearGrid()
      modifies this`activeGridElements
      ensures State() == Clear(old(State()))
    {
      activeGridElements := map[];
    }

    /** One tick, with the wall test as the program writes it. `moved` is
        false on a collision, which only kills the snake. */
    method MoveSnake() returns (moved: bool)
      requires Valid()
      modifies this, snake
      ensures Valid()
      ensures moved == TickOk(Dimensions(), old(State()), AsWritten)
      ensures State() == Tick(Dimensions(), old(State()), AsWritten)
    {
      ghost var before := State();
      TickPreservesInv(Dimensions(), before, AsWritten);
      var nextMove := snake.GetMove(snake.direction);

      if !(0 <= nextMove.row && nextMove.row < rows) {
        snake.alive := false;
        return false;
      } else if !(0 <= nextMove.col && nextMove.row < cols) {
        snake.alive := false;
        return false;
      }
      if nextMove in snake.snakeGrids {
        snake.alive := false;
        return false;
      }
      TruncationDeletesKey(Dimensions(), before);
      MakeMove(nextMove);
      return true;
    }

    /** The successful part of a tick: mark the candidate SNAKE_HEAD and the
        old head SNAKE_TAIL, append the candidate to the body and make it the
        head, drop the oldest cell from the body and the map when the body
        reaches the target length, and consume an objective at the candidate. */
    method MakeMove(nextMove: Grid)
      requires |snake.snakeGrids| > 0 && nextMove == Candidate(State())
      requires var s := State().snake;
        (s.body + [nextMove])[0] in activeGridElements[nextMove := Element(Dimensions(), SnakeHead, nextMove)]
                                                     [s.head := Element(Dimensions(), SnakeTail, s.head)]
      modifies this, snake
      ensures State() == Advance(Dimensions(), old(State()))
    {
      var created := CreateGridElement(SnakeHead, nextMove);
      created := CreateGridElement(SnakeTail, snake.currentGrid);

      snake.snakeGrids := snake.snakeGrids + [nextMove];
      snake.currentGrid := nextMove;
      if |snake.snakeGrids| == snake.length {
        var found := DeleteGridElement(snake.snakeGrids[0]);
        assert found;
        snake.snakeGrids := snake.snakeGrids[1..];
      }

      if nextMove in objectiveList {
        objectiveList := RemoveFirst(objectiveList, nextMove);
        snake.length := snake.length + 1;
      }
    }

    /** The end of the game: the last body cell is marked DEAD_HEAD and the
        score, the target length less the initial five, is returned. */
    method GameOver() returns (score: int)
      requires Valid()
      modifies this`activeGridElements
      ensures Valid()
      ensures State() == MarkDead(Dimensions(), old(State()))
      ensures score == Score(snake.State()) && score >= 0
    {
      MarkDeadEffect(Dimensions(), State());
      var created := CreateGridElement(DeadHead, snake.snakeGrids[|snake.snakeGrids| - 1]);
      score := snake.length - InitialLength;
    }
  }
}
