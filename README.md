# KtSnake game-state engine in Dafny

This project models the game-state engine of KtSnake, a snake game on a grid
of cells. The modelled part covers:

- the cell, point and quad geometry;
- the snake: its body from tail to head, heading, alive flag and target
  length, the candidate next cell, and the rule that forbids turning into
  the neck;
- the board: the map from occupied cells to elements, the bounded
  first-in-first-out pool of objectives, one tick of movement (wall check,
  self collision, marking, truncation, eating), objective spawning by
  rejection sampling, and the game-over marking with its score.

Layout:

- `geometry.dfy` (module `Geometry`): `Grid`, `Point`, `Vertices`, the pixel
  origin of a cell and its inverse.
- `directions.dfy` (module `Directions`): the `Direction` enum with its name
  tags, and `NextCell`, which dispatches on the name the way `getMove` does.
  It is checked against a reference table of unit steps.
- `seqs.dfy` (module `Seqs`): `Distinct`, and `RemoveFirst` (a list's
  remove-by-value).
- `engine.dfy` (module `Engine`): the engine on values. `SnakeState` and
  `Board` are snapshots of the two objects. `Turn`, `Tick`, `Evict`,
  `Spawn`, `Sample`, `MarkDead`, `Score` and `Clear` give the effect of each
  operation, and `Inv` is the board invariant.
- `engine_proofs.dfy` (module `EngineProofs`): lemmas about those functions.
  It also has runs: any sequence of turns, ticks and spawns.
- `game.dfy` (module `Game`): the classes `Snake` and `GameGrid`. Their
  fields change in place, as in the program. Each method is specified by
  the matching `Engine` function. `AddObjective`, `MoveSnake` and `GameOver`
  keep `Valid()`, which is `Inv` of the current state, and the constructor
  establishes it for a valid one-cell snake. The three map primitives
  `CreateGridElement`, `DeleteGridElement` and `DrawFreeCell` are specified
  by their effect on the fields alone; `ClearGrid` breaks `Valid()` (see
  Left out).

Notes on the model:

- Randomness: `randgrid(n)` yields a value in `[0, n)`. `AddObjective`
  therefore takes the cells drawn by the random generator as a sequence
  `draws`. Each draw must be on the board. The program draws for ever when no
  cell is free, so one draw must be free after the eviction; this is the
  only precondition beyond `Valid()`.
- The exception thrown by `deleteGridElement` on a missing key is the result
  `found == false`. The program calls it in three places. The call inside
  `createGridElement` is guarded by `containsKey`, as it is in
  `CreateGridElement`. The other two, the eviction in `addObjective` and the
  truncation in `moveSnake`, are proved to find their key: `assert found` in
  `AddObjective` and `MakeMove`, backed by `EvictionDeletesKey` and
  `TruncationDeletesKey`.
- The start cell is in the body but not in the map until the first move marks
  it SNAKE_TAIL. `Engine.Bookkept` requires a key for every body cell behind
  the head, and for the head only once the body has more than one cell.
- The game loop also ends when the window is closed, and `GameOver` then
  marks the head of a live snake. So the invariant lets the head be marked
  SNAKE_HEAD or DEAD_HEAD.
- Direction semantics follow the code: DOWN and UP change the column by +1
  and -1; RIGHT and LEFT change the row by +1 and -1. So a snake at (0,1)
  heading UP enters (0,0), not row -1. Wall deaths on the low edges are
  stated in `LowEdgesAreWalls`.
- The wall check follows the code as written (see Findings): the second test
  compares the row, not the column, with the column count. So on the 20×20
  board, leaving past the high-column edge is not fatal.
- The tick returns a Boolean, as the program does, not a collision cause.
  The target length of a new snake is 5 while its body is a single cell.
- Integers are unbounded; the program's 32-bit `Int` is not modelled (see
  Left out). Under the wall test as written, a snake heading DOWN past the
  last column never dies, so its column, and the pixel origin computed from
  it, grow without bound.

## Model

| member | source | states |
|---|---|---|
| Geometry.MakeVertices | ktsnake.kt:16-27 | the four corners form an axis-aligned square of the given side whose bottom-right corner is the given point: br = origin, tr = (x, y−s), tl = (x−s, y−s), bl = (x−s, y) |
| Geometry.OriginRoundTrip | ktsnake.kt:81-83 | for a positive cell size, the cell is recovered from the pixel origin (s·row+s, s·col+s) |
| Geometry.OriginInjective | ktsnake.kt:81-83 | distinct cells get distinct pixel origins |
| Geometry.QuadInsideWindow | ktsnake.kt:81-84 | the quad of every on-board cell lies inside the window of side·rows by side·cols pixels |
| Geometry.Origin | ktsnake.kt:81-83 | defines the pixel origin of a cell: (s·row+s, s·col+s); its properties are the rows below |
| Geometry.NeighbourQuadsShareEdge | ktsnake.kt:16-27 | the quad of the next cell in the row direction shares the previous quad's right edge, and the quad of the next cell in the column direction shares its bottom edge |
| Geometry.QuadsCoverWindow | ktsnake.kt:81-84 | every pixel of the side·rows by side·cols window lies in the quad of an on-board cell, namely the cell (x / side, y / side) |
| Directions.NextCell | ktsnake.kt:196-206 | dispatching on the direction's name, with every other name meaning left, gives the head shifted by the unit step: DOWN col+1, UP col−1, RIGHT row+1, LEFT row−1 |
| Directions.NextCellAdjacent | ktsnake.kt:196-206 | the candidate cell shares a side with the head and differs from it |
| Directions.NextCellUndo | ktsnake.kt:196-206 | a step in the opposite direction returns to the starting cell |
| Directions.NoImmediateReturn | ktsnake.kt:196-206 | two steps in the same direction never return to the start |
| Directions.NextCellInjective | ktsnake.kt:196-206 | different headings lead to different cells |
| Seqs.RemoveFirst | ktsnake.kt:141 | removing a present element shortens the list by one, keeps every other element, and keeps a list without repetitions free of repetitions and of that element; an absent element leaves the list unchanged |
| Seqs.IndexOf | ktsnake.kt:141 | the position of the first occurrence: it holds the element, and no earlier position does |
| Seqs.RemoveFirstKeepsOrder | ktsnake.kt:141 | removal takes out exactly the first occurrence, and the elements before and after it keep their order |
| Engine.Sample | ktsnake.kt:69-72 | rejection sampling picks the first draw that is neither an objective nor a body cell; all earlier draws were taken |
| Game.Snake.constructor | ktsnake.kt:183-194 | a new snake is alive, has target length 5, and its body is its start cell, which is also its head |
| Game.Snake.GetMove | ktsnake.kt:196-206 | reads only the head and returns it shifted one step in the given direction; the result is adjacent to the head |
| Game.Snake.ChangeDirection | ktsnake.kt:208-218 | only the heading changes; a dead snake keeps it; with more than one body cell the heading is kept exactly when the new heading leads into the neck `snakegrids[size-2]`, and otherwise (and always for one cell) it becomes the new heading |
| Game.GameGrid.constructor | ktsnake.kt:46-61 | the board starts with no occupied cells and no objectives, for the given snake and dimensions, and is valid when the snake is a valid one-cell snake |
| Game.GameGrid.AddObjective | ktsnake.kt:63-75 | a full pool of 10 first loses its oldest objective from the list and the map; the first free draw is appended and marked OBJECTIVE; the invariant is kept and the eviction's delete finds its key |
| Game.GameGrid.DrawFreeCell | ktsnake.kt:69-72 | the rejection loop returns the first draw that is neither an objective nor a body cell, and changes nothing |
| Game.GameGrid.CreateGridElement | ktsnake.kt:77-87 | always returns true; the map becomes the old map with only this key set to an element of the given type drawn at the cell's origin |
| Game.GameGrid.DeleteGridElement | ktsnake.kt:88-94 | removes only the given key; reports a missing key (the program's exception) and leaves the map unchanged then |
| Game.GameGrid.ClearGrid | ktsnake.kt:103-105 | the map becomes empty; the snake and the pool are unchanged |
| Game.GameGrid.MoveSnake | ktsnake.kt:107-147 | the new state is exactly one tick of the state before, with the wall test as written; the result says whether the move succeeded; the invariant is kept |
| Game.GameGrid.MakeMove | ktsnake.kt:127-146 | the successful part of a tick performs exactly the engine's successful move on the fields, and its truncation delete finds its key |
| Game.GameGrid.GameOver | ktsnake.kt:149-155 | the last body cell is marked DEAD_HEAD and nothing else changes; the score returned is length − 5 and is never negative; the invariant is kept |
| Engine.Element | ktsnake.kt:81-85 | defines the element stored for a cell: its type, the cell's pixel origin and the cell side |
| Engine.PassesWallCheck | ktsnake.kt:110-119 | defines the two wall tests: as written, row in [0, rows), col ≥ 0 and row < cols; intended, the cell on the board |
| Engine.Turn | ktsnake.kt:208-218 | defines a heading change on a snake value; its properties are `TurnEffect` and `TurnPreservesInv` |
| Engine.Tick | ktsnake.kt:107-147 | defines one tick: a failed wall or self test only kills the snake, otherwise `Advance`; its properties are the `Tick*` lemmas |
| Engine.Advance | ktsnake.kt:127-146 | defines the successful move: mark, append, truncate at the target length, eat; its properties are `TickSuccess` and `TickGrowth` |
| Engine.Evict | ktsnake.kt:64-67 | defines the eviction of the oldest objective of a full pool from the list and the map |
| Engine.Spawn | ktsnake.kt:63-75 | defines a spawn: eviction, then the drawn cell appended and marked OBJECTIVE; its properties are `SpawnEffect` and `SpawnPreservesInv` |
| Engine.MarkDead | ktsnake.kt:152 | defines the game-over marking of the last body cell as DEAD_HEAD; its property is `MarkDeadEffect` |
| Engine.Score | ktsnake.kt:154 | defines the score, length − 5; its properties are `ScoreNonNegative` and `RunScore` |
| Engine.Clear | ktsnake.kt:103-105 | defines clearing: the map becomes empty |
| EngineProofs.NewBoardInv | ktsnake.kt:187-193 | a new snake on an empty board satisfies the invariant, even though its start cell is not yet in the map |
| EngineProofs.TurnEffect | ktsnake.kt:208-218 | a turn changes at most the heading; a dead snake ignores it; a longer snake rejects exactly the heading into its neck; a one-cell snake accepts any heading |
| EngineProofs.TurnPreservesInv | ktsnake.kt:208-218 | a turn keeps the invariant, including that a live snake's heading never points into its neck |
| EngineProofs.ReversalRejected | ktsnake.kt:208-218 | a snake whose last step went along its heading cannot reverse onto its neck: the opposite heading is refused |
| EngineProofs.TickFailure | ktsnake.kt:110-125 | a candidate failing the wall test, or already in the body (including the tail cell that would be dropped), kills the snake and changes nothing else: body, head, length, map and pool stay |
| EngineProofs.LowEdgesAreWalls | ktsnake.kt:110-119 | stepping UP from column 0 or LEFT from row 0 is fatal under either wall test, and stepping DOWN past the last column is fatal under the intended test; the map is unchanged |
| EngineProofs.TickSuccess | ktsnake.kt:127-137 | a successful tick makes the candidate the new head and last body cell, marked SNAKE_HEAD; the old head, if still in the body, is the neck marked SNAKE_TAIL; the body is the old body plus the candidate, less its oldest cell exactly when it reached the target length, and that cell leaves the map |
| EngineProofs.MarkedCells | ktsnake.kt:128-129 | after the two markings, every body cell behind the candidate is a SNAKE_TAIL key, every other objective is still an OBJECTIVE key, and no key outside the body and the pool appears |
| EngineProofs.TruncatedCells | ktsnake.kt:134-137 | dropping the oldest cell from the body and the map keeps the map in step with the body and the pool |
| EngineProofs.TickSnakeInv | ktsnake.kt:127-143 | a tick keeps the body connected, free of repetitions, ending at the head and shorter than the target length, with a heading that does not point into the neck |
| EngineProofs.TickObjectivesInv | ktsnake.kt:139-143 | a tick keeps the pool within 10, free of repetitions, on the board and disjoint from the body |
| EngineProofs.TickCellsInv | ktsnake.kt:127-137 | a tick keeps the map in step with the body and the pool |
| EngineProofs.TickPreservesInv | ktsnake.kt:107-147 | a tick, under either wall test, keeps the whole invariant |
| EngineProofs.TickGrowth | ktsnake.kt:139-143 | the target length grows by exactly one when a successful tick lands on an objective, which leaves the pool from its first position while the other objectives keep their spawn order; otherwise the length and the pool are unchanged |
| EngineProofs.TruncationDeletesKey | ktsnake.kt:134-135 | the cell deleted by the truncation is a key of the map, so the delete never throws |
| EngineProofs.IntendedTickStaysOnBoard | ktsnake.kt:110-119 | with the intended wall test the body never leaves the board |
| EngineProofs.WallCheckMissesLastColumn | ktsnake.kt:115 | with the test as written, a snake heading DOWN from the last column of a board with no more rows than columns moves off the board alive; the intended test kills it |
| EngineProofs.ShippedBoardLetsSnakeLeave | ktsnake.kt:111-119 | on the shipped 20×20 board a valid two-cell snake at (1,18), (1,19) heading DOWN passes the wall test as written and moves to (1,20) |
| EngineProofs.EvictionDeletesKey | ktsnake.kt:64-65 | the evicted oldest objective is a key of the map, so the delete never throws |
| EngineProofs.SpawnEffect | ktsnake.kt:63-75 | a full pool loses its oldest objective, which leaves the map unless it is redrawn; the new cell ends the pool and is marked OBJECTIVE; the pool stays within 10; the snake is untouched |
| EngineProofs.SpawnPreservesInv | ktsnake.kt:63-75 | spawning at a free on-board cell keeps the invariant: the pool stays bounded, free of repetitions, on the board and off the body |
| EngineProofs.SampleOnBoard | ktsnake.kt:69-72 | the sampled cell is on the board and free when all draws are on the board |
| EngineProofs.MarkDeadEffect | ktsnake.kt:152 | marking the dead head adds or replaces only the last body cell's element, with DEAD_HEAD, and keeps the invariant |
| EngineProofs.ScoreNonNegative | ktsnake.kt:154 | the score length − 5 is never negative |
| EngineProofs.ApplyPreservesInv | ktsnake.kt:46-157 | every turn, tick and enabled spawn keeps the invariant |
| EngineProofs.RunPreservesInv | ktsnake.kt:46-157 | every sequence of turns, ticks and enabled spawns keeps the invariant |
| EngineProofs.RunScore | ktsnake.kt:139-154 | over any run the target length grows by exactly the number of objectives eaten, so from a new snake the final score is that number |
| EngineProofs.RunNeverRevives | ktsnake.kt:110-124 | once dead, the snake stays dead over any run |

## Findings

| source | as written | input that shows it | evidently intended | confidence | as-written member | corrected member |
|---|---|---|---|---|---|---|
| ktsnake.kt:115 | `!(0 <= nextmove.col && nextmove.row < cols)` compares the row with the column count | 20×20 board, head (1,19), heading DOWN: the candidate (1,20) passes both tests, and the snake moves off the board alive | `nextmove.col < cols` | high; not executed | EngineProofs.WallCheckMissesLastColumn | EngineProofs.IntendedTickStaysOnBoard |

`EngineProofs.ShippedBoardLetsSnakeLeave` is the concrete instance on the
shipped board. `Engine.PassesWallCheck` defines both tests, selected by `WallRule`.
`Game.GameGrid.MoveSnake` models the program and uses the test as written.
The intended test is proved to keep the whole body on the board, and
`LowEdgesAreWalls` shows it is fatal at the last column.

## Left out

- Rendering is not modelled: `redrawGrid`, `GridElement.draw`, the colours of
  the element types and all OpenGL calls are foreign calls with no decisions.
  A `GridElement` keeps its type, origin and side; `Corners()` gives its quad.
- The `SnakeGame` driver is not modelled: window creation, event polling, the
  key callback, buffer swaps and `Thread.sleep` are I/O and timing. The
  priming loop (objectives up to 5) and the spawn every 10 ticks are not
  modelled either. Runs in `EngineProofs` cover every interleaving of turns,
  ticks and spawns, which includes the driver's schedule.
- `glfwKeypressCallback` maps GLFW key constants, which are foreign, onto
  `changeDirection`. Input is modelled as direct `ChangeDirection` calls.
- The float computation of rows and columns from the window size is not
  modelled. Dimensions are parameters, and the shipped board is 20×20 with
  25-pixel cells.
- The `println` messages are left out. The final score is returned by
  `GameOver` instead of printed.
- `java.util.Random` is not modelled beyond its range contract: random cells
  are a caller-supplied sequence of on-board draws.
- Game.GameGrid.AddObjective: requires that one of the draws is free after
  the eviction. The program would loop for ever otherwise; nontermination is
  not modelled.
- The 32-bit wrap-around of `Int` is not modelled. Under the wall test as
  written, a snake heading DOWN past the last column walks on alive, its
  column growing by one per tick. In the program the pixel origin
  `sidesizepx * col + sidesizepx` would then wrap after about 8.6·10⁷ ticks,
  and the column itself after 2³¹ ticks, when a negative column fails
  `0 <= nextmove.col` and kills the snake. At 200 ms per tick this is
  roughly 200 days away at the earliest; the model's unbounded integers never
  wrap.
- Game.GameGrid.ClearGrid: does not keep `Valid()`. The program never calls
  `clearGrid`, and clearing the map while objectives exist breaks the
  bookkeeping invariant.
