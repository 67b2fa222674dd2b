# dungeon: the maze carver, the level grid, movement and vector arithmetic

A Dafny model of the core of a small Rust roguelike:

- **Maze carver** (`src/maze.rs`), module `Maze` in `maze.dfy`. `Maze::new` builds a level, walls its outer ring (`fill_perimeter`) and carves corridors with a randomized depth-first walk from cell (1, 1) (`depth_first_walk`). The walk keeps an explicit stack. `generate_options` lists the compass directions in which both the adjacent cell and the cell beyond are still `Empty`. The methods work in place on a `Level` object, with the walk's stack as a `seq` and the random pick as an arbitrary choice (`:|`). Their specification lives in module `MazeWalk` (`maze_walk.dfy`):
  - the options of a cell;
  - the loop invariant of the walk and the lemmas that carry it across a pop and a carving step;
  - the predicate `Walked` that the walk establishes;
  - the shape of the finished maze: walls kept, every inner cell empty or floor, the cells the walk stood on exactly the odd cells, joined into a tree by corridors.
- **Level grid** (`src/game.rs`, the tile and level part), module `Game` in `game.dfy`. `Level` is a class over a row-major `array<Tile>`, indexed two ways: `level[row]` gives a row slice (`Row`, `SetInRow`) and `level[(i, j)]` gives a cell (`Cell`, `SetCell`). `View()` is the level's value as a `Grid` of rows, which the maze specifications are stated over. Walkability is `Tile.CanWalk` and `Level.CanWalk`.
- **Movement** (`src/action.rs`), module `Actions` in `action.dfy`. The two implementations of the `Action` trait are the two variants of one datatype. `Perform` moves an `Actor` one cell if the target is walkable.
- **Vector arithmetic** (`src/math.rs`), module `Math` in `math.dfy`. `Vec2<i32>` with componentwise `+ - * /`. Rust panics on a division by zero, and, in a debug build, when an `i32` operation overflows (a release build wraps). Each operator requires exactly the condition under which a debug build does not panic. `/` truncates toward zero and is modelled as such.

Cells are `(column, row)` pairs (the type `MazeWalk.Pos`), as in the source's `level[j][i]` with `i` the column. A write to the two cells of one carving step is the method `Maze.Dig`, which `DepthFirstWalk` calls in place of the two inline writes of the source.

The source asks nothing of `Maze::new`'s dimensions. It panics on anything smaller than 3 by 3, so `NewMaze` requires at least that.

## Model

| member | source | states |
|---|---|---|
| Maze.NewMaze | src/maze.rs:12-17 | the result is a fresh `width` by `height` level whose ring is all wall and whose inner cells are empty or floor; the cells the walk stood on are exactly the odd inner cells, each floor and with no option left; they form a tree rooted at (1, 1) whose corridors are the only other floor cells; the floor count is `2 * nodes - 1` |
| Maze.FillPerimeter | src/maze.rs:19-31 | every cell of row 0, row `height - 1`, column 0 and column `width - 1` becomes a wall and every other cell keeps its tile; requires the dimensions under which the Rust loops do not panic |
| Maze.GenerateOptions | src/maze.rs:68-77 | the list is `Options` of the cell (see `MazeWalk.OptionsSpec`), given reads that stay in bounds |
| Maze.Dig | src/maze.rs:53-59 | writing floor to the adjacent cell and then to the cell beyond turns the level into `Carve` of the old grid, and the far cell is returned |
| Maze.DepthFirstWalk | src/maze.rs:33-66 | from a walled grid and an inner start the walk terminates, measured by (empty cells, stack size), and leaves a grid satisfying `Walked` against the grid it started from |
| MazeWalk.OptionsSpec | src/maze.rs:68-77 | a direction is listed iff it is a cardinal step whose adjacent cell and cell beyond are both `Empty`; the list is in left, right, up, down order, has no duplicates and at most 4 entries |
| MazeWalk.OptionListSpec | src/maze.rs:69-76 | the four conditional pushes hold exactly the directions whose test passed, ranked in push order |
| MazeWalk.ReadsDecideOptions | src/maze.rs:71-74 | when `ReadsInBounds` holds, each of the eight reads lies in the grid, and each `&&` pair is true exactly when the step in its direction is possible |
| MazeWalk.WalledInteriorReadsInBounds | src/maze.rs:71-74 | at an inner cell of a walled grid, a neighbour on the ring is a wall, so the short-circuit skips the read two cells out and no index leaves the grid |
| MazeWalk.NodeReadsInBounds | src/maze.rs:45 | every cell on the walk's stack is one where listing the options reads in bounds |
| MazeWalk.StepGeometry | src/maze.rs:54-55 | a step's far cell is two cells away in one axis and has the start's parity, and the adjacent cell lies between them |
| MazeWalk.ParityTransitive | src/maze.rs:62 | sharing parity is transitive, so every pushed cell keeps the start's parity |
| MazeWalk.ParityOfOne | src/maze.rs:15 | the cells with the parity of (1, 1) are exactly the cells with odd coordinates |
| MazeWalk.OptionIsStep | src/maze.rs:52-55 | a listed option is a cardinal step the walk may take, and both cells it writes lie in the grid |
| MazeWalk.NoneListed | src/maze.rs:47 | an empty option list means no step is possible from the cell |
| MazeWalk.TileAtSet | src/maze.rs:24-29 | writing one cell changes that cell and leaves every other cell as it was |
| MazeWalk.CountAfterSet | src/maze.rs:58-59 | writing one cell moves one tile from the count of the kind replaced to the count of the kind written |
| MazeWalk.CarveCells | src/maze.rs:58-59 | a carving step floors exactly the adjacent cell and the cell beyond |
| MazeWalk.CarveCounts | src/maze.rs:58-59 | a carving step removes two `Empty` cells and adds two floor cells |
| MazeWalk.NoOptionsPersist | src/maze.rs:41-49 | a cell with no options keeps none, because cells only stop being `Empty` |
| MazeWalk.WalkStart | src/maze.rs:34-39 | flooring the start cell and pushing it establishes the loop invariant |
| MazeWalk.WalkPop | src/maze.rs:42-47 | popping a cell that has no options keeps the invariant |
| MazeWalk.WalkCarve | src/maze.rs:47-62 | carving along a listed option from the top of the stack and pushing the far cell keeps the invariant and uses up two `Empty` cells |
| MazeWalk.CarveKeepsGrid | src/maze.rs:58-59 | carving keeps the ring walled and changes only `Empty` cells, to floor |
| MazeWalk.CarveKeepsNodes | src/maze.rs:58-62 | the pushed cell is a new inner floor cell with the start's parity |
| MazeWalk.CarveKeepsSettled | src/maze.rs:41-62 | every node off the stack still has no options |
| MazeWalk.CarveKeepsTree | src/maze.rs:58-62 | the new node hangs off the current cell through the floored cell between them, so the nodes stay a tree |
| MazeWalk.CarveKeepsCorridors | src/maze.rs:58-59 | every changed cell that is not a node is still the corridor between a node and its parent |
| MazeWalk.WalkEnd | src/maze.rs:41 | with the stack empty the invariant is the walk's outcome `Walked` |
| MazeWalk.WallsKept | src/maze.rs:12-17 | after the walk over walls round an empty interior the ring is still wall and every inner cell is empty or floor |
| MazeWalk.PremisesHold | src/maze.rs:12-17 | the outcome of the walk from (1, 1) gives the facts the coverage argument needs |
| MazeWalk.CoversOddCell | src/maze.rs:12-17 | every odd inner cell is one the walk stood on: the carve leaves no pocket unreached |
| MazeWalk.MazeShape | src/maze.rs:12-17 | the nodes of the finished maze are exactly the odd inner cells; the ring is wall and inner cells are empty or floor |
| Game.Tile.CanWalk | src/game.rs:55-61 | false exactly for `Wall` and `Empty`; true for floor, door, ladder, pit, fire and ice |
| Game.Level.constructor | src/game.rs:71-79 | a fresh buffer of `width * height` tiles, every cell `EmptyTile` with colour (64, 64, 64, 255) |
| Game.Level.Row | src/game.rs:89-95 | `level[row]` has `width` tiles and is row `row` of the grid; requires the slice to lie in the buffer |
| Game.RowsSlice | src/game.rs:93-94 | row `r` is the buffer slice from `Idx(w, 0, r)` for `w` tiles |
| Game.IdxIsRowMajor | src/game.rs:109 | the buffer position of column `c` of row `r` is `r * width + c` |
| Game.IdxInjective | src/game.rs:115 | distinct in-range cells have distinct buffer positions |
| Game.Level.SetInRow | src/game.rs:98-102 | `level[row][col] = t` changes that one cell of the grid |
| Game.Level.SetCell | src/game.rs:113-116 | `level[(i, j)] = t` changes buffer position `j * width + i` only, and inside the grid the cell at column `i` of row `j` only |
| Game.RowsUpdate | src/game.rs:114-116 | writing one buffer position changes one tile of one row |
| Game.Level.Cell | src/game.rs:105-110 | `level[(i, j)]` reads buffer position `j * width + i`, checking only that position against the buffer; inside the grid it is the tile at column `i` of row `j` |
| Game.IndexSchemesAgree | src/game.rs:92-95 | `level[j][i]`, `level[(i, j)]` and the grid's cell at column `i`, row `j` are the same tile |
| Game.BufferCell | src/game.rs:108-110 | tile `c` of row `r` is the buffer's tile at position `Idx(w, c, r)` |
| Game.CellWrapsToNextRow | src/game.rs:108-110 | `level[(width, j)]` is not caught as out of range and reads the first cell of row `j + 1` |
| Game.Level.CanWalk | src/game.rs:81-86 | true only for an in-bounds walkable tile; with dimensions that fit an `i32`, true exactly for those |
| Math.WrapI32 | src/game.rs:82-83 | `usize as i32` keeps values up to `i32::MAX` and never grows a value |
| Actions.Delta | src/action.rs:40-45 | each direction is one unit step: North (0, -1), South (0, 1), East (1, 0), West (-1, 0) |
| Actions.DeltaMovesOneCell | src/action.rs:40-45 | a step moves Manhattan distance exactly 1 |
| Actions.Action.Perform | src/action.rs:24-53 | a null action succeeds and leaves the actor where it is; a walk moves the actor to `old + delta` and succeeds iff that cell is walkable; otherwise it fails and the actor stays; on success the actor stands on an in-bounds walkable tile one cell away |
| Actions.Action.CloneDyn | src/action.rs:21-36 | cloning gives the same action: a null action stays null and a walk keeps its direction |
| Math.Add | src/math.rs:13-19 | componentwise `a + b`, defined exactly when neither component overflows an `i32`; subtracting `b` from the result gives back `a` |
| Math.Sub | src/math.rs:21-27 | componentwise `a - b`, defined exactly when neither component overflows an `i32`; adding `b` back to the result gives `a` exactly |
| Math.Mul | src/math.rs:29-35 | componentwise `a * b`, defined exactly when neither component overflows an `i32`; when `b` has no zero component, dividing the result by `b` does not panic and gives back `a` |
| Math.ProductQuotient | src/math.rs:41 | truncating division undoes a multiplication: `(n * d) / d == n` for every nonzero `d` |
| Math.AddCommutes | src/math.rs:16-18 | `+` is commutative |
| Math.UnitScaling | src/math.rs:32-42 | `*` and `/` by (1, 1) are the identity |
| Math.Div | src/math.rs:40-42 | each component is the truncating quotient of Rust's `/` |
| Math.DivI32 | src/math.rs:41 | the `i32` quotient equals the truncating quotient |
| Math.QuotientFits | src/math.rs:41 | the quotient fits an `i32` unless the division is `i32::MIN / -1` |
| Math.TruncDivSpec | src/math.rs:41 | truncating division: the remainder is smaller than the divisor and takes the dividend's sign, and the quotient's magnitude times the divisor's is at most the dividend's |
| Math.TruncationDiffersFromEuclid | src/math.rs:41 | Rust's `-7 / 2` is -3 where Dafny's Euclidean `/` gives -4 |

## Left out

- Rendering and the game loop (`Game::new`, `update`, `draw`, `draw_object`, `src/main.rs`): these are SDL calls and I/O.
- `Maze::find_spawn`: it is called in `src/game.rs` but not defined in the code.
- Rooms, region labelling, region connection and dead-end pruning: none of these exist in the code.
- `src/hero.rs`, `src/monster.rs`, `src/actor.rs`, `src/drawable.rs`: the actor is reduced to a class holding the position that `WalkAction::perform` reads and writes.
- `Vec2<f32>` (`_Vec2f`): floating point.
- Randomness: `gen_range(0, len)` is an arbitrary index in `[0, len)`. No distribution is modelled.
- Math.Add, Math.Sub, Math.Mul: `i32` overflow is a precondition. The debug-build panic is not modelled as an outcome, and neither is the release-build wrap-around.
- `usize` overflow of `width * height` and of `width * row`: the model's integers are unbounded.
- Game.Level.CanWalk: when a dimension exceeds `i32::MAX`, only the "walkable implies in bounds and walkable tile" direction is stated. The `as i32` cast is modelled, and the wrapped bound can be smaller than the dimension, so some in-bounds walkable cells are then reported as not walkable.
- The carving record (`MazeWalk.Carving`: nodes, parents, visit order, corridors) is ghost. The source keeps no such record; it exists only to state the tree shape.
- Maze.DepthFirstWalk, Maze.NewMaze: the tree, coverage and counting facts are stated over the level's value `View()`. Aliasing of the level's buffer with other objects is not modelled beyond the `modifies` frame.
- Colour values: only the constants the code writes are checked (empty, wall and floor tiles).
