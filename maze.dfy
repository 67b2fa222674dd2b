/** The maze carver: a level is walled round its edge and then carved by a
    randomized depth-first walk from cell (1, 1).

    The walk keeps an explicit stack of cells.  From the cell on top it
    looks in the four compass directions for a step whose adjacent cell and
    the cell beyond are both still `Empty`; it picks one at random, turns
    both cells into floor and pushes the far cell.  A cell with no such step
    is popped. */
module Maze {
  import opened Game
  import opened MazeWalk

  // ---------------------------------------------------------------------
  // Filling the perimeter

  /** The first `i` cells of the top and bottom rows of `g` are walls, and
      every other cell is as in `g0`. */
  ghost predicate RowsWalled(g0: Grid, g: Grid, i: int)
    requires g0.Valid() && g.Valid() && g.width == g0.width && g.height == g0.height
  {
    forall c :: InGrid(g, c) ==>
      TileAt(g, c) == if (c.1 == 0 || c.1 == g.height - 1) && c.0 < i then WallTile else TileAt(g0, c)
  }

  /** The top and bottom rows and the first `j` rows of the left and right
      columns of `g` are walls, and every other cell is as in `g0`. */
  ghost predicate ColumnsWalled(g0: Grid, g: Grid, j: int)
    requires g0.Valid() && g.Valid() && g.width == g0.width && g.height == g0.height
  {
    forall c :: InGrid(g, c) ==>
      TileAt(g, c)
        == if c.1 == 0 || c.1 == g.height - 1 || ((c.0 == 0 || c.0 == g.width - 1) && c.1 < j)
           then WallTile else TileAt(g0, c)
  }

  /** Walls the outer ring of the level.  Rust panics (row `height - 1`
      underflows, or a column-0 write into an empty row) unless the level
      has a row and, when it has rows between the first and the last, a
      column. */
  method FillPerimeter(level: Level)
    requires level.Valid() && 1 <= level.height && (3 <= level.height ==> 1 <= level.width)
    modifies level.grid
    ensures forall c :: InGrid(level.View(), c) ==>
      TileAt(level.View(), c) == if OnPerimeter(level.View(), c) then WallTile else TileAt(old(level.View()), c)
  {
    var height := level.height;
    var width := level.width;
    ghost var g0 := level.View();
    for i := 0 to width
      invariant RowsWalled(g0, level.View(), i)
    {
      TileAtSet(level.View(), i, 0, WallTile);
      level.SetInRow(0, i, WallTile);
      TileAtSet(level.View(), i, height - 1, WallTile);
      level.SetInRow(height - 1, i, WallTile);
    }
    var j := 1;
    while j < height - 1
      invariant 1 <= j && (2 <= height ==> j <= height - 1)
      invariant ColumnsWalled(g0, level.View(), j)
    {
      TileAtSet(level.View(), 0, j, WallTile);
      level.SetInRow(j, 0, WallTile);
      TileAtSet(level.View(), width - 1, j, WallTile);
      level.SetInRow(j, width - 1, WallTile);
      j := j + 1;
    }
  }

  // ---------------------------------------------------------------------
  // Listing the options of a cell

  /** `generate_options`: lists the options of `(i, j)`.  The second test of
      each `&&` is skipped when the first fails, which is what keeps the
      reads in bounds next to the walls. */
  method GenerateOptions(level: Level, i: nat, j: nat) returns (v: seq<Step>)
    requires level.Valid() && ReadsInBounds(level.View(), (i, j))
    ensures v == Options(level.View(), (i, j))
  {
    ghost var g, c := level.View(), (i, j);
    ReadsDecideOptions(g, i, j);
    assert level.Row(j) == g.rows[j] && level.Row(j - 1) == g.rows[j - 1] && level.Row(j + 1) == g.rows[j + 1];
    v := [];
    if level.Row(j)[i - 1].tileType == Empty && level.Row(j)[i - 2].tileType == Empty {
      v := v + [Left];
    }
    assert v == PushIf([], CanStep(g, c, Left), Left);
    if level.Row(j)[i + 1].tileType == Empty && level.Row(j)[i + 2].tileType == Empty {
      v := v + [Right];
    }
    assert v == PushIf(PushIf([], CanStep(g, c, Left), Left), CanStep(g, c, Right), Right);
    if level.Row(j - 1)[i].tileType == Empty && level.Row(j - 2)[i].tileType == Empty {
      v := v + [Up];
    }
    assert v == PushIf(PushIf(PushIf([], CanStep(g, c, Left), Left), CanStep(g, c, Right), Right), CanStep(g, c, Up), Up);
    if level.Row(j + 1)[i].tileType == Empty && level.Row(j + 2)[i].tileType == Empty {
      v := v + [Down];
    }
  }

  // ---------------------------------------------------------------------
  // The walk

  /** One carving step of `depth_first_walk`: floors the cell next to
      `(x, y)` in the direction of `step`, then the cell beyond it, which it
      returns. */
  method Dig(level: Level, x: nat, y: nat, step: Step) returns (nextCell: Pos)
    requires level.Valid() && step in Options(level.View(), (x, y))
    modifies level.grid
    ensures level.Valid() && level.View() == Carve(old(level.View()), (x, y), step)
    ensures nextCell == Beyond((x, y), step)
  {
    ghost var g := level.View();
    OptionIsStep(g, (x, y), step);
    var nextWall := (x + step.0, y + step.1);
    nextCell := (x + step.0 * 2, y + step.1 * 2);
    CarveWrites(g, (x, y), step, nextWall.0, nextWall.1, nextCell.0, nextCell.1);
    IdxInBounds(g.width, g.height, nextWall.0, nextWall.1);
    level.SetCell(nextWall.0, nextWall.1, FloorTile);
    IdxInBounds(g.width, g.height, nextCell.0, nextCell.1);
    level.SetCell(nextCell.0, nextCell.1, FloorTile);
  }

  /** The depth-first carve from `(i, j)`.  The random pick among the
      options is an arbitrary one. */
  method DepthFirstWalk(level: Level, i: nat, j: nat) returns (ghost t: Carving)
    requires level.Valid() && Walled(level.View()) && Interior(level.View(), (i, j))
    modifies level.grid
    ensures Walked(old(level.View()), level.View(), (i, j), t)
  {
    ghost var g0 := level.View();
    var stack: seq<Pos> := [(i, j)];
    level.SetInRow(j, i, FloorTile);
    ghost var g := level.View();
    t := Carving({(i, j)}, map[], map[(i, j) := 0], map[]);
    WalkStart(g0, (i, j));

    while stack != []
      invariant level.View() == g
      invariant WalkInv(g0, (i, j), g, stack, t)
      decreases Count(g, Empty), |stack|
    {
      ghost var before := stack;
      var (x, y) := stack[|stack| - 1];
      stack := stack[..|stack| - 1];
      NodeReadsInBounds(g0, (i, j), g, before, t, (x, y));

      var nextCells := GenerateOptions(level, x, y);

      if |nextCells| != 0 {
        stack := stack + [(x, y)];
        PopPush(before);

        var nextId :| 0 <= nextId < |nextCells|;
        var step := nextCells[nextId];
        var nextCell := Dig(level, x, y, step);

        WalkCarve(g0, (i, j), g, stack, t, (x, y), step);
        stack := stack + [nextCell];
        g, t := level.View(), Extend(t, (x, y), step);
      } else {
        NoneListed(g, (x, y));
        WalkPop(g0, (i, j), g, before, t);
      }
    }
    WalkEnd(g0, (i, j), g, t);
  }

  // ---------------------------------------------------------------------
  // The whole maze

  /** `Maze::new`: a `width` by `height` level, walled round the edge and
      carved from (1, 1).  Rust panics on anything smaller than 3 by 3. */
  method NewMaze(width: nat, height: nat) returns (level: Level, ghost t: Carving)
    requires 3 <= width && 3 <= height
    ensures fresh(level) && fresh(level.grid)
    ensures level.Valid() && level.width == width && level.height == height
    ensures forall c :: InGrid(level.View(), c) && OnPerimeter(level.View(), c) ==> TileAt(level.View(), c) == WallTile
    ensures forall c :: Interior(level.View(), c) ==>
      TileAt(level.View(), c) == EmptyTile || TileAt(level.View(), c) == FloorTile
    ensures t.nodes == OddCells(width, height)
    ensures forall n :: n in t.nodes ==> TileAt(level.View(), n) == FloorTile && NoOptions(level.View(), n)
    ensures TreeShaped(level.View(), (1, 1), t)
    ensures forall c :: Interior(level.View(), c) && TileAt(level.View(), c) == FloorTile && c !in t.nodes ==>
      c in t.corridor && t.corridor[c] in t.nodes && t.corridor[c] != (1, 1)
      && t.corridor[c] in t.parent && c == Mid(t.corridor[c], t.parent[t.corridor[c]])
    ensures Count(level.View(), Floor) == 2 * |t.nodes| - 1
  {
    level := new Level(width, height);
    ghost var empty := level.View();
    FillPerimeter(level);
    ghost var g0 := level.View();
    forall c | InGrid(g0, c)
      ensures TileAt(g0, c) == if OnPerimeter(g0, c) then WallTile else EmptyTile
    {
      assert TileAt(empty, c) == EmptyTile;
    }
    assert Walled(g0);
    t := DepthFirstWalk(level, 1, 1);
    ghost var g := level.View();
    MazeShape(g0, g, t);
    forall c | Interior(g, c) && TileAt(g, c) == FloorTile && c !in t.nodes
      ensures c in t.corridor && t.corridor[c] in t.nodes && t.corridor[c] != (1, 1)
              && t.corridor[c] in t.parent && c == Mid(t.corridor[c], t.parent[t.corridor[c]])
    {
      assert InGrid(g0, c) && TileAt(g0, c) == EmptyTile;
    }
    CountNoneInGrid(g0, Floor);
  }
}
