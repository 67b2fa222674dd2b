/** The maze carver's specification: the geometry of the walk's steps,
    the grid predicates and tile counts it is stated in, the options of a
    cell, the walk's loop invariant with the lemmas that carry it from one
    step to the next, and the shape of a finished maze.

    Steps are two cells long, so the cells the walk stands on (its nodes)
    keep the parity of the start, and the cells in between are the
    corridors that join a node to the node it was reached from. */
module MazeWalk {
  import opened Game

  /** A cell as (column, row). */
  type Pos = (int, int)

  /** A unit step (column offset, row offset). */
  type Step = (int, int)

  const WallTile: Tile := Tile(Wall, Colour(0, 0, 0, 255))
  const FloorTile: Tile := Tile(Floor, Colour(128, 128, 128, 255))

  const Left: Step := (-1, 0)
  const Right: Step := (1, 0)
  const Up: Step := (0, -1)
  const Down: Step := (0, 1)

  /** The directions in the order the options are listed. */
  const Cardinals: seq<Step> := [Left, Right, Up, Down]

  /** Position of a direction in `Cardinals`. */
  function Rank(d: Step): (k: nat)
    requires d in Cardinals
    ensures k < |Cardinals| && Cardinals[k] == d
  {
    if d == Left then 0 else if d == Right then 1 else if d == Up then 2 else 3
  }

  function Neighbour(c: Pos, d: Step): Pos { (c.0 + d.0, c.1 + d.1) }

  function Beyond(c: Pos, d: Step): Pos { (c.0 + d.0 * 2, c.1 + d.1 * 2) }

  /** The coordinate one unit from `x` towards `y`. */
  function Toward(x: int, y: int): int { if x < y then x + 1 else if y < x then x - 1 else x }

  /** The cell between two cells that are two apart. */
  function Mid(a: Pos, b: Pos): Pos { (Toward(a.0, b.0), Toward(a.1, b.1)) }

  /** A step of the walk: the far cell is two away, the adjacent cell lies
      between, and parity is kept. */
  lemma StepGeometry(c: Pos, d: Step)
    requires d in Cardinals
    ensures TwoApart(Beyond(c, d), c) && Mid(Beyond(c, d), c) == Neighbour(c, d)
    ensures Neighbour(c, d) != Beyond(c, d) && SameParity(Beyond(c, d), c)
  {
    var k := Rank(d);
    assert d == Left || d == Right || d == Up || d == Down;
  }

  /** Two cells one step of the walk apart. */
  predicate TwoApart(a: Pos, b: Pos) {
    (a.1 == b.1 && (a.0 - b.0 == 2 || b.0 - a.0 == 2))
    || (a.0 == b.0 && (a.1 - b.1 == 2 || b.1 - a.1 == 2))
  }

  predicate SameParity(a: Pos, b: Pos) {
    (a.0 - b.0) % 2 == 0 && (a.1 - b.1) % 2 == 0
  }

  /** The cells with the parity of (1, 1) are the odd cells. */
  lemma ParityOfOne(a: Pos)
    ensures SameParity(a, (1, 1)) <==> Odd(a)
  {
  }

  lemma ParityTransitive(a: Pos, b: Pos, c: Pos)
    requires SameParity(a, b) && SameParity(b, c)
    ensures SameParity(a, c)
  {
    assert a.0 - c.0 == (a.0 - b.0) + (b.0 - c.0);
    assert a.1 - c.1 == (a.1 - b.1) + (b.1 - c.1);
  }

  predicate Odd(c: Pos) { c.0 % 2 == 1 && c.1 % 2 == 1 }

  predicate InGrid(g: Grid, c: Pos) { g.InBounds(c.0, c.1) }

  function TileAt(g: Grid, c: Pos): Tile
    requires g.Valid() && InGrid(g, c)
  {
    g.At(c.0, c.1)
  }

  predicate OnPerimeter(g: Grid, c: Pos) {
    c.0 == 0 || c.1 == 0 || c.0 == g.width - 1 || c.1 == g.height - 1
  }

  predicate Interior(g: Grid, c: Pos) {
    1 <= c.0 < g.width - 1 && 1 <= c.1 < g.height - 1
  }

  /** Every cell of the outer ring is a wall. */
  ghost predicate Walled(g: Grid)
    requires g.Valid()
  {
    forall c :: InGrid(g, c) && OnPerimeter(g, c) ==> TileAt(g, c).tileType == Wall
  }

  ghost predicate IsEmptyAt(g: Grid, c: Pos)
    requires g.Valid()
  {
    InGrid(g, c) && TileAt(g, c).tileType == Empty
  }

  /** The walk may step from `c` in direction `d`. */
  ghost predicate CanStep(g: Grid, c: Pos, d: Step)
    requires g.Valid()
  {
    IsEmptyAt(g, Neighbour(c, d)) && IsEmptyAt(g, Beyond(c, d))
  }

  ghost predicate NoOptions(g: Grid, c: Pos)
    requires g.Valid()
  {
    !CanStep(g, c, Left) && !CanStep(g, c, Right) && !CanStep(g, c, Up) && !CanStep(g, c, Down)
  }

  /** Exactly what listing the options of `c` reads without going out of
      bounds: the four neighbours always, and a cell two away only when the
      neighbour on that side is `Empty` (the second test of each `&&` is
      skipped otherwise). */
  ghost predicate ReadsInBounds(g: Grid, c: Pos)
    requires g.Valid()
  {
    && 1 <= c.0 && c.0 + 1 < g.width && 1 <= c.1 && c.1 + 1 < g.height
    && (TileAt(g, Neighbour(c, Left)).tileType == Empty ==> 2 <= c.0)
    && (TileAt(g, Neighbour(c, Right)).tileType == Empty ==> c.0 + 2 < g.width)
    && (TileAt(g, Neighbour(c, Up)).tileType == Empty ==> 2 <= c.1)
    && (TileAt(g, Neighbour(c, Down)).tileType == Empty ==> c.1 + 2 < g.height)
  }

  /** The walled ring is what keeps every read in bounds: a neighbour on
      the ring is a wall, so the cell beyond it is never read. */
  lemma WalledInteriorReadsInBounds(g: Grid, c: Pos)
    requires g.Valid() && Walled(g) && Interior(g, c)
    ensures ReadsInBounds(g, c)
  {
    assert OnPerimeter(g, Neighbour(c, Left)) ==> TileAt(g, Neighbour(c, Left)).tileType == Wall;
    assert OnPerimeter(g, Neighbour(c, Right)) ==> TileAt(g, Neighbour(c, Right)).tileType == Wall;
    assert OnPerimeter(g, Neighbour(c, Up)) ==> TileAt(g, Neighbour(c, Up)).tileType == Wall;
    assert OnPerimeter(g, Neighbour(c, Down)) ==> TileAt(g, Neighbour(c, Down)).tileType == Wall;
  }

  /** An empty cell of a walled grid is off the ring. */
  lemma EmptyIsInterior(g: Grid, c: Pos)
    requires g.Valid() && Walled(g) && IsEmptyAt(g, c)
    ensures Interior(g, c)
  {
    assert !OnPerimeter(g, c);
  }

  /** Writing one cell changes that cell and no other. */
  lemma TileAtSet(g: Grid, x: nat, y: nat, t: Tile)
    requires g.Valid() && x < g.width && y < g.height
    ensures forall c :: InGrid(g, c) ==> TileAt(g.Set(x, y, t), c) == if c.0 == x && c.1 == y then t else TileAt(g, c)
  {
  }

  /** Number of tiles of kind `k` in a row. */
  function CountOf(tiles: seq<Tile>, k: TileType): (n: nat)
    ensures n <= |tiles|
  {
    if tiles == [] then 0
    else (if tiles[0].tileType == k then 1 else 0) + CountOf(tiles[1..], k)
  }

  function CountRows(rows: seq<seq<Tile>>, k: TileType): nat {
    if rows == [] then 0 else CountOf(rows[0], k) + CountRows(rows[1..], k)
  }

  /** Number of tiles of kind `k` in the grid. */
  function Count(g: Grid, k: TileType): nat { CountRows(g.rows, k) }

  /** Overwriting one tile changes each count by at most the tile replaced
      and the tile written. */
  lemma {:induction false} CountSet(tiles: seq<Tile>, i: nat, t: Tile, k: TileType)
    requires i < |tiles|
    ensures CountOf(tiles[i := t], k)
         == CountOf(tiles, k) - (if tiles[i].tileType == k then 1 else 0)
                              + (if t.tileType == k then 1 else 0)
  {
    if i == 0 {
      assert tiles[i := t][1..] == tiles[1..];
    } else {
      assert tiles[i := t][1..] == tiles[1..][i - 1 := t];
      CountSet(tiles[1..], i - 1, t, k);
    }
  }

  lemma {:induction false} CountRowsSet(rows: seq<seq<Tile>>, r: nat, c: nat, t: Tile, k: TileType)
    requires r < |rows| && c < |rows[r]|
    ensures CountRows(rows[r := rows[r][c := t]], k)
         == CountRows(rows, k) - (if rows[r][c].tileType == k then 1 else 0)
                               + (if t.tileType == k then 1 else 0)
  {
    if r == 0 {
      assert rows[r := rows[r][c := t]][1..] == rows[1..];
      CountSet(rows[0], c, t, k);
    } else {
      assert rows[r := rows[r][c := t]][1..] == rows[1..][r - 1 := rows[r][c := t]];
      CountRowsSet(rows[1..], r - 1, c, t, k);
    }
  }

  /** Writing one cell moves one tile between the counts of two kinds. */
  lemma CountAfterSet(g: Grid, c: Pos, t: Tile, k: TileType)
    requires g.Valid() && InGrid(g, c)
    ensures Count(g.Set(c.0, c.1, t), k)
         == Count(g, k) - (if TileAt(g, c).tileType == k then 1 else 0) + (if t.tileType == k then 1 else 0)
  {
    CountRowsSet(g.rows, c.1, c.0, t, k);
  }

  lemma {:induction false} CountNone(tiles: seq<Tile>, k: TileType)
    requires forall i :: 0 <= i < |tiles| ==> tiles[i].tileType != k
    ensures CountOf(tiles, k) == 0
  {
    if tiles != [] {
      assert tiles[0].tileType != k;
      CountNone(tiles[1..], k);
    }
  }

  lemma {:induction false} CountRowsNone(rows: seq<seq<Tile>>, k: TileType)
    requires forall r :: 0 <= r < |rows| ==> forall i :: 0 <= i < |rows[r]| ==> rows[r][i].tileType != k
    ensures CountRows(rows, k) == 0
  {
    if rows != [] {
      CountNone(rows[0], k);
      CountRowsNone(rows[1..], k);
    }
  }

  /** A grid with no tile of kind `k` counts none. */
  lemma CountNoneInGrid(g: Grid, k: TileType)
    requires g.Valid() && forall c :: InGrid(g, c) ==> TileAt(g, c).tileType != k
    ensures Count(g, k) == 0
  {
    forall r | 0 <= r < |g.rows| ensures forall i :: 0 <= i < |g.rows[r]| ==> g.rows[r][i].tileType != k {
      forall i | 0 <= i < |g.rows[r]| ensures g.rows[r][i].tileType != k {
        assert TileAt(g, (i, r)) == g.rows[r][i];
      }
    }
    CountRowsNone(g.rows, k);
  }

  // ---------------------------------------------------------------------
  // Listing the options of a cell

  /** The directions the walk may take from `c`, in the order left, right,
      up, down. */
  ghost function Options(g: Grid, c: Pos): seq<Step>
    requires g.Valid()
  {
    OptionList(CanStep(g, c, Left), CanStep(g, c, Right), CanStep(g, c, Up), CanStep(g, c, Down))
  }

  /** The list of the directions whose test passed, in the order of
      `Cardinals`. */
  function OptionList(l: bool, r: bool, u: bool, w: bool): seq<Step> {
    PushIf(PushIf(PushIf(PushIf([], l, Left), r, Right), u, Up), w, Down)
  }

  /** `v` with `d` pushed on the end if `ok` holds. */
  function PushIf(v: seq<Step>, ok: bool, d: Step): seq<Step> { if ok then v + [d] else v }

  /** The options are exactly the directions whose adjacent cell and the
      cell beyond are both `Empty`, listed in the order of `Cardinals`,
      each once. */
  lemma OptionsSpec(g: Grid, c: Pos)
    requires g.Valid()
    ensures forall d :: d in Options(g, c) <==> d in Cardinals && CanStep(g, c, d)
    ensures forall a, b :: 0 <= a < b < |Options(g, c)| ==> Rank(Options(g, c)[a]) < Rank(Options(g, c)[b])
    ensures |Options(g, c)| <= |Cardinals|
    ensures forall a, b :: 0 <= a < b < |Options(g, c)| ==> Options(g, c)[a] != Options(g, c)[b]
  {
    var l, r, u, w := CanStep(g, c, Left), CanStep(g, c, Right), CanStep(g, c, Up), CanStep(g, c, Down);
    OptionListSpec(l, r, u, w);
    forall d ensures d in Cardinals && CanStep(g, c, d) <==> (d == Left && l) || (d == Right && r) || (d == Up && u) || (d == Down && w) {
    }
  }

  /** The list built from four tests holds each direction whose test
      passed, in the order of `Cardinals`. */
  lemma OptionListSpec(l: bool, r: bool, u: bool, w: bool)
    ensures var v := OptionList(l, r, u, w);
      && (forall d :: d in v <==> (d == Left && l) || (d == Right && r) || (d == Up && u) || (d == Down && w))
      && (forall a, b :: 0 <= a < b < |v| ==> Rank(v[a]) < Rank(v[b]))
      && |v| <= |Cardinals|
  {
    var v1 := PushIf([], l, Left);
    PushIfRanked([], l, Left);
    var v2 := PushIf(v1, r, Right);
    PushIfRanked(v1, r, Right);
    var v3 := PushIf(v2, u, Up);
    PushIfRanked(v2, u, Up);
    PushIfRanked(v3, w, Down);
  }

  /** The directions of `v` are listed by rank and rank below `k`. */
  ghost predicate RankedBelow(v: seq<Step>, k: nat) {
    && (forall a :: 0 <= a < |v| ==> v[a] in Cardinals && Rank(v[a]) < k)
    && (forall a, b :: 0 <= a < b < |v| ==> Rank(v[a]) < Rank(v[b]))
    && |v| <= k
  }

  lemma PushIfRanked(v: seq<Step>, ok: bool, d: Step)
    requires d in Cardinals && RankedBelow(v, Rank(d))
    ensures RankedBelow(PushIf(v, ok, d), Rank(d) + 1)
    ensures forall e :: e in PushIf(v, ok, d) <==> e in v || (ok && e == d)
  {
  }

  /** Reading the adjacent cell `(c1, r1)` and, only if it is `Empty`, the
      cell beyond `(c2, r2)` decides whether the walk may step from `c` in
      direction `d`. */
  lemma ReadsDecideStep(g: Grid, c: Pos, d: Step, r1: nat, c1: nat, r2: int, c2: int)
    requires g.Valid() && ReadsInBounds(g, c)
    requires d == Left || d == Right || d == Up || d == Down
    requires c1 == c.0 + d.0 && r1 == c.1 + d.1 && c2 == c.0 + d.0 * 2 && r2 == c.1 + d.1 * 2
    ensures r1 < g.height && c1 < g.width
    ensures g.rows[r1][c1].tileType == Empty ==> 0 <= r2 < g.height && 0 <= c2 < g.width
    ensures (g.rows[r1][c1].tileType == Empty && g.rows[r2][c2].tileType == Empty) == CanStep(g, c, d)
  {
    assert Neighbour(c, d) == (c1, r1) && Beyond(c, d) == (c2, r2);
  }

  /** The four pairs of reads of `generate_options` at `(i, j)` stay in
      the grid, and each pair decides one direction. */
  lemma ReadsDecideOptions(g: Grid, i: nat, j: nat)
    requires g.Valid() && ReadsInBounds(g, (i, j))
    ensures 1 <= i && i + 1 < g.width && 1 <= j && j + 1 < g.height
    ensures g.rows[j][i - 1].tileType == Empty ==> 2 <= i
    ensures g.rows[j][i + 1].tileType == Empty ==> i + 2 < g.width
    ensures g.rows[j - 1][i].tileType == Empty ==> 2 <= j
    ensures g.rows[j + 1][i].tileType == Empty ==> j + 2 < g.height
    ensures CanStep(g, (i, j), Left) == (g.rows[j][i - 1].tileType == Empty && g.rows[j][i - 2].tileType == Empty)
    ensures CanStep(g, (i, j), Right) == (g.rows[j][i + 1].tileType == Empty && g.rows[j][i + 2].tileType == Empty)
    ensures CanStep(g, (i, j), Up) == (g.rows[j - 1][i].tileType == Empty && g.rows[j - 2][i].tileType == Empty)
    ensures CanStep(g, (i, j), Down) == (g.rows[j + 1][i].tileType == Empty && g.rows[j + 2][i].tileType == Empty)
  {
    var c := (i, j);
    ReadsDecideStep(g, c, Left, j, i - 1, j, i - 2);
    ReadsDecideStep(g, c, Right, j, i + 1, j, i + 2);
    ReadsDecideStep(g, c, Up, j - 1, i, j - 2, i);
    ReadsDecideStep(g, c, Down, j + 1, i, j + 2, i);
  }

  // ---------------------------------------------------------------------
  // The walk, as a relation between grids

  /** What the walk has built: the cells it stood on, the node each was
      reached from and when, and for each corridor cell the node it leads
      to. */
  datatype Carving = Carving(nodes: set<Pos>, parent: map<Pos, Pos>, order: map<Pos, nat>,
                             corridor: map<Pos, Pos>)

  /** Every cell keeps its tile, except that `Empty` cells (and the start)
      may have become floor. */
  ghost predicate CarvedOnly(g0: Grid, g: Grid, start: Pos)
    requires g0.Valid() && g.Valid() && g.width == g0.width && g.height == g0.height
  {
    forall c :: InGrid(g0, c) ==>
      TileAt(g, c) == TileAt(g0, c)
      || (TileAt(g, c) == FloorTile && (TileAt(g0, c).tileType == Empty || c == start))
  }

  ghost predicate NodeOk(g: Grid, start: Pos, t: Carving, n: Pos)
    requires g.Valid()
  {
    Interior(g, n) && SameParity(n, start) && TileAt(g, n) == FloorTile
    && n in t.order && t.order[n] < |t.nodes|
  }

  ghost predicate NodesOk(g: Grid, start: Pos, t: Carving)
    requires g.Valid()
  {
    forall n :: n in t.nodes ==> NodeOk(g, start, t, n)
  }

  /** A node off the stack has no options left. */
  ghost predicate Settled(g: Grid, stack: seq<Pos>, t: Carving)
    requires g.Valid()
  {
    forall n {:trigger NoOptions(g, n)} :: n in t.nodes ==> n in stack || NoOptions(g, n)
  }

  /** Each node but the start was reached from an earlier node two cells
      away, through a floor cell: the nodes form a tree rooted at the start. */
  ghost predicate TreeShaped(g: Grid, root: Pos, t: Carving)
    requires g.Valid()
  {
    forall n {:trigger t.parent[n]} :: n in t.nodes && n != root ==>
      && n in t.parent && t.parent[n] in t.nodes && TwoApart(n, t.parent[n])
      && n in t.order && t.parent[n] in t.order && t.order[t.parent[n]] < t.order[n]
      && InGrid(g, Mid(n, t.parent[n])) && TileAt(g, Mid(n, t.parent[n])) == FloorTile
  }

  /** Every cell the walk changed and did not stand on is the corridor
      between some node and its parent. */
  ghost predicate CorridorsOnly(g0: Grid, g: Grid, root: Pos, t: Carving)
    requires g0.Valid() && g.Valid() && g.width == g0.width && g.height == g0.height
  {
    forall c {:trigger t.corridor[c]} {:trigger c in t.corridor} :: InGrid(g0, c) && TileAt(g, c) != TileAt(g0, c) && c !in t.nodes ==>
      c in t.corridor && t.corridor[c] in t.nodes && t.corridor[c] != root
      && t.corridor[c] in t.parent && c == Mid(t.corridor[c], t.parent[t.corridor[c]])
  }

  /** The loop invariant of the walk, over the grid `g0` it started from. */
  ghost predicate WalkInv(g0: Grid, start: Pos, g: Grid, stack: seq<Pos>, t: Carving)
    requires g0.Valid()
  {
    SameShape(g0, g) && WalkState(g0, start, g, stack, t)
  }

  predicate SameShape(g0: Grid, g: Grid) {
    g.Valid() && g.width == g0.width && g.height == g0.height
  }

  /** The invariant proper: the grid is still walled and changed only by
      carving; the stack holds nodes; every node is a floor cell of the
      start's parity, and one off the stack has no options left; the nodes
      form a tree whose edges are the corridors; and the floor count grew
      by two per node. */
  ghost predicate WalkState(g0: Grid, start: Pos, g: Grid, stack: seq<Pos>, t: Carving)
    requires g0.Valid() && SameShape(g0, g)
  {
    && Walled(g)
    && InGrid(g0, start)
    && CarvedOnly(g0, g, start)
    && start in t.nodes
    && (forall c :: c in stack ==> c in t.nodes)
    && NodesOk(g, start, t)
    && Settled(g, stack, t)
    && TreeShaped(g, start, t)
    && CorridorsOnly(g0, g, start, t)
    && Count(g, Floor)
       == Count(g0, Floor) + 2 * (|t.nodes| - 1) + (if TileAt(g0, start).tileType == Floor then 0 else 1)
  }

  /** Marking the start as floor establishes the invariant. */
  lemma WalkStart(g0: Grid, start: Pos)
    requires g0.Valid() && Walled(g0) && Interior(g0, start)
    ensures WalkInv(g0, start, g0.Set(start.0, start.1, FloorTile), [start],
                    Carving({start}, map[], map[start := 0], map[]))
  {
    var g := g0.Set(start.0, start.1, FloorTile);
    var t := Carving({start}, map[], map[start := 0], map[]);
    forall c | InGrid(g, c) && OnPerimeter(g, c) ensures TileAt(g, c).tileType == Wall {
      assert TileAt(g0, c).tileType == Wall;
    }
    CountAfterSet(g0, start, FloorTile, Floor);
  }

  /** Popping a cell that has no options keeps the invariant. */
  lemma WalkPop(g0: Grid, start: Pos, g: Grid, stack: seq<Pos>, t: Carving)
    requires g0.Valid() && WalkInv(g0, start, g, stack, t)
    requires stack != [] && NoOptions(g, stack[|stack| - 1])
    ensures WalkInv(g0, start, g, stack[..|stack| - 1], t)
  {
    var rest := stack[..|stack| - 1];
    assert forall c :: c in stack ==> c in rest || c == stack[|stack| - 1];
  }

  /** The grid after carving from `cur` in direction `d`. */
  function Carve(g: Grid, cur: Pos, d: Step): (g': Grid)
    requires g.Valid() && InGrid(g, Neighbour(cur, d)) && InGrid(g, Beyond(cur, d))
    ensures g'.Valid() && g'.width == g.width && g'.height == g.height
  {
    var wall, next := Neighbour(cur, d), Beyond(cur, d);
    g.Set(wall.0, wall.1, FloorTile).Set(next.0, next.1, FloorTile)
  }

  /** Carving writes the adjacent cell, then the cell beyond. */
  lemma CarveWrites(g: Grid, cur: Pos, d: Step, wx: int, wy: int, nx: int, ny: int)
    requires g.Valid() && InGrid(g, (wx, wy)) && InGrid(g, (nx, ny))
    requires wx == cur.0 + d.0 && wy == cur.1 + d.1 && nx == cur.0 + d.0 * 2 && ny == cur.1 + d.1 * 2
    ensures Carve(g, cur, d) == g.Set(wx, wy, FloorTile).Set(nx, ny, FloorTile)
  {
  }

  /** Carving turns the two cells into floor and touches nothing else. */
  lemma CarveCells(g: Grid, cur: Pos, d: Step)
    requires g.Valid() && d in Cardinals && CanStep(g, cur, d)
    ensures forall c :: InGrid(g, c) ==>
      TileAt(Carve(g, cur, d), c) == if c == Neighbour(cur, d) || c == Beyond(cur, d) then FloorTile else TileAt(g, c)
  {
    var wall, next := Neighbour(cur, d), Beyond(cur, d);
    var g1 := g.Set(wall.0, wall.1, FloorTile);
    StepGeometry(cur, d);
  }

  /** Carving converts two `Empty` cells into floor. */
  lemma CarveCounts(g: Grid, cur: Pos, d: Step)
    requires g.Valid() && d in Cardinals && CanStep(g, cur, d)
    ensures Count(Carve(g, cur, d), Empty) == Count(g, Empty) - 2
    ensures Count(Carve(g, cur, d), Floor) == Count(g, Floor) + 2
  {
    var wall, next := Neighbour(cur, d), Beyond(cur, d);
    var g1 := g.Set(wall.0, wall.1, FloorTile);
    StepGeometry(cur, d);
    assert TileAt(g1, next) == TileAt(g, next);
    CountAfterSet(g, wall, FloorTile, Empty);
    CountAfterSet(g, wall, FloorTile, Floor);
    CountAfterSet(g1, next, FloorTile, Empty);
    CountAfterSet(g1, next, FloorTile, Floor);
  }

  /** A cell without options keeps having none, since cells only stop
      being `Empty`. */
  lemma NoOptionsPersist(g: Grid, g': Grid, n: Pos)
    requires g.Valid() && g'.Valid() && g'.width == g.width && g'.height == g.height
    requires forall c :: InGrid(g, c) && TileAt(g', c).tileType == Empty ==> TileAt(g, c).tileType == Empty
    requires NoOptions(g, n)
    ensures NoOptions(g', n)
  {
  }

  /** The grid-wide parts of the invariant survive a carving step. */
  lemma CarveKeepsGrid(g0: Grid, start: Pos, g: Grid, cur: Pos, d: Step)
    requires g0.Valid() && g.Valid() && g.width == g0.width && g.height == g0.height
    requires Walled(g) && CarvedOnly(g0, g, start)
    requires d in Cardinals && CanStep(g, cur, d)
    ensures Walled(Carve(g, cur, d)) && CarvedOnly(g0, Carve(g, cur, d), start)
    ensures forall c :: InGrid(g, c) && TileAt(Carve(g, cur, d), c).tileType == Empty ==> TileAt(g, c).tileType == Empty
  {
    CarveCells(g, cur, d);
  }

  /** The carving after stepping from `cur` in direction `d`. */
  function Extend(t: Carving, cur: Pos, d: Step): Carving {
    var next := Beyond(cur, d);
    Carving(t.nodes + {next}, t.parent[next := cur], t.order[next := |t.nodes|],
            t.corridor[Neighbour(cur, d) := next])
  }

  lemma CarveKeepsNodes(g: Grid, start: Pos, t: Carving, cur: Pos, d: Step)
    requires g.Valid() && Walled(g) && d in Cardinals && CanStep(g, cur, d)
    requires cur in t.nodes && NodesOk(g, start, t)
    ensures NodesOk(Carve(g, cur, d), start, Extend(t, cur, d))
    ensures |Extend(t, cur, d).nodes| == |t.nodes| + 1
  {
    var next := Beyond(cur, d);
    var g', t' := Carve(g, cur, d), Extend(t, cur, d);
    CarveCells(g, cur, d);
    EmptyIsInterior(g, next);
    StepGeometry(cur, d);
    assert next !in t.nodes;
    assert NodeOk(g, start, t, cur);
    ParityTransitive(next, cur, start);
    forall n | n in t'.nodes ensures NodeOk(g', start, t', n) {
      if n != next {
        assert NodeOk(g, start, t, n);
      }
    }
  }

  lemma CarveKeepsSettled(g: Grid, stack: seq<Pos>, t: Carving, cur: Pos, d: Step)
    requires g.Valid() && d in Cardinals && CanStep(g, cur, d) && Settled(g, stack, t)
    ensures Settled(Carve(g, cur, d), stack + [Beyond(cur, d)], Extend(t, cur, d))
  {
    var next := Beyond(cur, d);
    var g', t' := Carve(g, cur, d), Extend(t, cur, d);
    CarveCells(g, cur, d);
    forall n | n in t'.nodes ensures n in stack + [next] || NoOptions(g', n) {
      if n != next && n !in stack {
        NoOptionsPersist(g, g', n);
      }
    }
  }

  lemma CarveKeepsTree(g: Grid, start: Pos, t: Carving, cur: Pos, d: Step)
    requires g.Valid() && d in Cardinals && CanStep(g, cur, d)
    requires cur in t.nodes && NodesOk(g, start, t) && TreeShaped(g, start, t)
    ensures TreeShaped(Carve(g, cur, d), start, Extend(t, cur, d))
  {
    var wall, next := Neighbour(cur, d), Beyond(cur, d);
    var g', t' := Carve(g, cur, d), Extend(t, cur, d);
    CarveCells(g, cur, d);
    assert next !in t.nodes;
    StepGeometry(cur, d);
    assert NodeOk(g, start, t, cur);
    forall n | n in t'.nodes && n != start
      ensures && n in t'.parent && t'.parent[n] in t'.nodes && TwoApart(n, t'.parent[n])
              && n in t'.order && t'.parent[n] in t'.order && t'.order[t'.parent[n]] < t'.order[n]
              && InGrid(g', Mid(n, t'.parent[n])) && TileAt(g', Mid(n, t'.parent[n])) == FloorTile
    {
      if n != next {
        assert TileAt(g, Mid(n, t.parent[n])) == FloorTile;
      }
    }
  }

  lemma CarveKeepsCorridors(g0: Grid, g: Grid, start: Pos, t: Carving, cur: Pos, d: Step)
    requires g0.Valid() && g.Valid() && g.width == g0.width && g.height == g0.height
    requires d in Cardinals && CanStep(g, cur, d)
    requires start in t.nodes && NodesOk(g, start, t) && CorridorsOnly(g0, g, start, t)
    ensures CorridorsOnly(g0, Carve(g, cur, d), start, Extend(t, cur, d))
  {
    var wall, next := Neighbour(cur, d), Beyond(cur, d);
    var g', t' := Carve(g, cur, d), Extend(t, cur, d);
    CarveCells(g, cur, d);
    assert next !in t.nodes;
    StepGeometry(cur, d);
    forall c | InGrid(g0, c) && TileAt(g', c) != TileAt(g0, c) && c !in t'.nodes
      ensures && c in t'.corridor && t'.corridor[c] in t'.nodes && t'.corridor[c] != start
              && t'.corridor[c] in t'.parent && c == Mid(t'.corridor[c], t'.parent[t'.corridor[c]])
    {
      if c != wall {
        assert TileAt(g', c) == TileAt(g, c);
        assert t.corridor[c] != next;
      }
    }
  }

  /** Carving from the top of the stack keeps the invariant, with the new
      node pushed, and uses up two `Empty` cells. */
  lemma WalkCarve(g0: Grid, start: Pos, g: Grid, stack: seq<Pos>, t: Carving, cur: Pos, d: Step)
    requires g0.Valid() && WalkInv(g0, start, g, stack, t)
    requires stack != [] && cur == stack[|stack| - 1] && d in Options(g, cur)
    ensures WalkInv(g0, start, Carve(g, cur, d), stack + [Beyond(cur, d)], Extend(t, cur, d))
    ensures Count(Carve(g, cur, d), Empty) == Count(g, Empty) - 2
  {
    OptionIsStep(g, cur, d);
    assert cur in t.nodes;
    CarveCounts(g, cur, d);
    CarveKeepsGrid(g0, start, g, cur, d);
    CarveKeepsNodes(g, start, t, cur, d);
    CarveKeepsSettled(g, stack, t, cur, d);
    CarveKeepsTree(g, start, t, cur, d);
    CarveKeepsCorridors(g0, g, start, t, cur, d);
    assert forall c :: c in stack + [Beyond(cur, d)] ==> c in Extend(t, cur, d).nodes;
  }

  /** Listing the options of a node never reads out of bounds. */
  lemma NodeReadsInBounds(g0: Grid, start: Pos, g: Grid, stack: seq<Pos>, t: Carving, n: Pos)
    requires g0.Valid() && WalkInv(g0, start, g, stack, t) && n in t.nodes
    ensures ReadsInBounds(g, n)
  {
    assert NodeOk(g, start, t, n);
    WalledInteriorReadsInBounds(g, n);
  }

  // ---------------------------------------------------------------------
  // From listed options to steps

  /** A listed option is a step the walk may take; both cells it carves
      lie on the grid. */
  lemma OptionIsStep(g: Grid, c: Pos, d: Step)
    requires g.Valid() && d in Options(g, c)
    ensures d in Cardinals && CanStep(g, c, d)
    ensures InGrid(g, (c.0 + d.0, c.1 + d.1)) && InGrid(g, (c.0 + d.0 * 2, c.1 + d.1 * 2))
  {
  }

  /** No options listed means no step is possible. */
  lemma NoneListed(g: Grid, c: Pos)
    requires g.Valid() && |Options(g, c)| == 0
    ensures NoOptions(g, c)
  {
  }

  /** What the walk leaves behind, compared with the grid `g0` it started
      from: the ring is still walled, only `Empty` cells and the start
      changed, and they changed to floor; the nodes are floor cells of the
      start's parity, none with an option left; they form a tree whose
      edges are the corridors, which are the only other changed cells; and
      every node but the start added two floor tiles. */
  ghost predicate Walked(g0: Grid, g: Grid, start: Pos, t: Carving)
    requires g0.Valid() && g.Valid() && g.width == g0.width && g.height == g0.height
  {
    && Walled(g)
    && CarvedOnly(g0, g, start)
    && start in t.nodes
    && (forall n :: n in t.nodes ==> NodeOk(g, start, t, n) && NoOptions(g, n))
    && TreeShaped(g, start, t)
    && CorridorsOnly(g0, g, start, t)
    && InGrid(g0, start)
    && Count(g, Floor)
       == Count(g0, Floor) + 2 * (|t.nodes| - 1) + (if TileAt(g0, start).tileType == Floor then 0 else 1)
  }

  /** With the stack empty, the invariant is the outcome. */
  lemma WalkEnd(g0: Grid, start: Pos, g: Grid, t: Carving)
    requires g0.Valid() && WalkInv(g0, start, g, [], t)
    ensures Walked(g0, g, start, t)
  {
  }

  lemma PopPush<T>(s: seq<T>)
    requires s != []
    ensures s[..|s| - 1] + [s[|s| - 1]] == s
  {
  }

  // ---------------------------------------------------------------------
  // The whole maze

  /** The cells with odd column and odd row inside the walls. */
  function OddCells(width: nat, height: nat): set<Pos> {
    set c, r | 1 <= c < width - 1 && 1 <= r < height - 1 && c % 2 == 1 && r % 2 == 1 :: (c, r)
  }

  /** What the walk leaves behind on a walled grid that was otherwise empty,
      as seen from the finished grid. */
  ghost predicate CoverPremises(g: Grid, t: Carving)
    requires g.Valid()
  {
    && (1, 1) in t.nodes
    && (forall n :: n in t.nodes ==> Interior(g, n) && Odd(n) && TileAt(g, n).tileType == Floor)
    && (forall n {:trigger NoOptions(g, n)} :: n in t.nodes ==> NoOptions(g, n))
    && (forall c :: Interior(g, c) ==> TileAt(g, c).tileType == Empty || TileAt(g, c).tileType == Floor)
    && (forall c {:trigger t.corridor[c]} {:trigger c in t.corridor} :: Interior(g, c) && TileAt(g, c).tileType == Floor && c !in t.nodes ==>
          c in t.corridor && t.corridor[c] in t.nodes && t.corridor[c] in t.parent
          && t.parent[t.corridor[c]] in t.nodes && TwoApart(t.corridor[c], t.parent[t.corridor[c]])
          && c == Mid(t.corridor[c], t.parent[t.corridor[c]]))
  }

  /** A floor cell with odd coordinates is a node: a corridor cell always
      has one even coordinate. */
  lemma OddFloorIsNode(g: Grid, t: Carving, c: Pos)
    requires g.Valid() && CoverPremises(g, t)
    requires Interior(g, c) && Odd(c) && TileAt(g, c).tileType == Floor
    ensures c in t.nodes
  {
    if c !in t.nodes {
      var n := t.corridor[c];
      var p := t.parent[n];
      MidOfOddsIsNotOdd(n, p);
    }
  }

  /** The corridor between two odd cells has an even coordinate. */
  lemma MidOfOddsIsNotOdd(a: Pos, b: Pos)
    requires Odd(a) && Odd(b) && TwoApart(a, b)
    ensures !Odd(Mid(a, b))
  {
  }

  /** The corridor next to an odd cell, seen as the corridor between two
      odd cells two apart, joins that cell to the cell two steps on. */
  lemma CorridorJoins(p: Pos, d: Step, n: Pos, q: Pos)
    requires Odd(p) && Odd(n) && Odd(q) && TwoApart(n, q)
    requires (d == Right || d == Down) && Neighbour(p, d) == Mid(n, q)
    ensures Beyond(p, d) == n || Beyond(p, d) == q
  {
  }

  /** If a node has no options, the node two cells further in an in-bounds
      direction has been reached as well. */
  lemma StepCovers(g: Grid, t: Carving, p: Pos, d: Step)
    requires g.Valid() && CoverPremises(g, t)
    requires p in t.nodes && (d == Right || d == Down) && Interior(g, Beyond(p, d))
    ensures Beyond(p, d) in t.nodes
  {
    var m, b := Neighbour(p, d), Beyond(p, d);
    assert Odd(p) && Odd(b) && NoOptions(g, p);
    if b !in t.nodes {
      if TileAt(g, b).tileType == Floor {
        OddFloorIsNode(g, t, b);
        assert false;
      }
      if TileAt(g, m).tileType == Floor {
        assert !Odd(m);
        var n := t.corridor[m];
        CorridorJoins(p, d, n, t.parent[n]);
        assert false;
      }
      assert false;
    }
  }

  /** Every odd interior cell is reached from (1, 1): the walk leaves no
      pocket of the maze uncarved. */
  lemma {:induction false} CoversOddCell(g: Grid, t: Carving, c: Pos)
    requires g.Valid() && CoverPremises(g, t)
    requires Interior(g, c) && Odd(c)
    ensures c in t.nodes
    decreases c.0 + c.1
  {
    if c == (1, 1) {
    } else if c.0 > 1 {
      var p := (c.0 - 2, c.1);
      assert Odd(p);
      assert Interior(g, p);
      CoversOddCell(g, t, p);
      assert Beyond(p, Right) == c;
      StepCovers(g, t, p, Right);
    } else {
      var p := (c.0, c.1 - 2);
      CoversOddCell(g, t, p);
      assert Beyond(p, Down) == c;
      StepCovers(g, t, p, Down);
    }
  }

  /** Walls round an empty interior: the grid the walk starts from. */
  ghost predicate WalledEmpty(g0: Grid)
    requires g0.Valid()
  {
    forall c :: InGrid(g0, c) ==> TileAt(g0, c) == if OnPerimeter(g0, c) then WallTile else EmptyTile
  }

  /** The walk keeps the walls and leaves every inner cell empty or floor. */
  lemma WallsKept(g0: Grid, g: Grid)
    requires g0.Valid() && g.Valid() && g.width == g0.width && g.height == g0.height
    requires 3 <= g0.width && 3 <= g0.height && WalledEmpty(g0) && CarvedOnly(g0, g, (1, 1))
    ensures forall c :: InGrid(g, c) && OnPerimeter(g, c) ==> TileAt(g, c) == WallTile
    ensures forall c :: Interior(g, c) ==> TileAt(g, c) == EmptyTile || TileAt(g, c) == FloorTile
  {
    forall c | InGrid(g, c) && OnPerimeter(g, c) ensures TileAt(g, c) == WallTile {
      assert InGrid(g0, c) && TileAt(g0, c) == WallTile;
    }
    forall c | Interior(g, c) ensures TileAt(g, c) == EmptyTile || TileAt(g, c) == FloorTile {
      assert InGrid(g0, c) && !OnPerimeter(g0, c);
      assert TileAt(g0, c) == EmptyTile;
    }
  }

  /** A finished walk from (1, 1) over walls round an empty interior meets
      the premises of the coverage argument. */
  lemma PremisesHold(g0: Grid, g: Grid, t: Carving)
    requires g0.Valid() && g.Valid() && g.width == g0.width && g.height == g0.height
    requires 3 <= g0.width && 3 <= g0.height && WalledEmpty(g0) && Walked(g0, g, (1, 1), t)
    ensures CoverPremises(g, t)
  {
    forall n | n in t.nodes ensures Interior(g, n) && Odd(n) && TileAt(g, n).tileType == Floor {
      assert NodeOk(g, (1, 1), t, n);
      ParityOfOne(n);
    }
    WallsKept(g0, g);
    forall c | Interior(g, c) && TileAt(g, c).tileType == Floor && c !in t.nodes
      ensures && c in t.corridor && t.corridor[c] in t.nodes && t.corridor[c] in t.parent
              && t.parent[t.corridor[c]] in t.nodes && TwoApart(t.corridor[c], t.parent[t.corridor[c]])
              && c == Mid(t.corridor[c], t.parent[t.corridor[c]])
    {
      assert TileAt(g0, c) == EmptyTile;
    }
  }

  /** The shape of a finished maze, from the walk's guarantees on a grid
      that was walls round an empty interior: the walls stay, every inner
      cell is empty or floor, and the nodes are exactly the odd cells. */
  lemma MazeShape(g0: Grid, g: Grid, t: Carving)
    requires g0.Valid() && g.Valid() && g.width == g0.width && g.height == g0.height
    requires 3 <= g0.width && 3 <= g0.height && WalledEmpty(g0) && Walked(g0, g, (1, 1), t)
    ensures forall c :: InGrid(g, c) && OnPerimeter(g, c) ==> TileAt(g, c) == WallTile
    ensures forall c :: Interior(g, c) ==> TileAt(g, c) == EmptyTile || TileAt(g, c) == FloorTile
    ensures t.nodes == OddCells(g.width, g.height)
  {
    WallsKept(g0, g);
    PremisesHold(g0, g, t);
    forall c | c in OddCells(g.width, g.height) ensures c in t.nodes {
      CoversOddCell(g, t, c);
    }
    forall n | n in t.nodes ensures n in OddCells(g.width, g.height) {
      assert NodeOk(g, (1, 1), t, n);
      ParityOfOne(n);
    }
  }

}
