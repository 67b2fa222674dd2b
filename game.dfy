/** Tiles, the level grid and walkability.

    A `Level` is a row-major grid of `width * height` tiles in one flat
    buffer.  It is indexed two ways: `level[row]` yields the row as a slice
    (so `level[row][col]` is a cell), and `level[(i, j)]` yields the tile at
    column `i` of row `j` directly.  `Grid` is the value of a level's state,
    used by the specifications of the maze carver. */
module Game {
  import opened Math

  datatype Direction = North | South | East | West

  datatype TileType = Empty | Floor | Wall | Door | Ladder | Pit | Fire | Ice

  newtype u8 = n: int | 0 <= n < 256

  datatype Colour = Colour(r: u8, g: u8, b: u8, a: u8)

  datatype Tile = Tile(tileType: TileType, colour: Colour) {
    /** Only walls and unused space block movement. */
    function CanWalk(): (walkable: bool)
      ensures walkable <==> tileType != Wall && tileType != Empty
      ensures tileType in {Floor, Door, Ladder, Pit, Fire, Ice} ==> walkable
    {
      match tileType
      case Wall => false
      case Empty => false
      case _ => true
    }
  }

  /** The tile every cell of a new level holds. */
  const EmptyTile: Tile := Tile(Empty, Colour(64, 64, 64, 255))

  /** Position of column `c` of row `r` in the row-major buffer: `r` whole
      rows of `width` tiles, then `c` more.  It is written as a recursion on
      the row so that no product of two variables appears where it is used;
      `IdxIsRowMajor` gives the closed form. */
  function Idx(width: nat, c: nat, r: nat): nat {
    if r == 0 then c else Idx(width, c, r - 1) + width
  }

  lemma {:induction false} IdxIsRowMajor(width: nat, c: nat, r: nat)
    ensures Idx(width, c, r) == r * width + c
  {
    if r > 0 {
      IdxIsRowMajor(width, c, r - 1);
      assert (r - 1) * width + width == r * width;
    }
  }

  /** Column `c` of a row lies `c` positions after the row's first cell. */
  lemma {:induction false} IdxInRow(width: nat, r: nat)
    ensures forall c :: Idx(width, c, r) == Idx(width, 0, r) + c
  {
    if r > 0 {
      IdxInRow(width, r - 1);
    }
  }

  lemma IdxInBounds(width: nat, height: nat, c: nat, r: nat)
    requires c < width && r < height
    ensures Idx(width, c, r) < width * height
  {
    IdxIsRowMajor(width, c, r);
    assert r * width + width == (r + 1) * width;
    assert (r + 1) * width <= height * width by { MulMonotone(r + 1, height, width); }
  }

  lemma MulMonotone(a: nat, b: nat, k: nat)
    requires a <= b
    ensures a * k <= b * k
  {
    assert b * k == a * k + (b - a) * k;
  }

  /** Distinct in-range cells occupy distinct positions of the buffer. */
  lemma {:induction false} IdxInjective(width: nat, c: nat, r: nat, c': nat, r': nat)
    requires c < width && c' < width
    ensures Idx(width, c, r) == Idx(width, c', r') <==> c == c' && r == r'
  {
    IdxIsRowMajor(width, c, r);
    IdxIsRowMajor(width, c', r');
    if r < r' {
      MulMonotone(r + 1, r', width);
      assert (r + 1) * width == r * width + width;
    } else if r' < r {
      MulMonotone(r' + 1, r, width);
      assert (r' + 1) * width == r' * width + width;
    }
  }

  /** The buffer `cells` cut into its first `h` rows of `w` tiles. */
  function Rows(cells: seq<Tile>, w: nat, h: nat): (rows: seq<seq<Tile>>)
    requires Idx(w, 0, h) <= |cells|
    ensures |rows| == h && forall r :: 0 <= r < h ==> |rows[r]| == w
  {
    if h == 0 then []
    else Rows(cells, w, h - 1) + [cells[Idx(w, 0, h - 1) .. Idx(w, 0, h - 1) + w]]
  }

  /** Row `r` is the `w` tiles from position `Idx(w, 0, r)` on. */
  lemma {:induction false} RowsSlice(cells: seq<Tile>, w: nat, h: nat, r: nat)
    requires Idx(w, 0, h) <= |cells| && r < h
    ensures Idx(w, 0, r) + w <= |cells| && Rows(cells, w, h)[r] == cells[Idx(w, 0, r) .. Idx(w, 0, r) + w]
  {
    if r < h - 1 {
      RowsSlice(cells, w, h - 1, r);
    }
  }

  /** A buffer holding one tile everywhere has that tile in every row. */
  lemma RowsOfUniform(cells: seq<Tile>, w: nat, h: nat, t: Tile)
    requires Idx(w, 0, h) <= |cells| && forall k :: 0 <= k < |cells| ==> cells[k] == t
    ensures forall r, c :: 0 <= r < h && 0 <= c < w ==> Rows(cells, w, h)[r][c] == t
  {
    forall r, c | 0 <= r < h && 0 <= c < w ensures Rows(cells, w, h)[r][c] == t {
      RowsSlice(cells, w, h, r);
      IdxInRow(w, r);
      assert Rows(cells, w, h)[r][c] == cells[Idx(w, c, r)];
    }
  }

  /** Writing one position of the buffer writes one tile of one row. */
  lemma RowsUpdate(cells: seq<Tile>, w: nat, h: nat, c: nat, r: nat, t: Tile)
    requires Idx(w, 0, h) <= |cells| && c < w && r < h
    ensures Idx(w, c, r) < |cells|
    ensures Rows(cells[Idx(w, c, r) := t], w, h) == Rows(cells, w, h)[r := Rows(cells, w, h)[r][c := t]]
  {
    IdxInRow(w, r);
    IdxInBounds(w, h, c, r);
    IdxIsRowMajor(w, 0, h);
    var before, after := Rows(cells, w, h), Rows(cells[Idx(w, c, r) := t], w, h);
    forall r' | 0 <= r' < h ensures after[r'] == before[r := before[r][c := t]][r'] {
      IdxInRow(w, r');
      RowsSlice(cells, w, h, r');
      RowsSlice(cells[Idx(w, c, r) := t], w, h, r');
      forall c' | 0 <= c' < w ensures after[r'][c'] == before[r := before[r][c := t]][r'][c'] {
        IdxInjective(w, c, r, c', r');
      }
    }
  }

  /** The state of a level as a value: `height` rows of `width` tiles. */
  datatype Grid = Grid(width: nat, height: nat, rows: seq<seq<Tile>>) {
    predicate Valid() {
      |rows| == height && forall r :: 0 <= r < |rows| ==> |rows[r]| == width
    }

    predicate InBounds(c: int, r: int) { 0 <= c < width && 0 <= r < height }

    /** The tile at column `c` of row `r`. */
    function At(c: int, r: int): Tile
      requires Valid() && InBounds(c, r)
    {
      rows[r][c]
    }

    /** The grid after writing `t` to column `c` of row `r`. */
    function Set(c: int, r: int, t: Tile): (g: Grid)
      requires Valid() && InBounds(c, r)
      ensures g.Valid() && g.width == width && g.height == height
    {
      Grid(width, height, rows[r := rows[r][c := t]])
    }
  }

  class Level {
    const width: nat
    const height: nat
    const grid: array<Tile>

    predicate Valid() { grid.Length == width * height }

    /** The level's tiles, row by row. */
    function View(): (g: Grid)
      reads grid
      requires Valid()
      ensures g.Valid() && g.width == width && g.height == height
    {
      IdxIsRowMajor(width, 0, height);
      Grid(width, height, Rows(grid[..], width, height))
    }

    /** A `width` by `height` level whose every cell is `EmptyTile`. */
    constructor (width: nat, height: nat)
      ensures Valid() && this.width == width && this.height == height && fresh(grid)
      ensures forall c, r :: View().InBounds(c, r) ==> View().At(c, r) == EmptyTile
    {
      this.width := width;
      this.height := height;
      grid := new Tile[width * height](_ => EmptyTile);
      new;
      IdxIsRowMajor(width, 0, height);
      RowsOfUniform(grid[..], width, height, EmptyTile);
    }

    /** `level[row]`: the row as a slice of the buffer.  Rust panics unless
        the slice lies inside the buffer, i.e. unless the row exists or the
        rows are empty. */
    function Row(row: nat): (tiles: seq<Tile>)
      reads grid
      requires Valid() && (width == 0 || row < height)
      ensures |tiles| == width
      ensures row < height ==> tiles == View().rows[row]
    {
      if width == 0 then []
      else
        IdxInBounds(width, height, width - 1, row);
        IdxInRow(width, row);
        IdxIsRowMajor(width, 0, height);
        RowsSlice(grid[..], width, height, row);
        grid[Idx(width, 0, row) .. Idx(width, 0, row) + width]
    }

    /** `level[(i, j)]`: the tile at buffer position `j * width + i`.  Only
        that position is checked against the buffer, not `i` against the
        width.  Inside the grid it is the tile at column `i` of row `j`. */
    function Cell(i: nat, j: nat): (t: Tile)
      reads grid
      requires Idx(width, i, j) < grid.Length
      ensures Valid() && i < width && j < height ==> t == View().At(i, j)
    {
      if Valid() && i < width && j < height then
        BufferCell(grid[..], width, height, i, j);
        grid[Idx(width, i, j)]
      else
        grid[Idx(width, i, j)]
    }

    /** `level[row][col] = t` through `IndexMut<usize>`. */
    method SetInRow(row: nat, col: nat, t: Tile)
      requires Valid() && row < height && col < width
      modifies grid
      ensures View() == old(View()).Set(col, row, t)
    {
      IdxIsRowMajor(width, 0, height);
      RowsUpdate(grid[..], width, height, col, row, t);
      grid[Idx(width, col, row)] := t;
    }

    /** `level[(i, j)] = t` through `IndexMut<(usize, usize)>`; inside the
        grid this writes the cell at column `i` of row `j`. */
    method SetCell(i: nat, j: nat, t: Tile)
      requires Idx(width, i, j) < grid.Length
      modifies grid
      ensures grid[..] == old(grid[..])[Idx(width, i, j) := t]
      ensures Valid() && i < width && j < height ==> View() == old(View()).Set(i, j, t)
    {
      if Valid() && i < width && j < height {
        IdxIsRowMajor(width, 0, height);
        RowsUpdate(grid[..], width, height, i, j, t);
      }
      grid[Idx(width, i, j)] := t;
    }

    /** `Level::can_walk`: false off the grid, otherwise the walkability of
        the tile.  The bounds are compared after `width as i32`. */
    function CanWalk(pos: Vec2): (walkable: bool)
      reads grid
      requires Valid()
      ensures walkable ==> View().InBounds(pos.x as int, pos.y as int)
                           && View().At(pos.x as int, pos.y as int).CanWalk()
      ensures width <= MaxI32 && height <= MaxI32 ==>
        (walkable <==> View().InBounds(pos.x as int, pos.y as int)
                       && View().At(pos.x as int, pos.y as int).CanWalk())
    {
      if pos.x < 0 || pos.x >= WrapI32(width) then false
      else if pos.y < 0 || pos.y >= WrapI32(height) then false
      else Row(pos.y as nat)[pos.x as nat].CanWalk()
    }
  }

  /** The two indexing schemes agree: `level[j][i]` and `level[(i, j)]` are
      the same cell. */
  lemma IndexSchemesAgree(level: Level, i: nat, j: nat)
    requires level.Valid() && i < level.width && j < level.height
    ensures Idx(level.width, i, j) < level.grid.Length
    ensures level.Row(j)[i] == level.Cell(i, j) == level.View().At(i, j)
  {
    BufferCell(level.grid[..], level.width, level.height, i, j);
    assert level.View().rows == Rows(level.grid[..], level.width, level.height);
  }

  /** Column `c` of row `r` of the rows of a buffer is the buffer's tile at
      `Idx(w, c, r)`. */
  lemma BufferCell(cells: seq<Tile>, w: nat, h: nat, c: nat, r: nat)
    requires |cells| == w * h && c < w && r < h
    ensures Idx(w, 0, h) == |cells| && Idx(w, c, r) < |cells|
    ensures Rows(cells, w, h)[r][c] == cells[Idx(w, c, r)]
  {
    IdxIsRowMajor(w, 0, h);
    assert Idx(w, 0, h) == |cells|;
    IdxInBounds(w, h, c, r);
    IdxInRow(w, r);
    RowsSlice(cells, w, h, r);
    var row := Rows(cells, w, h)[r];
    assert row == cells[Idx(w, 0, r) .. Idx(w, 0, r) + w];
    assert row[c] == cells[Idx(w, 0, r) + c];
  }

  /** `level[(i, j)]` does not check the column: one past the end of a row
      is the first cell of the next row. */
  lemma CellWrapsToNextRow(level: Level, j: nat)
    requires level.Valid() && 0 < level.width && j + 1 < level.height
    ensures Idx(level.width, level.width, j) < level.grid.Length
    ensures level.Cell(level.width, j) == level.View().At(0, j + 1)
  {
    BufferCell(level.grid[..], level.width, level.height, 0, j + 1);
    IdxInRow(level.width, j);
    assert Idx(level.width, level.width, j) == Idx(level.width, 0, j + 1);
    assert level.View().rows == Rows(level.grid[..], level.width, level.height);
  }
}
