/** The game grid of game_grid.py: a height x width matrix of optional tiles,
    row 0 at the bottom, together with the score and the sticky game-over flag.
    Drawing, sound and the speed bookkeeping are not modelled. */
module Grid {
  import opened Common
  import opened Tiles
  import opened Tally

  datatype Grid = Grid(height: nat, width: nat, cells: Cells, score: int, gameOver: bool)

  /** The grid the game builds is 20 x 20 (Tetris_2048.py:21), but the settling
      passes and the pieces only use the 12 leftmost columns. */
  const GridHeight: nat := 20
  const GridWidth: nat := 20
  const GameWidth: nat := 12

  predicate Shaped(cells: Cells, h: nat, w: nat)
  {
    |cells| == h && forall r :: 0 <= r < h ==> |cells[r]| == w
  }

  predicate FlagShaped(flags: seq<seq<bool>>, h: nat, w: nat)
  {
    |flags| == h && forall r :: 0 <= r < h ==> |flags[r]| == w
  }

  predicate WellFormed(g: Grid)
  {
    Shaped(g.cells, g.height, g.width)
  }

  /** Two matrices of the same shape that agree cell by cell are equal. */
  lemma SameCells(a: Cells, b: Cells, h: nat, w: nat)
    requires Shaped(a, h, w) && Shaped(b, h, w)
    requires forall i, j :: 0 <= i < h && 0 <= j < w ==> a[i][j] == b[i][j]
    ensures a == b
  {
    assert forall i | 0 <= i < h :: a[i] == b[i];
  }

  /** A well-formed grid of the size the game creates. */
  predicate GameGrid(g: Grid)
  {
    WellFormed(g) && g.height == GridHeight && g.width == GridWidth
  }

  /** `GameGrid.__init__` (state only): every cell empty, score 0, not over. */
  function NewGrid(h: nat, w: nat): (g: Grid)
    ensures WellFormed(g) && g.height == h && g.width == w
    ensures forall r, c :: !IsOccupied(g, r, c)
    ensures Count(g.cells) == 0
    ensures g.score == 0 && !g.gameOver
  {
    var g := Grid(h, w, seq(h, _ => seq(w, _ => None)), 0, false);
    EmptyWeight(g.cells, TileCount, 0);
    g
  }

  /** `is_inside`: the half-open bounds check against [0, height) x [0, width). */
  function IsInside(g: Grid, row: int, col: int): (b: bool)
    ensures b <==> 0 <= row < g.height && 0 <= col < g.width
  {
    if row < 0 || row >= g.height then false
    else if col < 0 || col >= g.width then false
    else true
  }

  /** `is_occupied`: never fails on an out-of-range cell, which simply reads as free. */
  function IsOccupied(g: Grid, row: int, col: int): (b: bool)
    requires WellFormed(g)
    ensures !IsInside(g, row, col) ==> !b
    ensures IsInside(g, row, col) ==> (b <==> g.cells[row][col].Some?)
  {
    if !IsInside(g, row, col) then false
    else g.cells[row][col] != None
  }

  // ---------------------------------------------------------------------------
  // update_grid

  /** The tiles of a piece matrix in the order `update_grid` visits them:
      column by column, and within a column row by row. */
  function PlacementOrder(m: Cells, col: nat, row: nat): (ts: seq<Tile>)
    requires |m| > 0 && Shaped(m, |m|, |m[0]|)
    requires col <= |m[0]| && row <= |m|
    ensures forall t :: t in ts <==>
      exists r, c :: 0 <= r < |m| && 0 <= c < |m[0]| && (c > col || (c == col && r >= row)) && m[r][c] == Some(t)
    decreases |m[0]| - col, |m| - row
  {
    if col == |m[0]| then []
    else if row == |m| then PlacementOrder(m, col + 1, 0)
    else if m[row][col].Some? then [m[row][col].value] + PlacementOrder(m, col, row + 1)
    else PlacementOrder(m, col, row + 1)
  }

  /** Stores one piece tile, or raises the game-over flag when it lies outside. */
  function PlaceOne(g: Grid, t: Tile): (g': Grid)
    requires WellFormed(g)
    ensures WellFormed(g')
  {
    if IsInside(g, t.pos.y, t.pos.x) then
      g.(cells := g.cells[t.pos.y := g.cells[t.pos.y][t.pos.x := Some(t)]])
    else
      g.(gameOver := true)
  }

  predicate Covers(ts: seq<Tile>, y: int, x: int)
  {
    exists i :: 0 <= i < |ts| && ts[i].pos == Pos(x, y)
  }

  predicate AnyOutside(g: Grid, ts: seq<Tile>)
  {
    exists i :: 0 <= i < |ts| && !IsInside(g, ts[i].pos.y, ts[i].pos.x)
  }

  /** Places the tiles in order; a later tile at the same cell overwrites an earlier one. */
  function Place(g: Grid, ts: seq<Tile>): (g': Grid)
    requires WellFormed(g)
    ensures WellFormed(g') && g'.height == g.height && g'.width == g.width && g'.score == g.score
    ensures g'.gameOver == (g.gameOver || AnyOutside(g, ts))
    ensures forall y, x :: 0 <= y < g.height && 0 <= x < g.width ==>
      if Covers(ts, y, x) then
        g'.cells[y][x].Some? && g'.cells[y][x].value in ts && g'.cells[y][x].value.pos == Pos(x, y)
      else
        g'.cells[y][x] == g.cells[y][x]
    decreases |ts|
  {
    if ts == [] then g
    else
      var g1 := PlaceOne(g, ts[0]);
      var g' := Place(g1, ts[1..]);
      assert forall y, x :: Covers(ts, y, x) <==> ts[0].pos == Pos(x, y) || Covers(ts[1..], y, x) by {
        forall y, x | Covers(ts, y, x) && ts[0].pos != Pos(x, y)
          ensures Covers(ts[1..], y, x)
        {
          var i :| 0 <= i < |ts| && ts[i].pos == Pos(x, y);
          assert ts[1..][i - 1] == ts[i];
        }
        forall y, x | Covers(ts[1..], y, x) ensures Covers(ts, y, x) {
          var i :| 0 <= i < |ts[1..]| && ts[1..][i].pos == Pos(x, y);
          assert ts[i + 1] == ts[1..][i];
        }
      }
      assert AnyOutside(g, ts) <==> !IsInside(g, ts[0].pos.y, ts[0].pos.x) || AnyOutside(g1, ts[1..]) by {
        if AnyOutside(g, ts) && IsInside(g, ts[0].pos.y, ts[0].pos.x) {
          var i :| 0 <= i < |ts| && !IsInside(g, ts[i].pos.y, ts[i].pos.x);
          assert ts[1..][i - 1] == ts[i];
        }
        if AnyOutside(g1, ts[1..]) {
          var i :| 0 <= i < |ts[1..]| && !IsInside(g1, ts[1..][i].pos.y, ts[1..][i].pos.x);
          assert ts[i + 1] == ts[1..][i];
        }
      }
      g'
  }

  /** Some tile of the piece matrix `m` sits at (x, y). */
  predicate MatrixCovers(m: Cells, y: int, x: int)
    requires |m| > 0 && Shaped(m, |m|, |m[0]|)
  {
    exists r, c :: 0 <= r < |m| && 0 <= c < |m[0]| && m[r][c].Some? && m[r][c].value.pos == Pos(x, y)
  }

  /** Some tile of the piece matrix `m` lies outside the grid. */
  predicate MatrixOutside(g: Grid, m: Cells)
    requires |m| > 0 && Shaped(m, |m|, |m[0]|)
  {
    exists r, c :: 0 <= r < |m| && 0 <= c < |m[0]| && m[r][c].Some? &&
      !IsInside(g, m[r][c].value.pos.y, m[r][c].value.pos.x)
  }

  predicate InMatrix(m: Cells, t: Tile)
    requires |m| > 0 && Shaped(m, |m|, |m[0]|)
  {
    exists r, c :: 0 <= r < |m| && 0 <= c < |m[0]| && m[r][c] == Some(t)
  }

  lemma PlacementOrderAgrees(g: Grid, m: Cells)
    requires |m| > 0 && Shaped(m, |m|, |m[0]|)
    ensures forall t :: t in PlacementOrder(m, 0, 0) <==> InMatrix(m, t)
    ensures forall y, x :: Covers(PlacementOrder(m, 0, 0), y, x) <==> MatrixCovers(m, y, x)
    ensures AnyOutside(g, PlacementOrder(m, 0, 0)) <==> MatrixOutside(g, m)
  {
    var ts := PlacementOrder(m, 0, 0);
    forall y, x | Covers(ts, y, x) ensures MatrixCovers(m, y, x) {
      var i :| 0 <= i < |ts| && ts[i].pos == Pos(x, y);
      assert ts[i] in ts;
    }
    forall y, x | MatrixCovers(m, y, x) ensures Covers(ts, y, x) {
      var r, c :| 0 <= r < |m| && 0 <= c < |m[0]| && m[r][c].Some? && m[r][c].value.pos == Pos(x, y);
      assert m[r][c].value in ts;
      var i :| 0 <= i < |ts| && ts[i] == m[r][c].value;
    }
    if AnyOutside(g, ts) {
      var i :| 0 <= i < |ts| && !IsInside(g, ts[i].pos.y, ts[i].pos.x);
      assert ts[i] in ts;
    }
    if MatrixOutside(g, m) {
      var r, c :| 0 <= r < |m| && 0 <= c < |m[0]| && m[r][c].Some? &&
        !IsInside(g, m[r][c].value.pos.y, m[r][c].value.pos.x);
      assert m[r][c].value in ts;
      var i :| 0 <= i < |ts| && ts[i] == m[r][c].value;
    }
  }

  /** `update_grid`: every in-bounds piece tile is stored at its own position,
      every other cell keeps its content, and the game-over flag is raised
      (never lowered) exactly when some piece tile lies outside the grid. */
  function UpdateGrid(g: Grid, m: Cells): (g': Grid)
    requires WellFormed(g)
    requires |m| > 0 && Shaped(m, |m|, |m[0]|)
    ensures WellFormed(g') && g'.height == g.height && g'.width == g.width && g'.score == g.score
    ensures g.gameOver ==> g'.gameOver
    ensures g'.gameOver <==> (g.gameOver || MatrixOutside(g, m))
    ensures forall y, x :: 0 <= y < g.height && 0 <= x < g.width ==>
      if MatrixCovers(m, y, x) then
        g'.cells[y][x].Some? && g'.cells[y][x].value.pos == Pos(x, y) && InMatrix(m, g'.cells[y][x].value)
      else
        g'.cells[y][x] == g.cells[y][x]
  {
    PlacementOrderAgrees(g, m);
    Place(g, PlacementOrder(m, 0, 0))
  }

  // ---------------------------------------------------------------------------
  // move_free_tiles

  /** The same tile, one row lower. */
  function Lowered(t: Tile): Tile
  {
    Move(t, 0, -1)
  }

  /** What `move_free_tiles` may be given: a flag matrix of the grid's shape
      that flags only occupied cells and never a cell of row 0. */
  predicate DropReady(cells: Cells, flags: seq<seq<bool>>, h: nat, w: nat)
  {
    && Shaped(cells, h, w)
    && FlagShaped(flags, h, w)
    && (forall i, j :: 0 <= i < h && 0 <= j < w && flags[i][j] ==> cells[i][j].Some?)
    && (h > 0 ==> forall j :: 0 <= j < w ==> !flags[0][j])
  }

  /** Cell (i, j) comes before (row, col) in the bottom-up, left-to-right scan. */
  predicate Before(i: int, j: int, row: int, col: int)
  {
    i < row || (i == row && j < col)
  }

  /** Content of cell (i, j) once the scan has handled every cell before (row, col). */
  function PartialDrop(cells: Cells, flags: seq<seq<bool>>, h: nat, w: nat, row: int, col: int, i: nat, j: nat): Option<Tile>
    requires DropReady(cells, flags, h, w) && i < h && j < w
  {
    if i + 1 < h && Before(i + 1, j, row, col) && flags[i + 1][j] then Some(Lowered(cells[i + 1][j].value))
    else if Before(i, j, row, col) && flags[i][j] then None
    else cells[i][j]
  }

  /** Content of cell (i, j) after the whole scan: the flagged tile from the
      cell above if there is one, otherwise empty if this cell was flagged,
      otherwise what was there. */
  function DroppedCell(cells: Cells, flags: seq<seq<bool>>, h: nat, w: nat, i: nat, j: nat): Option<Tile>
    requires DropReady(cells, flags, h, w) && i < h && j < w
  {
    if i + 1 < h && flags[i + 1][j] then Some(Lowered(cells[i + 1][j].value))
    else if flags[i][j] then None
    else cells[i][j]
  }

  /** One iteration of the inner loop of `move_free_tiles` at (row, col). */
  function DropStep(cur: Cells, flags: seq<seq<bool>>, h: nat, w: nat, row: nat, col: nat): (next: Cells)
    requires Shaped(cur, h, w) && FlagShaped(flags, h, w) && row < h && col < w
    requires flags[row][col] ==> row > 0 && cur[row][col].Some?
    ensures Shaped(next, h, w)
  {
    if flags[row][col] then
      var moved := cur[row - 1 := cur[row - 1][col := Some(Lowered(cur[row][col].value))]];
      moved[row := moved[row][col := None]]
    else
      cur
  }

  /** The grid after the scan has handled every cell before (row, col). */
  function ScanDrop(cells: Cells, flags: seq<seq<bool>>, h: nat, w: nat, row: nat, col: nat): (cur: Cells)
    requires DropReady(cells, flags, h, w)
    requires row <= h && col <= w && (row == h ==> col == 0)
    ensures Shaped(cur, h, w)
    ensures forall i, j :: 0 <= i < h && 0 <= j < w ==> cur[i][j] == PartialDrop(cells, flags, h, w, row, col, i, j)
    decreases row, col
  {
    if col == 0 then
      if row == 0 then cells else ScanDrop(cells, flags, h, w, row - 1, w)
    else
      var cur := ScanDrop(cells, flags, h, w, row, col - 1);
      DropStep(cur, flags, h, w, row, col - 1)
  }

  /** `move_free_tiles`: the flagged tiles move one row down, each with its y
      decreased by one, and their old cells are emptied. */
  function MoveFreeTiles(g: Grid, flags: seq<seq<bool>>): (g': Grid)
    requires WellFormed(g) && DropReady(g.cells, flags, g.height, g.width)
    ensures WellFormed(g') && g'.height == g.height && g'.width == g.width
    ensures g'.score == g.score && g'.gameOver == g.gameOver
    ensures forall i, j :: 0 <= i < g.height && 0 <= j < g.width ==>
      g'.cells[i][j] == DroppedCell(g.cells, flags, g.height, g.width, i, j)
  {
    g.(cells := ScanDrop(g.cells, flags, g.height, g.width, g.height, 0))
  }

  // Counting flags and selected tiles

  function CountTrue(f: seq<bool>, j: nat): nat
    decreases |f| - j
  {
    if j >= |f| then 0 else (if f[j] then 1 else 0) + CountTrue(f, j + 1)
  }

  function FlagCountFrom(flags: seq<seq<bool>>, k: nat): nat
    decreases |flags| - k
  {
    if k >= |flags| then 0 else CountTrue(flags[k], 0) + FlagCountFrom(flags, k + 1)
  }

  /** The number of flagged cells. */
  function FlagCount(flags: seq<seq<bool>>): nat
  {
    FlagCountFrom(flags, 0)
  }

  /** The measure of the cells of `row` from column `j` on whose flag is `b`. */
  function Selected(row: Row, f: seq<bool>, b: bool, m: Measure, j: nat): int
    requires |f| == |row|
    decreases |row| - j
  {
    if j >= |row| then 0
    else (if f[j] == b then Weigh(row[j], m) else 0) + Selected(row, f, b, m, j + 1)
  }

  function SelectedFrom(cells: Cells, flags: seq<seq<bool>>, h: nat, w: nat, b: bool, m: Measure, k: nat): int
    requires Shaped(cells, h, w) && FlagShaped(flags, h, w)
    decreases h - k
  {
    if k >= h then 0 else Selected(cells[k], flags[k], b, m, 0) + SelectedFrom(cells, flags, h, w, b, m, k + 1)
  }

  lemma {:induction false} RowSplits(row: Row, f: seq<bool>, m: Measure, j: nat)
    requires |f| == |row|
    ensures RowWeight(row, m, j) == Selected(row, f, true, m, j) + Selected(row, f, false, m, j)
    decreases |row| - j
  {
    if j < |row| {
      RowSplits(row, f, m, j + 1);
    }
  }

  lemma {:induction false} SelectedCountsFlags(row: Row, f: seq<bool>, j: nat)
    requires |f| == |row|
    requires forall c :: 0 <= c < |row| && f[c] ==> row[c].Some?
    ensures Selected(row, f, true, TileCount, j) == CountTrue(f, j)
    decreases |row| - j
  {
    if j < |row| {
      SelectedCountsFlags(row, f, j + 1);
    }
  }

  lemma {:induction false} NoFlagSelectsNothing(row: Row, f: seq<bool>, m: Measure, j: nat)
    requires |f| == |row|
    requires forall c :: 0 <= c < |row| ==> !f[c]
    ensures Selected(row, f, true, m, j) == 0
    decreases |row| - j
  {
    if j < |row| {
      NoFlagSelectsNothing(row, f, m, j + 1);
    }
  }

  /** A row after the drop holds the flagged tiles of the row above and the
      unflagged tiles of its own, provided no unflagged tile sits under a flagged one. */
  lemma {:induction false} DropRowWeight(nr: Row, up: Row, uf: seq<bool>, row: Row, f: seq<bool>, m: Measure, j: nat)
    requires |nr| == |up| == |uf| == |row| == |f|
    requires forall c :: 0 <= c < |up| && uf[c] ==> up[c].Some?
    requires forall c :: 0 <= c < |row| && uf[c] && row[c].Some? ==> f[c]
    requires forall c :: 0 <= c < |nr| ==>
      nr[c] == (if uf[c] then Some(Lowered(up[c].value)) else if f[c] then None else row[c])
    ensures RowWeight(nr, m, j) == Selected(up, uf, true, m, j) + Selected(row, f, false, m, j)
    decreases |nr| - j
  {
    if j < |nr| {
      DropRowWeight(nr, up, uf, row, f, m, j + 1);
    }
  }

  /** The top row after the drop only loses its flagged tiles. */
  lemma {:induction false} TopRowWeight(nr: Row, row: Row, f: seq<bool>, m: Measure, j: nat)
    requires |nr| == |row| == |f|
    requires forall c :: 0 <= c < |nr| ==> nr[c] == (if f[c] then None else row[c])
    ensures RowWeight(nr, m, j) == Selected(row, f, false, m, j)
    decreases |nr| - j
  {
    if j < |nr| {
      TopRowWeight(nr, row, f, m, j + 1);
    }
  }

  /** No unflagged tile sits directly below a flagged one. */
  predicate ClosedBelow(cells: Cells, flags: seq<seq<bool>>, h: nat, w: nat)
    requires Shaped(cells, h, w) && FlagShaped(flags, h, w)
  {
    forall i, j :: 0 <= i && i + 1 < h && 0 <= j < w && flags[i + 1][j] && cells[i][j].Some? ==> flags[i][j]
  }

  /** Row k of the dropped grid, cell by cell, in the shape `DropRowWeight` expects. */
  lemma DroppedRow(cells: Cells, flags: seq<seq<bool>>, h: nat, w: nat, nc: Cells, m: Measure, k: nat)
    requires DropReady(cells, flags, h, w) && ClosedBelow(cells, flags, h, w)
    requires Shaped(nc, h, w) && k < h
    requires forall i, j :: 0 <= i < h && 0 <= j < w ==> nc[i][j] == DroppedCell(cells, flags, h, w, i, j)
    ensures k + 1 < h ==> RowWeight(nc[k], m, 0) == Selected(cells[k + 1], flags[k + 1], true, m, 0) + Selected(cells[k], flags[k], false, m, 0)
    ensures k + 1 == h ==> RowWeight(nc[k], m, 0) == Selected(cells[k], flags[k], false, m, 0)
  {
    if k + 1 < h {
      forall c | 0 <= c < w
        ensures nc[k][c] == (if flags[k + 1][c] then Some(Lowered(cells[k + 1][c].value)) else if flags[k][c] then None else cells[k][c])
      {
        assert nc[k][c] == DroppedCell(cells, flags, h, w, k, c);
      }
      DropRowWeight(nc[k], cells[k + 1], flags[k + 1], cells[k], flags[k], m, 0);
    } else {
      forall c | 0 <= c < w
        ensures nc[k][c] == (if flags[k][c] then None else cells[k][c])
      {
        assert nc[k][c] == DroppedCell(cells, flags, h, w, k, c);
      }
      TopRowWeight(nc[k], cells[k], flags[k], m, 0);
    }
  }

  lemma {:induction false} DropWeightFrom(cells: Cells, flags: seq<seq<bool>>, h: nat, w: nat, nc: Cells, m: Measure, k: nat)
    requires DropReady(cells, flags, h, w) && ClosedBelow(cells, flags, h, w)
    requires Shaped(nc, h, w)
    requires forall i, j :: 0 <= i < h && 0 <= j < w ==> nc[i][j] == DroppedCell(cells, flags, h, w, i, j)
    ensures WeightFrom(nc, m, k) == SelectedFrom(cells, flags, h, w, true, m, k + 1) + SelectedFrom(cells, flags, h, w, false, m, k)
    decreases h - k
  {
    if k < h {
      DropWeightFrom(cells, flags, h, w, nc, m, k + 1);
      DroppedRow(cells, flags, h, w, nc, m, k);
    }
  }

  lemma {:induction false} WeightSplitFrom(cells: Cells, flags: seq<seq<bool>>, h: nat, w: nat, m: Measure, k: nat)
    requires Shaped(cells, h, w) && FlagShaped(flags, h, w)
    ensures WeightFrom(cells, m, k) == SelectedFrom(cells, flags, h, w, true, m, k) + SelectedFrom(cells, flags, h, w, false, m, k)
    decreases h - k
  {
    if k < h {
      RowSplits(cells[k], flags[k], m, 0);
      WeightSplitFrom(cells, flags, h, w, m, k + 1);
    }
  }

  lemma {:induction false} SelectedFromCountsFlags(cells: Cells, flags: seq<seq<bool>>, h: nat, w: nat, k: nat)
    requires DropReady(cells, flags, h, w)
    ensures SelectedFrom(cells, flags, h, w, true, TileCount, k) == FlagCountFrom(flags, k)
    decreases h - k
  {
    if k < h {
      SelectedCountsFlags(cells[k], flags[k], 0);
      SelectedFromCountsFlags(cells, flags, h, w, k + 1);
    }
  }

  lemma {:induction false} DropElevationFrom(cells: Cells, flags: seq<seq<bool>>, h: nat, w: nat, nc: Cells, k: nat)
    requires DropReady(cells, flags, h, w) && ClosedBelow(cells, flags, h, w)
    requires Shaped(nc, h, w)
    requires forall i, j :: 0 <= i < h && 0 <= j < w ==> nc[i][j] == DroppedCell(cells, flags, h, w, i, j)
    ensures Elevation(nc, k) + SelectedFrom(cells, flags, h, w, true, TileCount, k) == Elevation(cells, k)
    decreases h - k
  {
    if k < h {
      DropElevationFrom(cells, flags, h, w, nc, k + 1);
      DropWeightFrom(cells, flags, h, w, nc, TileCount, k);
      WeightSplitFrom(cells, flags, h, w, TileCount, k);
    }
  }

  /** The whole-grid measure after the drop equals the measure before. */
  lemma DropKeepsWeight(cells: Cells, flags: seq<seq<bool>>, h: nat, w: nat, nc: Cells, m: Measure)
    requires DropReady(cells, flags, h, w) && ClosedBelow(cells, flags, h, w)
    requires Shaped(nc, h, w)
    requires forall i, j :: 0 <= i < h && 0 <= j < w ==> nc[i][j] == DroppedCell(cells, flags, h, w, i, j)
    ensures Weight(nc, m) == Weight(cells, m)
  {
    DropWeightFrom(cells, flags, h, w, nc, m, 0);
    WeightSplitFrom(cells, flags, h, w, m, 0);
    if h > 0 {
      NoFlagSelectsNothing(cells[0], flags[0], m, 0);
    }
  }

  /** With no unflagged tile under a flagged one (which the free-tile finder
      guarantees), `move_free_tiles` keeps the multiset of tile numbers, leaves
      unflagged tiles where they were, lowers each flagged tile by one row, and
      lowers the sum of the row indices of all tiles by exactly the number of flags. */
  lemma MoveFreeTilesConserves(g: Grid, flags: seq<seq<bool>>)
    requires WellFormed(g) && DropReady(g.cells, flags, g.height, g.width)
    requires ClosedBelow(g.cells, flags, g.height, g.width)
    ensures SameNumbers(MoveFreeTiles(g, flags).cells, g.cells)
    ensures Count(MoveFreeTiles(g, flags).cells) == Count(g.cells)
    ensures Sum(MoveFreeTiles(g, flags).cells) == Sum(g.cells)
    ensures Elevation(MoveFreeTiles(g, flags).cells, 0) + FlagCount(flags) == Elevation(g.cells, 0)
    ensures forall i, j :: 0 <= i < g.height && 0 <= j < g.width && g.cells[i][j].Some? && !flags[i][j] ==>
      MoveFreeTiles(g, flags).cells[i][j] == g.cells[i][j]
    ensures forall i, j :: 0 < i < g.height && 0 <= j < g.width && flags[i][j] ==>
      MoveFreeTiles(g, flags).cells[i - 1][j] == Some(Lowered(g.cells[i][j].value))
  {
    var h, w := g.height, g.width;
    var nc := MoveFreeTiles(g, flags).cells;
    forall v ensures Occurrences(nc, v) == Occurrences(g.cells, v) {
      DropKeepsWeight(g.cells, flags, h, w, nc, NumberIs(v));
    }
    DropKeepsWeight(g.cells, flags, h, w, nc, TileCount);
    DropKeepsWeight(g.cells, flags, h, w, nc, NumberTotal);
    DropElevationFrom(g.cells, flags, h, w, nc, 0);
    SelectedFromCountsFlags(g.cells, flags, h, w, 0);
    if h > 0 {
      NoFlagSelectsNothing(g.cells[0], flags[0], TileCount, 0);
    }
  }
}
