/** Tetrominoes (tetromino.py): the seven shape tables, the spawn layout, the
    collision rules of `can_be_moved`, the guarded one-step `move`, and
    `move_pos`. A piece is an n x n matrix of optional tiles, indexed
    [row][column] with row 0 at the TOP of the piece, together with the
    bottom-left corner it was laid out from. */
module Pieces {
  import opened Common
  import opened Tiles
  import opened Grid

  datatype Shape = I | O | Z | J | L | T | S

  /** `n`, the side of the tile matrix. */
  function Size(s: Shape): nat
  {
    match s
    case I => 4
    case O => 2
    case _ => 3
  }

  /** `occupied_tiles`: (column, row) pairs of the spawn orientation, in the
      order the constructor appends them. */
  function Table(s: Shape): seq<(nat, nat)>
  {
    match s
    case I => [(1, 0), (1, 1), (1, 2), (1, 3)]
    case O => [(0, 0), (1, 0), (0, 1), (1, 1)]
    case Z => [(0, 0), (1, 0), (1, 1), (2, 1)]
    case J => [(0, 0), (2, 0), (1, 0), (2, 1)]
    case L => [(0, 0), (2, 0), (1, 0), (0, 1)]
    case T => [(0, 0), (2, 0), (1, 0), (1, 1)]
    case S => [(0, 1), (2, 0), (1, 0), (1, 1)]
  }

  /** The piece's own `grid_height` and `grid_width` (20 and 12 in the game),
      its tile matrix and `bottom_left_corner`. */
  datatype Piece = Piece(shape: Shape, gridHeight: int, gridWidth: int, cells: Cells, corner: Pos)

  /** The tile matrix is n x n. */
  predicate Tiled(p: Piece)
  {
    Shaped(p.cells, Size(p.shape), Size(p.shape))
  }

  /** Every tile sits where the spawn layout puts it relative to `at`: the tile
      at [r][c] is at x = at.x + c, y = at.y + (n - 1) - r. */
  predicate Laid(m: Cells, n: nat, at: Pos)
    requires Shaped(m, n, n)
  {
    forall r, c :: 0 <= r < n && 0 <= c < n && m[r][c].Some? ==> m[r][c].value.pos == Pos(at.x + c, at.y + (n - 1) - r)
  }

  /** No row and no column of the matrix has a hole between two of its tiles. */
  predicate GapFree(m: Cells, n: nat)
    requires Shaped(m, n, n)
  {
    && (forall r, a, b, c :: 0 <= r < n && 0 <= a < b < c < n && m[r][a].Some? && m[r][c].Some? ==> m[r][b].Some?)
    && (forall c, a, b, d :: 0 <= c < n && 0 <= a < b < d < n && m[a][c].Some? && m[d][c].Some? ==> m[b][c].Some?)
  }

  // ---------------------------------------------------------------------------
  // Spawning: tetromino.py:11-87

  /** The spawn matrix: a fresh tile wherever the table lists (column, row). */
  function SpawnCell(s: Shape, x: int, gridHeight: int, r: nat, c: nat): Option<Tile>
  {
    if (c, r) in Table(s) then Some(NewTile(Pos(x + c, gridHeight + (Size(s) - 1) - r))) else None
  }

  /** `Tetromino.__init__` with the random column `x` as a parameter: the
      corner starts at (x, grid_height), just above the grid. */
  function NewPiece(s: Shape, gridHeight: int, gridWidth: int, x: int): (p: Piece)
    ensures Tiled(p) && p.shape == s && p.gridHeight == gridHeight && p.gridWidth == gridWidth
    ensures p.corner == Pos(x, gridHeight)
  {
    var n := Size(s);
    Piece(s, gridHeight, gridWidth, seq(n, r requires 0 <= r < n => seq(n, c requires 0 <= c < n => SpawnCell(s, x, gridHeight, r, c))), Pos(x, gridHeight))
  }

  /** Each table lists four distinct cells inside the n x n matrix. */
  lemma TableFacts(s: Shape)
    ensures |Table(s)| == 4
    ensures forall k :: 0 <= k < 4 ==> Table(s)[k].0 < Size(s) && Table(s)[k].1 < Size(s)
    ensures forall k, k' :: 0 <= k < k' < 4 ==> Table(s)[k] != Table(s)[k']
  {
  }

  /** A fresh piece has a tile, numbered 2, exactly on the cells its table
      lists, laid out from the corner (x, grid_height), with no holes in any row
      or column. */
  lemma NewPieceLayout(s: Shape, gridHeight: int, gridWidth: int, x: int)
    ensures var p := NewPiece(s, gridHeight, gridWidth, x);
      && (forall r, c :: 0 <= r < Size(s) && 0 <= c < Size(s) ==> (p.cells[r][c].Some? <==> (c, r) in Table(s)))
      && (forall r, c :: 0 <= r < Size(s) && 0 <= c < Size(s) && p.cells[r][c].Some? ==> p.cells[r][c].value.number == InitialNumber)
      && Laid(p.cells, Size(s), p.corner)
      && GapFree(p.cells, Size(s))
  {
    var p := NewPiece(s, gridHeight, gridWidth, x);
    var n := Size(s);
    assert forall r, c :: 0 <= r < n && 0 <= c < n ==> p.cells[r][c] == SpawnCell(s, x, gridHeight, r, c);
    SpawnGapFree(s, p.cells);
  }

  /** No row or column of a spawn table has a hole. */
  lemma SpawnGapFree(s: Shape, m: Cells)
    requires Shaped(m, Size(s), Size(s))
    requires forall r, c :: 0 <= r < Size(s) && 0 <= c < Size(s) ==> (m[r][c].Some? <==> (c, r) in Table(s))
    ensures GapFree(m, Size(s))
  {
    SpawnRowsGapFree(s, m);
    SpawnColumnsGapFree(s, m);
  }

  lemma SpawnRowsGapFree(s: Shape, m: Cells)
    requires Shaped(m, Size(s), Size(s))
    requires forall r, c :: 0 <= r < Size(s) && 0 <= c < Size(s) ==> (m[r][c].Some? <==> (c, r) in Table(s))
    ensures forall r, a, b, c :: 0 <= r < Size(s) && 0 <= a < b < c < Size(s) && m[r][a].Some? && m[r][c].Some? ==> m[r][b].Some?
  {
  }

  lemma SpawnColumnsGapFree(s: Shape, m: Cells)
    requires Shaped(m, Size(s), Size(s))
    requires forall r, c :: 0 <= r < Size(s) && 0 <= c < Size(s) ==> (m[r][c].Some? <==> (c, r) in Table(s))
    ensures forall c, a, b, d :: 0 <= c < Size(s) && 0 <= a < b < d < Size(s) && m[a][c].Some? && m[d][c].Some? ==> m[b][c].Some?
  {
  }

  // ---------------------------------------------------------------------------
  // Translating a piece: tile.py:44-45 applied to every tile

  function ShiftCell(x: Option<Tile>, dx: int, dy: int): Option<Tile>
  {
    match x
    case None => None
    case Some(t) => Some(Move(t, dx, dy))
  }

  function ShiftRow(row: Row, dx: int, dy: int): (s: Row)
    ensures |s| == |row| && forall c :: 0 <= c < |row| ==> s[c] == ShiftCell(row[c], dx, dy)
  {
    seq(|row|, c requires 0 <= c < |row| => ShiftCell(row[c], dx, dy))
  }

  /** Every tile of the matrix moved by (dx, dy). */
  function ShiftCells(m: Cells, dx: int, dy: int): (s: Cells)
    ensures |s| == |m| && forall r :: 0 <= r < |m| ==> s[r] == ShiftRow(m[r], dx, dy)
  {
    seq(|m|, r requires 0 <= r < |m| => ShiftRow(m[r], dx, dy))
  }

  /** Shifts compose by adding their vectors; the zero shift changes nothing. */
  lemma ShiftComposes(m: Cells, dx1: int, dy1: int, dx2: int, dy2: int)
    ensures ShiftCells(ShiftCells(m, dx1, dy1), dx2, dy2) == ShiftCells(m, dx1 + dx2, dy1 + dy2)
    ensures ShiftCells(m, 0, 0) == m
  {
    forall r | 0 <= r < |m| ensures ShiftRow(ShiftRow(m[r], dx1, dy1), dx2, dy2) == ShiftRow(m[r], dx1 + dx2, dy1 + dy2) {
    }
    forall r | 0 <= r < |m| ensures ShiftRow(m[r], 0, 0) == m[r] {
      forall c | 0 <= c < |m[r]| ensures ShiftCell(m[r][c], 0, 0) == m[r][c] {
        if m[r][c].Some? {
          assert Move(m[r][c].value, 0, 0) == m[r][c].value;
        }
      }
    }
  }

  /** The piece and its corner moved by (dx, dy). */
  function Translate(p: Piece, dx: int, dy: int): (q: Piece)
    ensures Tiled(p) ==> Tiled(q)
    ensures q.shape == p.shape && q.gridHeight == p.gridHeight && q.gridWidth == p.gridWidth
  {
    p.(cells := ShiftCells(p.cells, dx, dy), corner := Pos(p.corner.x + dx, p.corner.y + dy))
  }

  // ---------------------------------------------------------------------------
  // can_be_moved: tetromino.py:177-230

  /** The inner loop over one matrix row: the column of the first tile met
      scanning from column 0 (left) or from column n - 1 (right), starting
      at step k; `None` when the rest of the row is empty. */
  function EdgeColumn(row: Row, k: nat, left: bool): (r: Option<nat>)
    requires k <= |row|
    ensures r.Some? ==> r.value < |row| && row[r.value].Some?
    ensures left && r.Some? ==> k <= r.value && forall j :: k <= j < r.value ==> row[j].None?
    ensures left && r.None? ==> forall j :: k <= j < |row| ==> row[j].None?
    ensures !left && r.Some? ==> r.value < |row| - k && forall j :: r.value < j < |row| - k ==> row[j].None?
    ensures !left && r.None? ==> forall j :: 0 <= j < |row| - k ==> row[j].None?
    decreases |row| - k
  {
    if k == |row| then None
    else
      var col := if left then k else |row| - 1 - k;
      if row[col].Some? then Some(col) else EdgeColumn(row, k + 1, left)
  }

  /** The inner loop over one matrix column: the row of the first tile met
      scanning from row n - 1 (the bottom of the piece) upwards, starting at
      step k. */
  function BottomRow(m: Cells, n: nat, col: nat, k: nat): (r: Option<nat>)
    requires Shaped(m, n, n) && col < n && k <= n
    ensures r.Some? ==> r.value < n - k && m[r.value][col].Some? && forall j :: r.value < j < n - k ==> m[j][col].None?
    ensures r.None? ==> forall j :: 0 <= j < n - k ==> m[j][col].None?
    decreases n - k
  {
    if k == n then None
    else
      var row := n - 1 - k;
      if m[row][col].Some? then Some(row) else BottomRow(m, n, col, k + 1)
  }

  /** The test applied to the leftmost (rightmost) tile of a row: not on the
      edge column, and, unless the tile is still above the grid, the cell
      beside it is free. */
  predicate SideOk(p: Piece, g: Grid, t: Tile, left: bool)
    requires WellFormed(g)
  {
    if left then
      t.pos.x != 0 && (t.pos.y >= p.gridHeight || !IsOccupied(g, t.pos.y, t.pos.x - 1))
    else
      t.pos.x != p.gridWidth - 1 && (t.pos.y >= p.gridHeight || !IsOccupied(g, t.pos.y, t.pos.x + 1))
  }

  /** The test applied to the bottommost tile of a column: a tile more than
      one row above the grid passes; otherwise it must not be on row 0 and
      the cell below it must be free. */
  predicate DownOk(p: Piece, g: Grid, t: Tile)
    requires WellFormed(g)
  {
    t.pos.y > p.gridHeight || (t.pos.y != 0 && !IsOccupied(g, t.pos.y - 1, t.pos.x))
  }

  /** The row loop for left and right, from matrix row `row` on. */
  function SidesFrom(p: Piece, g: Grid, left: bool, row: nat): bool
    requires Tiled(p) && WellFormed(g) && row <= Size(p.shape)
    decreases Size(p.shape) - row
  {
    if row == Size(p.shape) then true
    else
      match EdgeColumn(p.cells[row], 0, left)
      case None => SidesFrom(p, g, left, row + 1)
      case Some(c) => SideOk(p, g, p.cells[row][c].value, left) && SidesFrom(p, g, left, row + 1)
  }

  /** The column loop for down, from matrix column `col` on. */
  function BottomsFrom(p: Piece, g: Grid, col: nat): bool
    requires Tiled(p) && WellFormed(g) && col <= Size(p.shape)
    decreases Size(p.shape) - col
  {
    if col == Size(p.shape) then true
    else
      match BottomRow(p.cells, Size(p.shape), col, 0)
      case None => BottomsFrom(p, g, col + 1)
      case Some(r) => DownOk(p, g, p.cells[r][col].value) && BottomsFrom(p, g, col + 1)
  }

  /** The tile at [r][c] is the first of its row from the left. */
  predicate LeftEnd(m: Cells, r: nat, c: nat)
    requires r < |m| && c < |m[r]|
  {
    m[r][c].Some? && forall k :: 0 <= k < c ==> m[r][k].None?
  }

  /** The tile at [r][c] is the first of its row from the right. */
  predicate RightEnd(m: Cells, r: nat, c: nat)
    requires r < |m| && c < |m[r]|
  {
    m[r][c].Some? && forall k :: c < k < |m[r]| ==> m[r][k].None?
  }

  /** The tile at [r][c] is the lowest of its column. */
  predicate BottomEnd(m: Cells, r: nat, c: nat)
    requires r < |m| && c < |m[r]| && forall k :: 0 <= k < |m| ==> |m[k]| == |m[r]|
  {
    m[r][c].Some? && forall k :: r < k < |m| ==> m[k][c].None?
  }

  lemma {:induction false} SidesFromLeft(p: Piece, g: Grid, row: nat)
    requires Tiled(p) && WellFormed(g) && row <= Size(p.shape)
    ensures SidesFrom(p, g, true, row) <==>
      forall r, c :: row <= r < Size(p.shape) && 0 <= c < Size(p.shape) && LeftEnd(p.cells, r, c) ==> SideOk(p, g, p.cells[r][c].value, true)
    decreases Size(p.shape) - row
  {
    var n := Size(p.shape);
    if row < n {
      SidesFromLeft(p, g, row + 1);
      var e := EdgeColumn(p.cells[row], 0, true);
      forall c | 0 <= c < n && LeftEnd(p.cells, row, c) ensures e == Some(c) {
      }
    }
  }

  lemma {:induction false} SidesFromRight(p: Piece, g: Grid, row: nat)
    requires Tiled(p) && WellFormed(g) && row <= Size(p.shape)
    ensures SidesFrom(p, g, false, row) <==>
      forall r, c :: row <= r < Size(p.shape) && 0 <= c < Size(p.shape) && RightEnd(p.cells, r, c) ==> SideOk(p, g, p.cells[r][c].value, false)
    decreases Size(p.shape) - row
  {
    var n := Size(p.shape);
    if row < n {
      SidesFromRight(p, g, row + 1);
      var e := EdgeColumn(p.cells[row], 0, false);
      forall c | 0 <= c < n && RightEnd(p.cells, row, c) ensures e == Some(c) {
      }
    }
  }

  lemma {:induction false} BottomsFromDown(p: Piece, g: Grid, col: nat)
    requires Tiled(p) && WellFormed(g) && col <= Size(p.shape)
    ensures BottomsFrom(p, g, col) <==>
      forall r, c :: 0 <= r < Size(p.shape) && col <= c < Size(p.shape) && BottomEnd(p.cells, r, c) ==> DownOk(p, g, p.cells[r][c].value)
    decreases Size(p.shape) - col
  {
    var n := Size(p.shape);
    if col < n {
      BottomsFromDown(p, g, col + 1);
      var e := BottomRow(p.cells, n, col, 0);
      forall r | 0 <= r < n && BottomEnd(p.cells, r, col) ensures e == Some(r) {
      }
    }
  }

  /** The direction argument of `move` and `can_be_moved`: the strings
      "left" and "right", and any other string, which both methods treat as
      "down". */
  datatype Dir = Left | Right | Down

  function DirOf(s: string): (d: Dir)
    ensures d == Left <==> s == "left"
    ensures d == Right <==> s == "right"
  {
    if s == "left" then Left else if s == "right" then Right else Down
  }

  /** `can_be_moved`: "left" and "right" test the end tile of every matrix row
      on that side, any other direction is "down" and tests the lowest tile of
      every matrix column. */
  function CanBeMoved(p: Piece, dir: Dir, g: Grid): bool
    requires Tiled(p) && WellFormed(g)
  {
    if dir != Down then SidesFrom(p, g, dir == Left, 0)
    else BottomsFrom(p, g, 0)
  }

  /** What the scans of `can_be_moved` decide: a move is allowed exactly when
      the end tile of every row on that side (the lowest tile of every column,
      for down) passes its test. */
  lemma CanBeMovedMeans(p: Piece, dir: Dir, g: Grid)
    requires Tiled(p) && WellFormed(g)
    ensures dir == Left ==> (CanBeMoved(p, dir, g) <==>
      forall r, c :: 0 <= r < Size(p.shape) && 0 <= c < Size(p.shape) && LeftEnd(p.cells, r, c) ==> SideOk(p, g, p.cells[r][c].value, true))
    ensures dir == Right ==> (CanBeMoved(p, dir, g) <==>
      forall r, c :: 0 <= r < Size(p.shape) && 0 <= c < Size(p.shape) && RightEnd(p.cells, r, c) ==> SideOk(p, g, p.cells[r][c].value, false))
    ensures dir == Down ==> (CanBeMoved(p, dir, g) <==>
      forall r, c :: 0 <= r < Size(p.shape) && 0 <= c < Size(p.shape) && BottomEnd(p.cells, r, c) ==> DownOk(p, g, p.cells[r][c].value))
  {
    SidesFromLeft(p, g, 0);
    SidesFromRight(p, g, 0);
    BottomsFromDown(p, g, 0);
  }

  // ---------------------------------------------------------------------------
  // move: tetromino.py:104-127

  /** The step of a direction. */
  function Delta(dir: Dir): (int, int)
  {
    match dir
    case Left => (-1, 0)
    case Right => (1, 0)
    case Down => (0, -1)
  }

  /** `move`: `false` and the piece unchanged when `can_be_moved` fails,
      otherwise `true` and the corner and every tile moved one step. */
  function MovePiece(p: Piece, dir: Dir, g: Grid): (r: (bool, Piece))
    requires Tiled(p) && WellFormed(g)
    ensures Tiled(r.1) && r.1.shape == p.shape
    ensures r.0 == CanBeMoved(p, dir, g)
    ensures !r.0 ==> r.1 == p
    ensures r.0 ==> r.1 == Translate(p, Delta(dir).0, Delta(dir).1)
  {
    if !CanBeMoved(p, dir, g) then (false, p)
    else (true, Translate(p, Delta(dir).0, Delta(dir).1))
  }

  /** A move left followed by a move right (or the reverse) gives back the
      piece it started from, when both succeed. */
  lemma MoveUndone(p: Piece, g: Grid, dir: Dir)
    requires Tiled(p) && WellFormed(g) && dir != Down
    requires MovePiece(p, dir, g).0
    ensures var back := if dir == Left then Right else Left;
      MovePiece(MovePiece(p, dir, g).1, back, g).0 ==> MovePiece(MovePiece(p, dir, g).1, back, g).1 == p
  {
    var d := Delta(dir);
    ShiftComposes(p.cells, d.0, d.1, -d.0, -d.1);
    ShiftComposes(p.cells, 0, 0, 0, 0);
  }

  // ---------------------------------------------------------------------------
  // What the collision rules guarantee

  /** The piece is laid out from `at` without holes, its tiles lie in columns
      0 .. grid_width - 1 and rows 0 and up, and none sits on an occupied cell. */
  predicate Placed(p: Piece, g: Grid, at: Pos)
    requires Tiled(p) && WellFormed(g)
  {
    && Laid(p.cells, Size(p.shape), at)
    && GapFree(p.cells, Size(p.shape))
    && forall r, c :: 0 <= r < Size(p.shape) && 0 <= c < Size(p.shape) && p.cells[r][c].Some? ==> Clear(p, g, p.cells[r][c].value.pos)
  }

  /** A cell a tile may occupy: inside columns 0 .. grid_width - 1, not below
      row 0, and not occupied in the grid. */
  predicate Clear(p: Piece, g: Grid, q: Pos)
    requires WellFormed(g)
  {
    0 <= q.x < p.gridWidth && 0 <= q.y && !IsOccupied(g, q.y, q.x)
  }

  /** Where a tile of the piece goes after a step of `dir`. */
  function Target(t: Tile, dir: Dir): Pos
  {
    Pos(t.pos.x + Delta(dir).0, t.pos.y + Delta(dir).1)
  }

  /** A step left that `can_be_moved` allows takes a tile either onto the
      cell of its left neighbour in the piece, or onto the cell the test has
      checked beside the row's leftmost tile. */
  lemma StepLeftClear(p: Piece, g: Grid, at: Pos, r: nat, c: nat)
    requires Tiled(p) && WellFormed(g) && Placed(p, g, at) && p.gridHeight == g.height
    requires forall i, j :: 0 <= i < Size(p.shape) && 0 <= j < Size(p.shape) && LeftEnd(p.cells, i, j) ==> SideOk(p, g, p.cells[i][j].value, true)
    requires r < Size(p.shape) && c < Size(p.shape) && p.cells[r][c].Some?
    ensures Clear(p, g, Target(p.cells[r][c].value, Left))
  {
    var m: Cells := p.cells;
    if !LeftEnd(m, r, c) {
      var k :| 0 <= k < c && m[r][k].Some?;
      var c0 := c - 1;
      assert m[r][c0].Some?;
      assert m[r][c0].value.pos == Target(m[r][c].value, Left);
    }
  }

  /** The mirror image of `StepLeftClear`. */
  lemma StepRightClear(p: Piece, g: Grid, at: Pos, r: nat, c: nat)
    requires Tiled(p) && WellFormed(g) && Placed(p, g, at) && p.gridHeight == g.height
    requires forall i, j :: 0 <= i < Size(p.shape) && 0 <= j < Size(p.shape) && RightEnd(p.cells, i, j) ==> SideOk(p, g, p.cells[i][j].value, false)
    requires r < Size(p.shape) && c < Size(p.shape) && p.cells[r][c].Some?
    ensures Clear(p, g, Target(p.cells[r][c].value, Right))
  {
    var m: Cells := p.cells;
    if !RightEnd(m, r, c) {
      var k :| c < k < Size(p.shape) && m[r][k].Some?;
      var c1 := c + 1;
      assert m[r][c1].Some?;
      assert m[r][c1].value.pos == Target(m[r][c].value, Right);
    }
  }

  /** A step down takes a tile onto the cell of the tile below it in the
      piece, or onto the cell the test has checked under a column's lowest
      tile. */
  lemma StepDownClear(p: Piece, g: Grid, at: Pos, r: nat, c: nat)
    requires Tiled(p) && WellFormed(g) && Placed(p, g, at) && p.gridHeight == g.height
    requires forall i, j :: 0 <= i < Size(p.shape) && 0 <= j < Size(p.shape) && BottomEnd(p.cells, i, j) ==> DownOk(p, g, p.cells[i][j].value)
    requires r < Size(p.shape) && c < Size(p.shape) && p.cells[r][c].Some?
    ensures Clear(p, g, Target(p.cells[r][c].value, Down))
  {
    var m: Cells := p.cells;
    if !BottomEnd(m, r, c) {
      var k :| r < k < Size(p.shape) && m[k][c].Some?;
      var r1 := r + 1;
      assert m[r1][c].Some?;
      assert m[r1][c].value.pos == Target(m[r][c].value, Down);
    }
  }

  /** A move that `can_be_moved` allows takes every tile to a clear cell. */
  lemma StepTargetClear(p: Piece, g: Grid, at: Pos, dir: Dir, r: nat, c: nat)
    requires Tiled(p) && WellFormed(g) && Placed(p, g, at) && p.gridHeight == g.height
    requires CanBeMoved(p, dir, g)
    requires r < Size(p.shape) && c < Size(p.shape) && p.cells[r][c].Some?
    ensures Clear(p, g, Target(p.cells[r][c].value, dir))
  {
    CanBeMovedMeans(p, dir, g);
    if dir == Left {
      StepLeftClear(p, g, at, r, c);
    } else if dir == Right {
      StepRightClear(p, g, at, r, c);
    } else {
      StepDownClear(p, g, at, r, c);
    }
  }

  /** Shifting a matrix keeps where its tiles are and shifts its layout. */
  lemma ShiftKeepsLayout(m: Cells, n: nat, at: Pos, dx: int, dy: int)
    requires Shaped(m, n, n)
    ensures Shaped(ShiftCells(m, dx, dy), n, n)
    ensures forall r, c :: 0 <= r < n && 0 <= c < n ==> (ShiftCells(m, dx, dy)[r][c].Some? <==> m[r][c].Some?)
    ensures Laid(m, n, at) ==> Laid(ShiftCells(m, dx, dy), n, Pos(at.x + dx, at.y + dy))
    ensures GapFree(m, n) ==> GapFree(ShiftCells(m, dx, dy), n)
  {
  }

  /** A piece translated so that every tile lands on a clear cell is placed
      from the translated corner. */
  lemma TranslatePlaced(p: Piece, g: Grid, at: Pos, dx: int, dy: int)
    requires Tiled(p) && WellFormed(g) && Laid(p.cells, Size(p.shape), at) && GapFree(p.cells, Size(p.shape))
    requires forall r, c :: 0 <= r < Size(p.shape) && 0 <= c < Size(p.shape) && p.cells[r][c].Some? ==>
      Clear(p, g, Pos(p.cells[r][c].value.pos.x + dx, p.cells[r][c].value.pos.y + dy))
    ensures Placed(Translate(p, dx, dy), g, Pos(at.x + dx, at.y + dy))
  {
    var n := Size(p.shape);
    var q := Translate(p, dx, dy);
    ShiftKeepsLayout(p.cells, n, at, dx, dy);
    forall i, j | 0 <= i < n && 0 <= j < n && q.cells[i][j].Some?
      ensures Clear(q, g, q.cells[i][j].value.pos)
    {
      assert q.cells[i][j] == ShiftCell(p.cells[i][j], dx, dy);
    }
  }

  /** Every tile of a piece that `can_be_moved` lets through lands on a clear
      cell. */
  lemma AllTargetsClear(p: Piece, g: Grid, at: Pos, dir: Dir)
    requires Tiled(p) && WellFormed(g) && Placed(p, g, at) && p.gridHeight == g.height
    requires CanBeMoved(p, dir, g)
    ensures forall r, c :: 0 <= r < Size(p.shape) && 0 <= c < Size(p.shape) && p.cells[r][c].Some? ==>
      Clear(p, g, Pos(p.cells[r][c].value.pos.x + Delta(dir).0, p.cells[r][c].value.pos.y + Delta(dir).1))
  {
    forall i, j | 0 <= i < Size(p.shape) && 0 <= j < Size(p.shape) && p.cells[i][j].Some?
      ensures Clear(p, g, Target(p.cells[i][j].value, dir))
    {
      StepTargetClear(p, g, at, dir, i, j);
    }
  }

  /** The collision rules keep a piece placed: after a successful move the
      piece is laid out from the moved corner and every tile is on a clear
      cell, given that the piece and the grid agree on the grid height. */
  lemma MoveKeepsPlaced(p: Piece, g: Grid, at: Pos, dir: Dir)
    requires Tiled(p) && WellFormed(g) && Placed(p, g, at) && p.gridHeight == g.height
    ensures var r := MovePiece(p, dir, g);
      r.0 ==> Placed(r.1, g, Pos(at.x + Delta(dir).0, at.y + Delta(dir).1))
  {
    if MovePiece(p, dir, g).0 {
      StepPlaced(p, g, at, dir);
    }
  }

  /** A piece free to move one step is placed one step further on once translated. */
  lemma StepPlaced(p: Piece, g: Grid, at: Pos, dir: Dir)
    requires Tiled(p) && WellFormed(g) && Placed(p, g, at) && p.gridHeight == g.height
    requires CanBeMoved(p, dir, g)
    ensures Placed(Translate(p, Delta(dir).0, Delta(dir).1), g, Pos(at.x + Delta(dir).0, at.y + Delta(dir).1))
  {
    AllTargetsClear(p, g, at, dir);
    TranslatePlaced(p, g, at, Delta(dir).0, Delta(dir).1);
  }

  // ---------------------------------------------------------------------------
  // move_pos: tetromino.py:131-152

  /** The pivot: the first of [0][0], [0][1], [1][0] that holds a tile
      (`None` when none does, where the source reads `None.get_position`). */
  function Pivot(m: Cells): (r: Option<Tile>)
    requires |m| >= 2 && |m[0]| >= 2 && |m[1]| >= 1
    ensures r.Some? <==> m[0][0].Some? || m[0][1].Some? || m[1][0].Some?
  {
    if m[0][0].Some? then m[0][0]
    else if m[0][1].Some? then m[0][1]
    else m[1][0]
  }

  /** `move_pos(dx, dy)`: every tile moved by the one vector that takes the
      pivot to (dx, dy); the corner is left as it was. */
  function MovePos(p: Piece, dx: int, dy: int): (r: Option<Piece>)
    requires Tiled(p)
    ensures r.Some? <==> Pivot(p.cells).Some?
    ensures r.Some? ==> Tiled(r.value) && r.value.corner == p.corner && r.value.shape == p.shape
  {
    match Pivot(p.cells)
    case None => None
    case Some(pivot) => Some(p.(cells := ShiftCells(p.cells, dx - pivot.pos.x, dy - pivot.pos.y)))
  }

  /** `move_pos` lands the pivot on (dx, dy), moves all tiles by the same
      vector, and doing it twice is the same as doing it once. */
  lemma MovePosPivot(p: Piece, dx: int, dy: int)
    requires Tiled(p) && MovePos(p, dx, dy).Some?
    ensures var q := MovePos(p, dx, dy).value;
      && Pivot(q.cells).Some? && Pivot(q.cells).value.pos == Pos(dx, dy)
      && Pivot(q.cells).value.number == Pivot(p.cells).value.number
      && (exists vx, vy :: q.cells == ShiftCells(p.cells, vx, vy))
      && MovePos(q, dx, dy) == Some(q)
  {
    var pivot := Pivot(p.cells).value;
    var vx, vy := dx - pivot.pos.x, dy - pivot.pos.y;
    var q := MovePos(p, dx, dy).value;
    assert q.cells[0] == ShiftRow(p.cells[0], vx, vy);
    assert q.cells[1] == ShiftRow(p.cells[1], vx, vy);
    ShiftComposes(p.cells, vx, vy, 0, 0);
    ShiftComposes(q.cells, 0, 0, 0, 0);
  }

  /** `move_pos` never fails on a freshly spawned piece: each table has a
      tile at [0][0], [0][1] or [1][0]. */
  lemma MovePosSpawned(s: Shape, gridHeight: int, gridWidth: int, x: int, dx: int, dy: int)
    ensures MovePos(NewPiece(s, gridHeight, gridWidth, x), dx, dy).Some?
  {
    var p := NewPiece(s, gridHeight, gridWidth, x);
    NewPieceLayout(s, gridHeight, gridWidth, x);
    if s == S || s == I {
      assert (1, 0) in Table(s);
    } else {
      assert (0, 0) in Table(s);
    }
  }
}
