/** `Tetromino.rotation` (tetromino.py:156-173): the tile matrix is turned a
    quarter clockwise, then each tile, in row-major order of the turned matrix,
    is moved to its new place and, when that place is off the 12 game columns,
    the whole piece is nudged back with guarded one-column moves. Nothing
    checks the grid for the tiles' new places, and the piece ends one row
    higher than it started. */
module Rotation {
  import opened Common
  import opened Tiles
  import opened Grid
  import opened Pieces

  /** The slot permutation: the tile in slot [r][c] goes to slot [c][n - 1 - r]. */
  function Turn(m: Cells, n: nat): (t: Cells)
    requires Shaped(m, n, n)
    ensures Shaped(t, n, n)
    ensures forall r, c :: 0 <= r < n && 0 <= c < n ==> t[c][n - 1 - r] == m[r][c]
  {
    seq(n, i requires 0 <= i < n => seq(n, j requires 0 <= j < n => m[n - 1 - j][i]))
  }

  lemma TurnTwice(m: Cells, n: nat)
    requires Shaped(m, n, n)
    ensures forall i, j :: 0 <= i < n && 0 <= j < n ==> Turn(Turn(m, n), n)[i][j] == m[n - 1 - i][n - 1 - j]
  {
    var t: Cells := Turn(m, n);
    forall i, j | 0 <= i < n && 0 <= j < n ensures Turn(t, n)[i][j] == m[n - 1 - i][n - 1 - j] {
      var r, c := n - 1 - j, i;
      assert Turn(t, n)[c][n - 1 - r] == t[r][c];
      var r', c' := n - 1 - c, r;
      assert t[c'][n - 1 - r'] == m[r'][c'];
    }
  }

  /** Four quarter turns put every tile back in its slot. */
  lemma {:induction false} TurnFour(m: Cells, n: nat)
    requires Shaped(m, n, n)
    ensures Turn(Turn(Turn(Turn(m, n), n), n), n) == m
  {
    var h: Cells := Turn(Turn(m, n), n);
    TurnTwice(m, n);
    TurnTwice(h, n);
    var f: Cells := Turn(Turn(h, n), n);
    forall i | 0 <= i < n ensures f[i] == m[i] {
      forall j | 0 <= j < n ensures f[i][j] == m[i][j] {
        assert f[i][j] == h[n - 1 - i][n - 1 - j];
      }
    }
  }

  /** A quarter turn maps rows onto columns, so a matrix without holes keeps
      none. */
  lemma TurnGapFree(m: Cells, n: nat)
    requires Shaped(m, n, n) && GapFree(m, n)
    ensures GapFree(Turn(m, n), n)
  {
    var t: Cells := Turn(m, n);
    forall r, a, b, c | 0 <= r < n && 0 <= a < b < c < n && t[r][a].Some? && t[r][c].Some?
      ensures t[r][b].Some?
    {
      assert t[r][a] == m[n - 1 - a][r] && t[r][b] == m[n - 1 - b][r] && t[r][c] == m[n - 1 - c][r];
    }
    forall c, a, b, d | 0 <= c < n && 0 <= a < b < d < n && t[a][c].Some? && t[d][c].Some?
      ensures t[b][c].Some?
    {
      assert t[a][c] == m[n - 1 - c][a] && t[b][c] == m[n - 1 - c][b] && t[d][c] == m[n - 1 - c][d];
    }
  }

  // ---------------------------------------------------------------------------
  // The procedure as written

  /** `range(k)` guarded moves of the whole piece in one direction; each one
      that `can_be_moved` refuses changes nothing. */
  function Repeat(p: Piece, g: Grid, dir: Dir, k: nat): (q: Piece)
    requires Tiled(p) && WellFormed(g)
    ensures Tiled(q) && q.shape == p.shape && q.gridHeight == p.gridHeight && q.gridWidth == p.gridWidth
    decreases k
  {
    if k == 0 then p else Repeat(MovePiece(p, dir, g).1, g, dir, k - 1)
  }

  /** The nudge after a tile lands in column x: x < 0 gives -x moves right,
      x >= 12 gives x - 11 moves left. */
  function Kick(p: Piece, g: Grid, x: int): (q: Piece)
    requires Tiled(p) && WellFormed(g)
    ensures Tiled(q) && q.shape == p.shape && q.gridHeight == p.gridHeight && q.gridWidth == p.gridWidth
  {
    if x < 0 then Repeat(p, g, Right, -x)
    else if x >= GameWidth then Repeat(p, g, Left, x - (GameWidth - 1))
    else p
  }

  /** The body of the second loop for slot [r][c] of the turned matrix: the
      tile there, if any, moves by (c - r, n - r - c), and the piece is nudged
      back towards the game columns. */
  function Step(p: Piece, g: Grid, r: nat, c: nat): (q: Piece)
    requires Tiled(p) && WellFormed(g) && r < Size(p.shape) && c < Size(p.shape)
    ensures Tiled(q) && q.shape == p.shape && q.gridHeight == p.gridHeight && q.gridWidth == p.gridWidth
  {
    var n := Size(p.shape);
    match p.cells[r][c]
    case None => p
    case Some(t) =>
      var moved := Move(t, c - r, n - r - c);
      Kick(PutTile(p, r, c, moved), g, moved.pos.x)
  }

  /** The piece with slot [r][c] holding `t`. */
  function PutTile(p: Piece, r: nat, c: nat, t: Tile): (q: Piece)
    requires Tiled(p) && r < Size(p.shape) && c < Size(p.shape)
    ensures Tiled(q) && q.shape == p.shape && q.gridHeight == p.gridHeight && q.gridWidth == p.gridWidth && q.corner == p.corner
    ensures q.cells == p.cells[r := p.cells[r][c := Some(t)]]
  {
    p.(cells := p.cells[r := p.cells[r][c := Some(t)]])
  }

  /** The second loop of `rotation`, from slot [r][c] on in row-major order. */
  function RotateFrom(p: Piece, g: Grid, r: nat, c: nat): (q: Piece)
    requires Tiled(p) && WellFormed(g) && r <= Size(p.shape) && c <= Size(p.shape)
    ensures Tiled(q) && q.shape == p.shape && q.gridHeight == p.gridHeight && q.gridWidth == p.gridWidth
    decreases Size(p.shape) - r, Size(p.shape) - c
  {
    var n := Size(p.shape);
    if r == n then p
    else if c == n then RotateFrom(p, g, r + 1, 0)
    else RotateFrom(Step(p, g, r, c), g, r, c + 1)
  }

  /** `rotation(game_grid, self)`. */
  function Rotate(p: Piece, g: Grid): (q: Piece)
    requires Tiled(p) && WellFormed(g)
    ensures Tiled(q) && q.shape == p.shape && q.gridHeight == p.gridHeight && q.gridWidth == p.gridWidth
  {
    RotateFrom(p.(cells := Turn(p.cells, Size(p.shape))), g, 0, 0)
  }

  // ---------------------------------------------------------------------------
  // A reference description of the result

  /** A turned tile once it has been moved to its new place, with the piece
      nudged k columns in all. */
  function Done(t: Cells, n: nat, k: int, i: nat, j: nat): Option<Tile>
    requires Shaped(t, n, n) && i < n && j < n
  {
    ShiftCell(t[i][j], k + j - i, n - i - j)
  }

  /** A turned tile not yet reached: only the nudges have moved it. */
  function Pending(t: Cells, n: nat, k: int, i: nat, j: nat): Option<Tile>
    requires Shaped(t, n, n) && i < n && j < n
  {
    ShiftCell(t[i][j], k, 0)
  }

  /** Every tile of the turned matrix `t` moved to its place, then k columns. */
  function Spun(t: Cells, n: nat, k: int): (s: Cells)
    requires Shaped(t, n, n)
    ensures Shaped(s, n, n)
    ensures forall i, j :: 0 <= i < n && 0 <= j < n ==> s[i][j] == Done(t, n, k, i, j)
  {
    seq(n, i requires 0 <= i < n => seq(n, j requires 0 <= j < n => Done(t, n, k, i, j)))
  }

  /** The piece a rotation produces when the nudges add up to k columns: the
      turned tiles moved to their places and k columns over, the corner k
      columns over and not lifted. */
  function Rotated(p: Piece, k: int): Piece
    requires Tiled(p)
  {
    p.(cells := Spun(Turn(p.cells, Size(p.shape)), Size(p.shape), k), corner := Pos(p.corner.x + k, p.corner.y))
  }

  /** The state of the second loop at slot [r][c]: slots before it hold placed
      tiles, the rest hold tiles only the nudges have moved. */
  predicate Midway(m: Cells, t: Cells, n: nat, k: int, r: nat, c: nat)
    requires Shaped(m, n, n) && Shaped(t, n, n)
  {
    forall i, j :: 0 <= i < n && 0 <= j < n ==> m[i][j] == (if Before(i, j, r, c) then Done(t, n, k, i, j) else Pending(t, n, k, i, j))
  }

  /** A guarded move left or right either does nothing or shifts the piece
      one column. */
  lemma StepShifts(p: Piece, g: Grid, dir: Dir)
    requires Tiled(p) && WellFormed(g) && dir != Down
    ensures var q := MovePiece(p, dir, g).1;
      q == p || q == Translate(p, Delta(dir).0, 0)
  {
  }

  lemma TranslateComposes(p: Piece, a: int, b: int)
    ensures Translate(Translate(p, a, 0), b, 0) == Translate(p, a + b, 0)
    ensures Translate(p, 0, 0) == p
  {
    ShiftComposes(p.cells, a, 0, b, 0);
  }

  /** Horizontal shift of the corner from p to q. */
  function Drift(p: Piece, q: Piece): int
  {
    q.corner.x - p.corner.x
  }

  /** k guarded moves shift the whole piece, tiles and corner alike, by
      between 0 and k columns in the direction asked for. */
  lemma {:induction false} RepeatShifts(p: Piece, g: Grid, dir: Dir, k: nat)
    requires Tiled(p) && WellFormed(g) && dir != Down
    ensures var q := Repeat(p, g, dir, k);
      && q == Translate(p, Drift(p, q), 0)
      && (if dir == Right then 0 <= Drift(p, q) <= k else -(k as int) <= Drift(p, q) <= 0)
    decreases k
  {
    TranslateComposes(p, 0, 0);
    if k > 0 {
      var q := MovePiece(p, dir, g).1;
      StepShifts(p, g, dir);
      RepeatShifts(q, g, dir, k - 1);
      var d := Drift(q, Repeat(q, g, dir, k - 1));
      if q != p {
        TranslateComposes(p, Delta(dir).0, d);
      }
    }
  }

  /** A nudge is a horizontal shift of the whole piece. */
  lemma KickShifts(p: Piece, g: Grid, x: int)
    requires Tiled(p) && WellFormed(g)
    ensures Kick(p, g, x) == Translate(p, Drift(p, Kick(p, g, x)), 0)
  {
    if x < 0 {
      RepeatShifts(p, g, Right, -x);
    } else if x >= GameWidth {
      RepeatShifts(p, g, Left, x - (GameWidth - 1));
    } else {
      TranslateComposes(p, 0, 0);
    }
  }

  /** Shifting a midway matrix shifts the running total of the nudges. */
  lemma MidwayShift(m: Cells, t: Cells, n: nat, k: int, r: nat, c: nat, d: int)
    requires Shaped(m, n, n) && Shaped(t, n, n) && Midway(m, t, n, k, r, c)
    ensures Midway(ShiftCells(m, d, 0), t, n, k + d, r, c)
  {
    var s: Cells := ShiftCells(m, d, 0);
    forall i, j | 0 <= i < n && 0 <= j < n
      ensures s[i][j] == (if Before(i, j, r, c) then Done(t, n, k + d, i, j) else Pending(t, n, k + d, i, j))
    {
      assert s[i][j] == ShiftCell(m[i][j], d, 0);
      if t[i][j].Some? {
        MoveComposes(t[i][j].value, k + j - i, n - i - j, d, 0);
        MoveComposes(t[i][j].value, k, 0, d, 0);
      }
    }
  }

  /** Placing the tile at slot [r][c] advances the midway state by one slot. */
  lemma PlaceAdvances(m: Cells, t: Cells, n: nat, k: int, r: nat, c: nat, tile: Tile)
    requires Shaped(m, n, n) && Shaped(t, n, n) && r < n && c < n && Midway(m, t, n, k, r, c)
    requires m[r][c] == Some(tile)
    ensures Midway(m[r := m[r][c := Some(Move(tile, c - r, n - r - c))]], t, n, k, r, c + 1)
  {
    var m': Cells := m[r := m[r][c := Some(Move(tile, c - r, n - r - c))]];
    assert m[r][c] == Pending(t, n, k, r, c);
    MoveComposes(t[r][c].value, k, 0, c - r, n - r - c);
    forall i, j | 0 <= i < n && 0 <= j < n
      ensures m'[i][j] == (if Before(i, j, r, c + 1) then Done(t, n, k, i, j) else Pending(t, n, k, i, j))
    {
      if i != r || j != c {
        assert m'[i][j] == m[i][j];
      }
    }
  }

  /** An empty slot advances the midway state without any move. */
  lemma SkipAdvances(m: Cells, t: Cells, n: nat, k: int, r: nat, c: nat)
    requires Shaped(m, n, n) && Shaped(t, n, n) && r < n && c < n && Midway(m, t, n, k, r, c)
    requires m[r][c].None?
    ensures Midway(m, t, n, k, r, c + 1)
  {
    assert m[r][c] == Pending(t, n, k, r, c);
  }

  lemma WrapAdvances(m: Cells, t: Cells, n: nat, k: int, r: nat)
    requires Shaped(m, n, n) && Shaped(t, n, n) && Midway(m, t, n, k, r, n)
    ensures Midway(m, t, n, k, r + 1, 0)
  {
  }

  lemma MidwayEnd(m: Cells, t: Cells, n: nat, k: int)
    requires Shaped(m, n, n) && Shaped(t, n, n) && Midway(m, t, n, k, n, 0)
    ensures m == Spun(t, n, k)
  {
    var s: Cells := Spun(t, n, k);
    forall i | 0 <= i < n ensures m[i] == s[i] {
      forall j | 0 <= j < n ensures m[i][j] == s[i][j] {
        assert Before(i, j, n, 0);
      }
    }
  }

  /** One step of the second loop advances the midway state by one slot, with
      the nudge added to the running total. */
  lemma StepAdvances(p: Piece, g: Grid, t: Cells, k: int, r: nat, c: nat)
    requires Tiled(p) && WellFormed(g) && r < Size(p.shape) && c < Size(p.shape)
    requires Shaped(t, Size(p.shape), Size(p.shape)) && Midway(p.cells, t, Size(p.shape), k, r, c)
    ensures var q := Step(p, g, r, c);
      Midway(q.cells, t, Size(p.shape), k + Drift(p, q), r, c + 1) && q.corner.y == p.corner.y
  {
    if p.cells[r][c].None? {
      SkipAdvances(p.cells, t, Size(p.shape), k, r, c);
    } else {
      TileAdvances(p, g, t, k, r, c, p.cells[r][c].value);
    }
  }

  lemma TileAdvances(p: Piece, g: Grid, t: Cells, k: int, r: nat, c: nat, tile: Tile)
    requires Tiled(p) && WellFormed(g) && r < Size(p.shape) && c < Size(p.shape)
    requires Shaped(t, Size(p.shape), Size(p.shape)) && Midway(p.cells, t, Size(p.shape), k, r, c)
    requires p.cells[r][c] == Some(tile)
    ensures var q := Kick(PutTile(p, r, c, Move(tile, c - r, Size(p.shape) - r - c)), g, Move(tile, c - r, Size(p.shape) - r - c).pos.x);
      Midway(q.cells, t, Size(p.shape), k + Drift(p, q), r, c + 1) && q.corner.y == p.corner.y
  {
    var n := Size(p.shape);
    var moved := Move(tile, c - r, n - r - c);
    var q := PutTile(p, r, c, moved);
    PlaceAdvances(p.cells, t, n, k, r, c, tile);
    assert Midway(q.cells, t, n, k, r, c + 1);
    KickAdvances(q, g, t, k, r, c + 1, moved.pos.x);
  }

  /** A nudge keeps the midway state, with its shift added to the total. */
  lemma KickAdvances(q: Piece, g: Grid, t: Cells, k: int, r: nat, c: nat, x: int)
    requires Tiled(q) && WellFormed(g) && Shaped(t, Size(q.shape), Size(q.shape))
    requires Midway(q.cells, t, Size(q.shape), k, r, c)
    ensures var q' := Kick(q, g, x);
      Midway(q'.cells, t, Size(q.shape), k + Drift(q, q'), r, c) && q'.corner.y == q.corner.y
  {
    KickShifts(q, g, x);
    MidwayShift(q.cells, t, Size(q.shape), k, r, c, Drift(q, Kick(q, g, x)));
  }

  /** The loop invariant of the second loop: from any midway state the loop
      ends with every tile placed, the tiles shifted by exactly as many
      columns as the corner, and the corner not lifted. */
  lemma {:induction false} RotateFromMidway(p: Piece, g: Grid, t: Cells, k: int, r: nat, c: nat)
    requires Tiled(p) && WellFormed(g) && r <= Size(p.shape) && c <= Size(p.shape)
    requires Shaped(t, Size(p.shape), Size(p.shape)) && Midway(p.cells, t, Size(p.shape), k, r, c)
    ensures var q := RotateFrom(p, g, r, c);
      q == p.(cells := Spun(t, Size(p.shape), k + Drift(p, q)), corner := Pos(q.corner.x, p.corner.y))
    decreases Size(p.shape) - r, Size(p.shape) - c
  {
    var n := Size(p.shape);
    if r == n {
      MidwayEnd(p.cells, t, n, k);
    } else if c == n {
      WrapAdvances(p.cells, t, n, k, r);
      RotateFromMidway(p, g, t, k, r + 1, 0);
    } else {
      var q := Step(p, g, r, c);
      StepAdvances(p, g, t, k, r, c);
      RotateFromMidway(q, g, t, k + Drift(p, q), r, c + 1);
    }
  }

  /** How far the nudges of a rotation moved the corner. */
  function Nudge(p: Piece, g: Grid): int
    requires Tiled(p) && WellFormed(g)
  {
    Rotate(p, g).corner.x - p.corner.x
  }

  /** Whatever the grid, a rotation is a quarter turn with every tile moved to
      its place, followed by a horizontal shift of the tiles by exactly as many
      columns as the corner moved. */
  lemma RotateIsRotated(p: Piece, g: Grid)
    requires Tiled(p) && WellFormed(g)
    ensures Rotate(p, g) == Rotated(p, Nudge(p, g))
  {
    var n := Size(p.shape);
    var t: Cells := Turn(p.cells, n);
    forall i, j | 0 <= i < n && 0 <= j < n ensures t[i][j] == Pending(t, n, 0, i, j) {
      ShiftComposes(t, 0, 0, 0, 0);
      assert ShiftCells(t, 0, 0)[i][j] == t[i][j];
    }
    RotateFromMidway(p.(cells := t), g, t, 0, 0, 0);
  }

  // ---------------------------------------------------------------------------
  // Where the tiles end up

  /** The matrix with every tile moved onto its layout place from `at`. */
  function Relay(m: Cells, n: nat, at: Pos): (s: Cells)
    requires Shaped(m, n, n)
    ensures Shaped(s, n, n) && Laid(s, n, at)
    ensures forall i, j :: 0 <= i < n && 0 <= j < n ==> (s[i][j].Some? <==> m[i][j].Some?)
    ensures forall i, j :: 0 <= i < n && 0 <= j < n && m[i][j].Some? ==> s[i][j].value.number == m[i][j].value.number
  {
    seq(n, i requires 0 <= i < n => seq(n, j requires 0 <= j < n => RelayCell(m[i][j], Pos(at.x + j, at.y + (n - 1) - i))))
  }

  function RelayCell(x: Option<Tile>, q: Pos): Option<Tile>
  {
    match x
    case None => None
    case Some(t) => Some(SetPosition(t, q))
  }

  /** Two matrices with tiles in the same slots carrying the same numbers, laid
      out from the same place, are equal. */
  lemma LaidUnique(a: Cells, b: Cells, n: nat, at: Pos)
    requires Shaped(a, n, n) && Shaped(b, n, n) && Laid(a, n, at) && Laid(b, n, at)
    requires forall i, j :: 0 <= i < n && 0 <= j < n ==> (a[i][j].Some? <==> b[i][j].Some?)
    requires forall i, j :: 0 <= i < n && 0 <= j < n && a[i][j].Some? ==> a[i][j].value.number == b[i][j].value.number
    ensures a == b
  {
    forall i | 0 <= i < n ensures a[i] == b[i] {
      forall j | 0 <= j < n ensures a[i][j] == b[i][j] {
      }
    }
  }

  /** Turning a laid-out matrix and placing each tile lifts the layout by one
      row and shifts it by the nudges. */
  lemma SpunLaid(m: Cells, n: nat, at: Pos, k: int)
    requires Shaped(m, n, n) && Laid(m, n, at)
    ensures Spun(Turn(m, n), n, k) == Relay(Turn(m, n), n, Pos(at.x + k, at.y + 1))
  {
    var t: Cells := Turn(m, n);
    var s: Cells := Spun(t, n, k);
    var b := Pos(at.x + k, at.y + 1);
    forall i, j | 0 <= i < n && 0 <= j < n && s[i][j].Some?
      ensures s[i][j].value.pos == Pos(b.x + j, b.y + (n - 1) - i)
    {
      var r, c := n - 1 - j, i;
      assert t[c][n - 1 - r] == m[r][c];
    }
    LaidUnique(s, Relay(t, n, b), n, b);
  }

  /** A rotation keeps the piece laid out without holes, one row higher and
      shifted by the nudge; the corner takes the nudge but is not lifted. */
  lemma RotationLifts(p: Piece, g: Grid, at: Pos)
    requires Tiled(p) && WellFormed(g)
    requires Laid(p.cells, Size(p.shape), at) && GapFree(p.cells, Size(p.shape))
    ensures Laid(Rotate(p, g).cells, Size(p.shape), Pos(at.x + Nudge(p, g), at.y + 1))
    ensures GapFree(Rotate(p, g).cells, Size(p.shape))
    ensures Rotate(p, g).corner.y == p.corner.y
  {
    var n := Size(p.shape);
    var k := Nudge(p, g);
    var t: Cells := Turn(p.cells, n);
    RotateIsRotated(p, g);
    assert Rotate(p, g).cells == Spun(t, n, k);
    SpunLaid(p.cells, n, at, k);
    TurnGapFree(p.cells, n);
    SpunGapFree(t, n, k);
  }

  /** Moving tiles keeps the slots they occupy, so a matrix without holes
      keeps none. */
  lemma SpunGapFree(t: Cells, n: nat, k: int)
    requires Shaped(t, n, n) && GapFree(t, n)
    ensures GapFree(Spun(t, n, k), n)
  {
    var s: Cells := Spun(t, n, k);
    assert forall i, j :: 0 <= i < n && 0 <= j < n ==> (s[i][j].Some? <==> t[i][j].Some?);
  }

  // ---------------------------------------------------------------------------
  // Rotating a piece that stays inside the game columns

  /** Turned tiles not yet reached sit where the quarter turn left them: the
      tile in slot [i][j] of the turned matrix is at (at.x + i, at.y + j). */
  predicate Awaiting(t: Cells, n: nat, at: Pos)
    requires Shaped(t, n, n)
  {
    forall i, j :: 0 <= i < n && 0 <= j < n && t[i][j].Some? ==> t[i][j].value.pos == Pos(at.x + i, at.y + j)
  }

  lemma TurnAwaiting(m: Cells, n: nat, at: Pos)
    requires Shaped(m, n, n) && Laid(m, n, at)
    ensures Awaiting(Turn(m, n), n, at)
  {
    var t: Cells := Turn(m, n);
    forall i, j | 0 <= i < n && 0 <= j < n && t[i][j].Some? ensures t[i][j].value.pos == Pos(at.x + i, at.y + j) {
      var r, c := n - 1 - j, i;
      assert t[c][n - 1 - r] == m[r][c];
    }
  }

  /** With the turned tiles inside columns 0 .. 11 no nudge ever fires. */
  lemma {:induction false} RotateFromUnkicked(p: Piece, g: Grid, t: Cells, at: Pos, r: nat, c: nat)
    requires Tiled(p) && WellFormed(g) && r <= Size(p.shape) && c <= Size(p.shape)
    requires Shaped(t, Size(p.shape), Size(p.shape)) && Midway(p.cells, t, Size(p.shape), 0, r, c)
    requires Awaiting(t, Size(p.shape), at) && 0 <= at.x && at.x + Size(p.shape) <= GameWidth
    ensures RotateFrom(p, g, r, c) == p.(cells := Spun(t, Size(p.shape), 0))
    decreases Size(p.shape) - r, Size(p.shape) - c
  {
    var n := Size(p.shape);
    if r == n {
      MidwayEnd(p.cells, t, n, 0);
    } else if c == n {
      WrapAdvances(p.cells, t, n, 0, r);
      RotateFromUnkicked(p, g, t, at, r + 1, 0);
    } else {
      match p.cells[r][c]
      case None =>
        SkipAdvances(p.cells, t, n, 0, r, c);
        RotateFromUnkicked(p, g, t, at, r, c + 1);
      case Some(tile) =>
        var moved := Move(tile, c - r, n - r - c);
        PlaceAdvances(p.cells, t, n, 0, r, c, tile);
        assert p.cells[r][c] == Pending(t, n, 0, r, c);
        assert moved.pos.x == at.x + c;
        RotateFromUnkicked(Step(p, g, r, c), g, t, at, r, c + 1);
    }
  }

  /** A piece whose box lies inside the game columns rotates without any
      nudge: the tiles turn in place, one row up, and the corner stays. */
  lemma RotationUnkicked(p: Piece, g: Grid, at: Pos)
    requires Tiled(p) && WellFormed(g) && Laid(p.cells, Size(p.shape), at)
    requires 0 <= at.x && at.x + Size(p.shape) <= GameWidth
    ensures Rotate(p, g) == Rotated(p, 0)
    ensures Rotate(p, g).cells == Relay(Turn(p.cells, Size(p.shape)), Size(p.shape), Pos(at.x, at.y + 1))
  {
    var n := Size(p.shape);
    var t: Cells := Turn(p.cells, n);
    TurnAwaiting(p.cells, n, at);
    forall i, j | 0 <= i < n && 0 <= j < n ensures t[i][j] == Pending(t, n, 0, i, j) {
      ShiftComposes(t, 0, 0, 0, 0);
      assert ShiftCells(t, 0, 0)[i][j] == t[i][j];
    }
    RotateFromUnkicked(p.(cells := t), g, t, at, 0, 0);
    SpunLaid(p.cells, n, at, 0);
  }

  /** Re-laying a turned re-laid matrix forgets the first layout. */
  lemma RelayTurnRelay(m: Cells, n: nat, a: Pos, b: Pos)
    requires Shaped(m, n, n)
    ensures Relay(Turn(Relay(m, n, a), n), n, b) == Relay(Turn(m, n), n, b)
  {
    var x: Cells := Relay(Turn(Relay(m, n, a), n), n, b);
    var y: Cells := Relay(Turn(m, n), n, b);
    var t1: Cells := Turn(Relay(m, n, a), n);
    var t2: Cells := Turn(m, n);
    forall i, j | 0 <= i < n && 0 <= j < n ensures t1[i][j].Some? <==> t2[i][j].Some?
      ensures t2[i][j].Some? ==> t1[i][j].value.number == t2[i][j].value.number
    {
      var r, c := n - 1 - j, i;
      assert t1[c][n - 1 - r] == Relay(m, n, a)[r][c];
      assert t2[c][n - 1 - r] == m[r][c];
    }
    LaidUnique(x, y, n, b);
  }

  /** A shift of a laid-out matrix is the same matrix re-laid from the
      shifted place. */
  lemma ShiftIsRelay(m: Cells, n: nat, at: Pos, dx: int, dy: int)
    requires Shaped(m, n, n) && Laid(m, n, at)
    ensures ShiftCells(m, dx, dy) == Relay(m, n, Pos(at.x + dx, at.y + dy))
  {
    ShiftKeepsLayout(m, n, at, dx, dy);
    LaidUnique(ShiftCells(m, dx, dy), Relay(m, n, Pos(at.x + dx, at.y + dy)), n, Pos(at.x + dx, at.y + dy));
  }

  /** A rotation of a re-laid matrix inside the game columns re-lays the
      turned matrix one row up. */
  lemma RotateRelaid(p: Piece, g: Grid, m: Cells, b: Pos)
    requires Tiled(p) && WellFormed(g) && Shaped(m, Size(p.shape), Size(p.shape))
    requires p.cells == Relay(m, Size(p.shape), b)
    requires 0 <= b.x && b.x + Size(p.shape) <= GameWidth
    ensures Rotate(p, g) == p.(cells := Relay(Turn(m, Size(p.shape)), Size(p.shape), Pos(b.x, b.y + 1)))
  {
    RotationUnkicked(p, g, b);
    RelayTurnRelay(m, Size(p.shape), b, Pos(b.x, b.y + 1));
  }

  /** Two rotations of a re-laid matrix inside the game columns. */
  lemma TwoRotations(p: Piece, g: Grid, m: Cells, b: Pos)
    requires Tiled(p) && WellFormed(g) && Shaped(m, Size(p.shape), Size(p.shape))
    requires p.cells == Relay(m, Size(p.shape), b)
    requires 0 <= b.x && b.x + Size(p.shape) <= GameWidth
    ensures Rotate(Rotate(p, g), g) == p.(cells := Relay(Turn(Turn(m, Size(p.shape)), Size(p.shape)), Size(p.shape), Pos(b.x, b.y + 2)))
  {
    var n := Size(p.shape);
    RotateRelaid(p, g, m, b);
    var p1 := p.(cells := Relay(Turn(m, n), n, Pos(b.x, b.y + 1)));
    RotateRelaid(p1, g, Turn(m, n), Pos(b.x, b.y + 1));
  }

  /** Four rotations of a re-laid matrix inside the game columns. */
  lemma FourRelaid(p: Piece, g: Grid, m: Cells, b: Pos)
    requires Tiled(p) && WellFormed(g) && Shaped(m, Size(p.shape), Size(p.shape))
    requires p.cells == Relay(m, Size(p.shape), b)
    requires 0 <= b.x && b.x + Size(p.shape) <= GameWidth
    ensures var n := Size(p.shape);
      Rotate(Rotate(Rotate(Rotate(p, g), g), g), g) == p.(cells := Relay(Turn(Turn(Turn(Turn(m, n), n), n), n), n, Pos(b.x, b.y + 4)))
  {
    var n := Size(p.shape);
    var m2: Cells := Turn(Turn(m, n), n);
    TwoRotations(p, g, m, b);
    var p2 := p.(cells := Relay(m2, n, Pos(b.x, b.y + 2)));
    TwoRotations(p2, g, m2, Pos(b.x, b.y + 2));
  }

  /** Four rotations of a piece inside the game columns bring every tile back
      to its slot and the piece four rows higher; the corner never moves. */
  lemma FourRotations(p: Piece, g: Grid, at: Pos)
    requires Tiled(p) && WellFormed(g) && Laid(p.cells, Size(p.shape), at)
    requires 0 <= at.x && at.x + Size(p.shape) <= GameWidth
    ensures Rotate(Rotate(Rotate(Rotate(p, g), g), g), g) == p.(cells := ShiftCells(p.cells, 0, 4))
  {
    RelayLaid(p.cells, Size(p.shape), at);
    FourRelaid(p, g, p.cells, at);
    RelayFour(p.cells, Size(p.shape), at);
  }

  /** Re-laying four turns of a laid-out matrix four rows up is the matrix
      shifted four rows up. */
  lemma RelayFour(m: Cells, n: nat, at: Pos)
    requires Shaped(m, n, n) && Laid(m, n, at)
    ensures Relay(Turn(Turn(Turn(Turn(m, n), n), n), n), n, Pos(at.x, at.y + 4)) == ShiftCells(m, 0, 4)
  {
    TurnFour(m, n);
    ShiftIsRelay(m, n, at, 0, 4);
  }

  /** Re-laying a laid-out matrix from its own place changes nothing. */
  lemma RelayLaid(m: Cells, n: nat, at: Pos)
    requires Shaped(m, n, n) && Laid(m, n, at)
    ensures Relay(m, n, at) == m
  {
    LaidUnique(Relay(m, n, at), m, n, at);
  }
}
