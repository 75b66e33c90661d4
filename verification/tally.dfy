/** Counting the tiles of a matrix of optional tiles, row by row. The same
    recursion serves every quantity that is a sum over tiles: how many tiles
    there are, the total of their numbers, and how many carry a given number
    (which, for all numbers at once, is the multiset of tile numbers). */
module Tally {
  import opened Common
  import opened Tiles

  datatype Measure = TileCount | NumberTotal | NumberIs(v: int)

  function Weigh(c: Option<Tile>, m: Measure): int
  {
    match c
    case None => 0
    case Some(t) =>
      match m
      case TileCount => 1
      case NumberTotal => t.number
      case NumberIs(v) => if t.number == v then 1 else 0
  }

  /** The measure of the cells of `row` from column `j` on. */
  function RowWeight(row: Row, m: Measure, j: nat): int
    decreases |row| - j
  {
    if j >= |row| then 0 else Weigh(row[j], m) + RowWeight(row, m, j + 1)
  }

  /** The measure of rows `k` and above. */
  function WeightFrom(cells: Cells, m: Measure, k: nat): int
    decreases |cells| - k
  {
    if k >= |cells| then 0 else RowWeight(cells[k], m, 0) + WeightFrom(cells, m, k + 1)
  }

  function Weight(cells: Cells, m: Measure): int
  {
    WeightFrom(cells, m, 0)
  }

  /** The number of tiles. */
  function Count(cells: Cells): int
  {
    Weight(cells, TileCount)
  }

  /** The sum of the tile numbers. */
  function Sum(cells: Cells): int
  {
    Weight(cells, NumberTotal)
  }

  /** How many tiles carry the number `v`. */
  function Occurrences(cells: Cells, v: int): int
  {
    Weight(cells, NumberIs(v))
  }

  /** Two grids hold the same multiset of tile numbers. */
  ghost predicate SameNumbers(a: Cells, b: Cells)
  {
    forall v :: Occurrences(a, v) == Occurrences(b, v)
  }

  /** Sum of the row indices of all tiles, written as the sum over k >= 1 of the
      number of tiles at row k or above (a tile at row r is counted r times). */
  function Elevation(cells: Cells, k: nat): int
    decreases |cells| - k
  {
    if k >= |cells| then 0 else WeightFrom(cells, TileCount, k) + Elevation(cells, k + 1)
  }

  lemma {:induction false} RowCountBounds(row: Row, j: nat)
    ensures 0 <= RowWeight(row, TileCount, j) <= if j <= |row| then |row| - j else 0
    decreases |row| - j
  {
    if j < |row| {
      RowCountBounds(row, j + 1);
    }
  }

  lemma {:induction false} CountFromNonNegative(cells: Cells, k: nat)
    ensures WeightFrom(cells, TileCount, k) >= 0
    decreases |cells| - k
  {
    if k < |cells| {
      RowCountBounds(cells[k], 0);
      CountFromNonNegative(cells, k + 1);
    }
  }

  lemma {:induction false} ElevationNonNegative(cells: Cells, k: nat)
    ensures Elevation(cells, k) >= 0
    decreases |cells| - k
  {
    if k < |cells| {
      CountFromNonNegative(cells, k);
      ElevationNonNegative(cells, k + 1);
    }
  }

  lemma {:induction false} EmptyRowWeight(row: Row, m: Measure, j: nat)
    requires forall c :: 0 <= c < |row| ==> row[c].None?
    ensures RowWeight(row, m, j) == 0
    decreases |row| - j
  {
    if j < |row| {
      EmptyRowWeight(row, m, j + 1);
    }
  }

  lemma {:induction false} EmptyWeight(cells: Cells, m: Measure, k: nat)
    requires forall r, c :: 0 <= r < |cells| && 0 <= c < |cells[r]| ==> cells[r][c].None?
    ensures WeightFrom(cells, m, k) == 0
    decreases |cells| - k
  {
    if k < |cells| {
      EmptyRowWeight(cells[k], m, 0);
      EmptyWeight(cells, m, k + 1);
    }
  }

  /** Replacing one cell of a row changes its measure by the difference of the two cells. */
  lemma {:induction false} RowWeightUpdate(row: Row, c: nat, x: Option<Tile>, m: Measure, j: nat)
    requires c < |row|
    ensures RowWeight(row[c := x], m, j) == RowWeight(row, m, j) + (if j <= c then Weigh(x, m) - Weigh(row[c], m) else 0)
    decreases |row| - j
  {
    if j < |row| {
      RowWeightUpdate(row, c, x, m, j + 1);
    }
  }

  /** Replacing one cell of the matrix changes its measure by the difference of the two cells. */
  lemma {:induction false} WeightUpdate(cells: Cells, r: nat, c: nat, x: Option<Tile>, m: Measure, k: nat)
    requires r < |cells| && c < |cells[r]|
    ensures WeightFrom(cells[r := cells[r][c := x]], m, k) ==
      WeightFrom(cells, m, k) + (if k <= r then Weigh(x, m) - Weigh(cells[r][c], m) else 0)
    decreases |cells| - k
  {
    if k < |cells| {
      WeightUpdate(cells, r, c, x, m, k + 1);
      if k == r {
        RowWeightUpdate(cells[r], c, x, m, 0);
      }
    }
  }
}
