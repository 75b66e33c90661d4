/** `check_merging` (Tetris_2048.py:217-238) and the loop that repeats it
    until it reports no merge (Tetris_2048.py:115-117). A pass scans rows
    0..18 from the bottom and, within a row, columns 0..11; wherever a tile
    and the tile directly above it carry the same number, the upper cell is
    emptied, the lower tile's number doubles and the score grows by the new
    number. */
module Merging {
  import opened Common
  import opened Tiles
  import opened Tally
  import opened Grid

  /** The pass pairs row a with row a + 1 for a in 0..18. */
  const MergeRows: nat := 19

  /** The state a pass works on: the cells, the score and the `merged` flag. */
  datatype Pass = Pass(cells: Cells, score: int, merged: bool)

  /** The tile at (a, b) and the one above it are both present and equal. */
  predicate EqualPair(cells: Cells, a: nat, b: nat)
    requires Shaped(cells, GridHeight, GridWidth) && a < MergeRows && b < GameWidth
  {
    cells[a][b].Some? && cells[a + 1][b].Some? && cells[a][b].value.number == cells[a + 1][b].value.number
  }

  /** Some vertically adjacent pair in the scanned area is equal. */
  predicate HasEqualPair(cells: Cells)
    requires Shaped(cells, GridHeight, GridWidth)
  {
    exists a, b :: 0 <= a < MergeRows && 0 <= b < GameWidth && EqualPair(cells, a, b)
  }

  /** Whether the pass started on `cells` merges the tile at (a, b) with the one
      above it: the pair is equal in the original grid and the cell (a, b) was
      not itself emptied by a merge at (a - 1, b). */
  predicate Merges(cells: Cells, a: nat, b: nat)
    requires Shaped(cells, GridHeight, GridWidth) && a < MergeRows && b < GameWidth
    decreases a
  {
    EqualPair(cells, a, b) && (a == 0 || !Merges(cells, a - 1, b))
  }

  /** The tile after `number += number`. */
  function Doubled(t: Tile): (r: Tile)
    ensures r.number == 2 * t.number && r.pos == t.pos
  {
    t.(number := t.number + t.number)
  }

  /** Content of (i, j) once every step before (row, col) has run. */
  function PartialMerge(cells: Cells, row: int, col: int, i: nat, j: nat): Option<Tile>
    requires Shaped(cells, GridHeight, GridWidth) && i < GridHeight && j < GridWidth
  {
    if j < GameWidth && 1 <= i && Before(i - 1, j, row, col) && Merges(cells, i - 1, j) then None
    else if j < GameWidth && i < MergeRows && Before(i, j, row, col) && Merges(cells, i, j) then Some(Doubled(cells[i][j].value))
    else cells[i][j]
  }

  /** Content of (i, j) after the whole pass: emptied if its tile merged into the
      one below, doubled if the tile above merged into it, untouched otherwise. */
  function MergedCell(cells: Cells, i: nat, j: nat): Option<Tile>
    requires Shaped(cells, GridHeight, GridWidth) && i < GridHeight && j < GridWidth
  {
    if j < GameWidth && 1 <= i && Merges(cells, i - 1, j) then None
    else if j < GameWidth && i < MergeRows && Merges(cells, i, j) then Some(Doubled(cells[i][j].value))
    else cells[i][j]
  }

  /** Number of merges among the steps before (row, col). */
  function MergeCountBefore(cells: Cells, row: nat, col: nat): nat
    requires Shaped(cells, GridHeight, GridWidth) && row <= MergeRows && col <= GameWidth
    decreases row, col
  {
    if col == 0 then (if row == 0 then 0 else MergeCountBefore(cells, row - 1, GameWidth))
    else MergeCountBefore(cells, row, col - 1) + (if row < MergeRows && Merges(cells, row, col - 1) then 1 else 0)
  }

  /** Score gained by the merges among the steps before (row, col): each merge
      adds the doubled number. */
  function GainBefore(cells: Cells, row: nat, col: nat): int
    requires Shaped(cells, GridHeight, GridWidth) && row <= MergeRows && col <= GameWidth
    decreases row, col
  {
    if col == 0 then (if row == 0 then 0 else GainBefore(cells, row - 1, GameWidth))
    else
      var step := if row < MergeRows && Merges(cells, row, col - 1) then 2 * cells[row][col - 1].value.number else 0;
      GainBefore(cells, row, col - 1) + step
  }

  function MergeCount(cells: Cells): nat
    requires Shaped(cells, GridHeight, GridWidth)
  {
    MergeCountBefore(cells, MergeRows, 0)
  }

  function Gain(cells: Cells): int
    requires Shaped(cells, GridHeight, GridWidth)
  {
    GainBefore(cells, MergeRows, 0)
  }

  /** One iteration of the inner loop at (a, b). */
  function MergeStep(s: Pass, a: nat, b: nat): (s': Pass)
    requires Shaped(s.cells, GridHeight, GridWidth) && a < MergeRows && b < GameWidth
    ensures Shaped(s'.cells, GridHeight, GridWidth)
  {
    if s.cells[a][b] != None && s.cells[a + 1][b] != None && s.cells[a][b].value.number == s.cells[a + 1][b].value.number then
      var t := Doubled(s.cells[a][b].value);
      var emptied := s.cells[a + 1 := s.cells[a + 1][b := None]];
      Pass(emptied[a := emptied[a][b := Some(t)]], s.score + t.number, true)
    else
      s
  }

  /** The step at (row, col) finds exactly the pair `Merges` describes. */
  lemma StepSees(cells: Cells, cur: Cells, row: nat, col: nat)
    requires Shaped(cells, GridHeight, GridWidth) && Shaped(cur, GridHeight, GridWidth)
    requires row < MergeRows && col < GameWidth
    requires forall i, j :: 0 <= i < GridHeight && 0 <= j < GridWidth ==> cur[i][j] == PartialMerge(cells, row, col, i, j)
    ensures (cur[row][col] != None && cur[row + 1][col] != None && cur[row][col].value.number == cur[row + 1][col].value.number)
      <==> Merges(cells, row, col)
    ensures Merges(cells, row, col) ==> cur[row][col] == cells[row][col] && cur[row + 1][col] == cells[row + 1][col]
  {
    assert cur[row][col] == PartialMerge(cells, row, col, row, col);
    assert cur[row + 1][col] == PartialMerge(cells, row, col, row + 1, col);
  }

  /** Running the step at (row, col) on the state before it yields the state before the next step. */
  lemma StepAdvances(cells: Cells, s: Pass, score: int, row: nat, col: nat)
    requires Shaped(cells, GridHeight, GridWidth) && Shaped(s.cells, GridHeight, GridWidth)
    requires row < MergeRows && col < GameWidth
    requires forall i, j :: 0 <= i < GridHeight && 0 <= j < GridWidth ==> s.cells[i][j] == PartialMerge(cells, row, col, i, j)
    requires s.score == score + GainBefore(cells, row, col)
    requires s.merged <==> MergeCountBefore(cells, row, col) > 0
    ensures forall i, j :: 0 <= i < GridHeight && 0 <= j < GridWidth ==>
      MergeStep(s, row, col).cells[i][j] == PartialMerge(cells, row, col + 1, i, j)
    ensures MergeStep(s, row, col).score == score + GainBefore(cells, row, col + 1)
    ensures MergeStep(s, row, col).merged <==> MergeCountBefore(cells, row, col + 1) > 0
  {
    StepSees(cells, s.cells, row, col);
    var s' := MergeStep(s, row, col);
    forall i, j | 0 <= i < GridHeight && 0 <= j < GridWidth
      ensures s'.cells[i][j] == PartialMerge(cells, row, col + 1, i, j)
    {
      assert s.cells[i][j] == PartialMerge(cells, row, col, i, j);
    }
  }

  /** Finishing a row is the same as standing at the start of the next one. */
  lemma RowWraps(cells: Cells, row: nat)
    requires Shaped(cells, GridHeight, GridWidth) && 0 < row <= MergeRows
    ensures forall i, j :: 0 <= i < GridHeight && 0 <= j < GridWidth ==>
      PartialMerge(cells, row - 1, GameWidth, i, j) == PartialMerge(cells, row, 0, i, j)
  {
  }

  /** The state once every step before (row, col) has run. */
  function ScanMerge(cells: Cells, score: int, row: nat, col: nat): (s: Pass)
    requires Shaped(cells, GridHeight, GridWidth)
    requires row <= MergeRows && col <= GameWidth && (row == MergeRows ==> col == 0)
    ensures Shaped(s.cells, GridHeight, GridWidth)
    ensures forall i, j :: 0 <= i < GridHeight && 0 <= j < GridWidth ==> s.cells[i][j] == PartialMerge(cells, row, col, i, j)
    ensures s.score == score + GainBefore(cells, row, col)
    ensures s.merged <==> MergeCountBefore(cells, row, col) > 0
    decreases row, col
  {
    if col == 0 then
      if row == 0 then Pass(cells, score, false)
      else
        RowWraps(cells, row);
        ScanMerge(cells, score, row - 1, GameWidth)
    else
      var s := ScanMerge(cells, score, row, col - 1);
      StepAdvances(cells, s, score, row, col - 1);
      MergeStep(s, row, col - 1)
  }

  /** After the last step every step has run. */
  lemma PartialIsFinal(cells: Cells, cur: Cells)
    requires Shaped(cells, GridHeight, GridWidth) && Shaped(cur, GridHeight, GridWidth)
    requires forall i, j :: 0 <= i < GridHeight && 0 <= j < GridWidth ==> cur[i][j] == PartialMerge(cells, MergeRows, 0, i, j)
    ensures forall i, j :: 0 <= i < GridHeight && 0 <= j < GridWidth ==> cur[i][j] == MergedCell(cells, i, j)
  {
    forall i, j | 0 <= i < GridHeight && 0 <= j < GridWidth
      ensures cur[i][j] == MergedCell(cells, i, j)
    {
      assert cur[i][j] == PartialMerge(cells, MergeRows, 0, i, j);
      assert 1 <= i ==> Before(i - 1, j, MergeRows, 0);
      assert i < MergeRows ==> Before(i, j, MergeRows, 0);
    }
  }

  /** `check_merging`: one full pass over rows 0..18 and columns 0..11. */
  function CheckMerging(g: Grid): (r: (Grid, bool))
    requires GameGrid(g)
    ensures GameGrid(r.0) && r.0.gameOver == g.gameOver
    ensures forall i, j :: 0 <= i < GridHeight && 0 <= j < GridWidth ==> r.0.cells[i][j] == MergedCell(g.cells, i, j)
    ensures r.0.score == g.score + Gain(g.cells)
    ensures r.1 <==> MergeCount(g.cells) > 0
  {
    var s := ScanMerge(g.cells, g.score, MergeRows, 0);
    PartialIsFinal(g.cells, s.cells);
    (g.(cells := s.cells, score := s.score), s.merged)
  }

  // ---------------------------------------------------------------------------
  // What a pass promises

  /** A merge step keeps the sum of the numbers and removes one tile when it merges. */
  lemma MergeStepWeights(s: Pass, a: nat, b: nat)
    requires Shaped(s.cells, GridHeight, GridWidth) && a < MergeRows && b < GameWidth
    ensures Sum(MergeStep(s, a, b).cells) == Sum(s.cells)
    ensures Count(MergeStep(s, a, b).cells) + (if EqualPair(s.cells, a, b) then 1 else 0) == Count(s.cells)
  {
    if EqualPair(s.cells, a, b) {
      var t := Doubled(s.cells[a][b].value);
      var emptied := s.cells[a + 1 := s.cells[a + 1][b := None]];
      WeightUpdate(s.cells, a + 1, b, None, NumberTotal, 0);
      WeightUpdate(s.cells, a + 1, b, None, TileCount, 0);
      assert emptied[a][b] == s.cells[a][b];
      WeightUpdate(emptied, a, b, Some(t), NumberTotal, 0);
      WeightUpdate(emptied, a, b, Some(t), TileCount, 0);
    }
  }

  lemma {:induction false} ScanMergeWeights(cells: Cells, score: int, row: nat, col: nat)
    requires Shaped(cells, GridHeight, GridWidth)
    requires row <= MergeRows && col <= GameWidth && (row == MergeRows ==> col == 0)
    ensures Sum(ScanMerge(cells, score, row, col).cells) == Sum(cells)
    ensures Count(ScanMerge(cells, score, row, col).cells) + MergeCountBefore(cells, row, col) == Count(cells)
    decreases row, col
  {
    if col == 0 {
      if row > 0 {
        ScanMergeWeights(cells, score, row - 1, GameWidth);
        assert ScanMerge(cells, score, row, 0) == ScanMerge(cells, score, row - 1, GameWidth);
      }
    } else {
      ScanMergeWeights(cells, score, row, col - 1);
      ScanStepWeights(cells, score, row, col);
    }
  }

  /** The step at (row, col - 1) keeps the sum and removes a tile exactly when it merges. */
  lemma ScanStepWeights(cells: Cells, score: int, row: nat, col: nat)
    requires Shaped(cells, GridHeight, GridWidth)
    requires row < MergeRows && 0 < col <= GameWidth
    ensures var s := ScanMerge(cells, score, row, col - 1); var s' := ScanMerge(cells, score, row, col);
      && Sum(s'.cells) == Sum(s.cells)
      && Count(s'.cells) + (if Merges(cells, row, col - 1) then 1 else 0) == Count(s.cells)
  {
    var s := ScanMerge(cells, score, row, col - 1);
    assert ScanMerge(cells, score, row, col) == MergeStep(s, row, col - 1);
    StepSees(cells, s.cells, row, col - 1);
    MergeStepWeights(s, row, col - 1);
  }

  /** Some step before (row, col) merges. */
  predicate AnyMergeBefore(cells: Cells, row: nat, col: nat)
    requires Shaped(cells, GridHeight, GridWidth)
  {
    exists a, b :: 0 <= a < MergeRows && 0 <= b < GameWidth && Before(a, b, row, col) && Merges(cells, a, b)
  }

  lemma {:induction false} MergeCountWitness(cells: Cells, row: nat, col: nat)
    requires Shaped(cells, GridHeight, GridWidth) && row <= MergeRows && col <= GameWidth
    ensures MergeCountBefore(cells, row, col) > 0 <==> AnyMergeBefore(cells, row, col)
    ensures MergeCountBefore(cells, row, col) == 0 ==> GainBefore(cells, row, col) == 0
    decreases row, col
  {
    if col == 0 {
      if row > 0 {
        MergeCountWitness(cells, row - 1, GameWidth);
        assert AnyMergeBefore(cells, row, 0) ==> AnyMergeBefore(cells, row - 1, GameWidth) by {
          if AnyMergeBefore(cells, row, 0) {
            var a, b :| 0 <= a < MergeRows && 0 <= b < GameWidth && Before(a, b, row, 0) && Merges(cells, a, b);
            assert Before(a, b, row - 1, GameWidth);
          }
        }
      } else {
        assert !AnyMergeBefore(cells, 0, 0);
      }
    } else {
      MergeCountWitness(cells, row, col - 1);
      if AnyMergeBefore(cells, row, col) && !(row < MergeRows && Merges(cells, row, col - 1)) {
        var a, b :| 0 <= a < MergeRows && 0 <= b < GameWidth && Before(a, b, row, col) && Merges(cells, a, b);
        assert Before(a, b, row, col - 1);
      }
    }
  }

  /** Every equal pair takes part in a merge: either it merges itself, or the
      lower tile was already merged into the one below it. */
  lemma {:induction false} EqualPairMerges(cells: Cells, a: nat, b: nat)
    requires Shaped(cells, GridHeight, GridWidth) && a < MergeRows && b < GameWidth
    requires EqualPair(cells, a, b)
    ensures Merges(cells, a, b) || (a > 0 && Merges(cells, a - 1, b))
  {
  }

  /** A pass merges somewhere exactly when some vertical pair is equal. */
  lemma MergesIffEqualPair(cells: Cells)
    requires Shaped(cells, GridHeight, GridWidth)
    ensures MergeCount(cells) > 0 <==> HasEqualPair(cells)
    ensures MergeCount(cells) == 0 ==> Gain(cells) == 0
  {
    MergeCountWitness(cells, MergeRows, 0);
    if HasEqualPair(cells) {
      var a, b :| 0 <= a < MergeRows && 0 <= b < GameWidth && EqualPair(cells, a, b);
      EqualPairMerges(cells, a, b);
      if Merges(cells, a, b) {
        assert Before(a, b, MergeRows, 0);
      } else {
        assert Before(a - 1, b, MergeRows, 0);
      }
    } else {
      forall a, b | 0 <= a < MergeRows && 0 <= b < GameWidth
        ensures !(Before(a, b, MergeRows, 0) && Merges(cells, a, b))
      {
        assert !EqualPair(cells, a, b);
      }
    }
  }

  /** Without an equal pair no cell changes. */
  lemma NoPairKeepsCells(cells: Cells, cur: Cells)
    requires Shaped(cells, GridHeight, GridWidth) && Shaped(cur, GridHeight, GridWidth) && !HasEqualPair(cells)
    requires forall i, j :: 0 <= i < GridHeight && 0 <= j < GridWidth ==> cur[i][j] == MergedCell(cells, i, j)
    ensures cur == cells
  {
    forall i, j | 0 <= i < GridHeight && 0 <= j < GridWidth
      ensures cur[i][j] == cells[i][j]
    {
      NoMergeKeepsCell(cells, i, j);
    }
    SameCells(cur, cells, GridHeight, GridWidth);
  }

  lemma NoMergeKeepsCell(cells: Cells, i: nat, j: nat)
    requires Shaped(cells, GridHeight, GridWidth) && !HasEqualPair(cells)
    requires i < GridHeight && j < GridWidth
    ensures MergedCell(cells, i, j) == cells[i][j]
  {
    if j < GameWidth {
      if i >= 1 {
        assert !EqualPair(cells, i - 1, j);
      }
      if i < MergeRows {
        assert !EqualPair(cells, i, j);
      }
    }
  }

  /** `check_merging` keeps the sum of the tile numbers, loses exactly one tile
      per merge, reports a merge exactly when some vertically adjacent pair in
      rows 0..19, columns 0..11 is equal, and changes nothing (score included)
      when no such pair exists. */
  lemma CheckMergingConserves(g: Grid)
    requires GameGrid(g)
    ensures Sum(CheckMerging(g).0.cells) == Sum(g.cells)
    ensures Count(CheckMerging(g).0.cells) + MergeCount(g.cells) == Count(g.cells)
    ensures CheckMerging(g).1 <==> HasEqualPair(g.cells)
    ensures !HasEqualPair(g.cells) ==> CheckMerging(g).0 == g
  {
    ScanMergeWeights(g.cells, g.score, MergeRows, 0);
    MergesIffEqualPair(g.cells);
    if !HasEqualPair(g.cells) {
      NoPairKeepsGrid(g);
    }
  }

  lemma NoPairKeepsGrid(g: Grid)
    requires GameGrid(g) && !HasEqualPair(g.cells)
    ensures CheckMerging(g).0 == g
  {
    var r := CheckMerging(g).0;
    NoPairKeepsCells(g.cells, r.cells);
    ScoreKept(g);
    assert r == g.(cells := r.cells, score := r.score);
  }

  lemma ScoreKept(g: Grid)
    requires GameGrid(g) && !HasEqualPair(g.cells)
    ensures CheckMerging(g).0.score == g.score
  {
    MergesIffEqualPair(g.cells);
  }

  /** Only equal adjacent tiles merge, and no tile takes part in two merges. */
  lemma MergesAreDisjoint(cells: Cells, a: nat, b: nat)
    requires Shaped(cells, GridHeight, GridWidth) && a < MergeRows && b < GameWidth
    requires Merges(cells, a, b)
    ensures EqualPair(cells, a, b)
    ensures a + 1 < MergeRows ==> !Merges(cells, a + 1, b)
    ensures a > 0 ==> !Merges(cells, a - 1, b)
  {
  }

  // ---------------------------------------------------------------------------
  // Merging until nothing merges

  /** Tetris_2048.py:115-117: run passes while the last one merged. Each pass that
      merges removes at least one tile, so the loop ends. The result has no
      equal vertical pair left, the same number sum, and no more tiles than before. */
  function MergeFix(g: Grid): (r: Grid)
    requires GameGrid(g)
    ensures GameGrid(r) && r.gameOver == g.gameOver
    ensures !HasEqualPair(r.cells)
    ensures Sum(r.cells) == Sum(g.cells)
    ensures Count(r.cells) <= Count(g.cells)
    decreases Count(g.cells)
  {
    CheckMergingConserves(g);
    CountFromNonNegative(g.cells, 0);
    var r := CheckMerging(g);
    CountFromNonNegative(r.0.cells, 0);
    if r.1 then
      MergeFix(r.0)
    else
      r.0
  }
}
