/** The settling sequence that runs once a piece has locked
    (Tetris_2048.py:107-171): merge until no pass merges, clear full rows
    until none is left, then label the tiles and drop the free ones one row
    at a time until none is free; the whole sequence runs twice. */
module Settle {
  import opened Common
  import opened Tiles
  import opened Tally
  import opened Grid
  import opened Merging
  import opened RowClear
  import opened Connectivity
  import opened LabelTables
  import opened Labelling
  import opened FreeTiles

  /** `[[False for v in range(grid_w)] for b in range(grid_h)]`. */
  function NoFlags(): (f: seq<seq<bool>>)
    ensures Unflagged(f, GridHeight, GridWidth)
  {
    seq(GridHeight, i => seq(GridWidth, j => false))
  }

  /** The board holds no tile at all. */
  ghost predicate Empty(cells: Cells)
  {
    forall p :: !Occupied(cells, p)
  }

  /** `b` is `a` with some tiles removed and nothing else changed. */
  predicate Thinned(a: Row, b: Row)
  {
    |a| == |b| && forall c :: 0 <= c < |b| ==> b[c].None? || b[c] == a[c]
  }

  /** No free tile is left: every flag `find_free_tiles` would set is clear. */
  predicate Settled(g: Grid)
    requires GameGrid(g)
  {
    && ConnectedComponentLabeling(g.cells, GridHeight, GridWidth).Ok?
    && forall i, j :: 0 <= i < GridHeight && 0 <= j < GridWidth ==>
         !Free(LabelsOf(g.cells, GridHeight, GridWidth), GridHeight, GridWidth, i, j)
  }

  // ---------------------------------------------------------------------------
  // Counting facts the loops rely on

  lemma {:induction false} ThinnedWeight(a: Row, b: Row, j: nat)
    requires Thinned(a, b)
    ensures RowWeight(b, TileCount, j) <= RowWeight(a, TileCount, j)
    decreases |a| - j
  {
    if j < |a| {
      ThinnedWeight(a, b, j + 1);
    }
  }

  /** Removing tiles from a row that is not full cannot make it full. */
  lemma ThinnedNotFull(a: Row, b: Row)
    requires Thinned(a, b) && !Full(a)
    ensures !Full(b)
  {
    ThinnedWeight(a, b, 0);
  }

  lemma {:induction false} RowCountZero(row: Row, j: nat)
    ensures RowWeight(row, TileCount, j) == 0 <==> forall c :: j <= c < |row| ==> row[c].None?
    decreases |row| - j
  {
    if j < |row| {
      RowCountZero(row, j + 1);
      RowCountBounds(row, j + 1);
    }
  }

  lemma {:induction false} CountFromZero(cells: Cells, k: nat)
    ensures WeightFrom(cells, TileCount, k) == 0 <==>
      forall r, c :: k <= r < |cells| && 0 <= c < |cells[r]| ==> cells[r][c].None?
    decreases |cells| - k
  {
    if k < |cells| {
      CountFromZero(cells, k + 1);
      RowCountZero(cells[k], 0);
      RowCountBounds(cells[k], 0);
      CountFromNonNegative(cells, k + 1);
    }
  }

  /** A board has no tile exactly when its tile count is 0. */
  lemma CountZeroIffEmpty(cells: Cells)
    ensures Count(cells) == 0 <==> Empty(cells)
  {
    CountFromZero(cells, 0);
    if Count(cells) == 0 {
      forall p ensures !Occupied(cells, p) {
        if p.r < |cells| && p.c < |cells[p.r]| {
          assert cells[p.r][p.c].None?;
        }
      }
    }
    if Empty(cells) {
      forall r, c | 0 <= r < |cells| && 0 <= c < |cells[r]| ensures cells[r][c].None? {
        assert !Occupied(cells, Spot(r, c));
      }
    }
  }

  lemma {:induction false} CountTrueZero(f: seq<bool>, j: nat)
    ensures CountTrue(f, j) == 0 <==> forall c :: j <= c < |f| ==> !f[c]
    decreases |f| - j
  {
    if j < |f| {
      CountTrueZero(f, j + 1);
    }
  }

  lemma {:induction false} FlagCountZero(flags: seq<seq<bool>>, k: nat)
    ensures FlagCountFrom(flags, k) == 0 <==>
      forall i, j :: k <= i < |flags| && 0 <= j < |flags[i]| ==> !flags[i][j]
    decreases |flags| - k
  {
    if k < |flags| {
      FlagCountZero(flags, k + 1);
      CountTrueZero(flags[k], 0);
    }
  }

  // ---------------------------------------------------------------------------
  // Merging and the top row

  /** A merge pass only empties cells of row 19: no pair starts there. */
  lemma CheckMergingTopRow(g: Grid)
    requires GameGrid(g)
    ensures Thinned(g.cells[GridHeight - 1], CheckMerging(g).0.cells[GridHeight - 1])
  {
    var top := GridHeight - 1;
    var r := CheckMerging(g).0;
    forall c | 0 <= c < GridWidth ensures r.cells[top][c].None? || r.cells[top][c] == g.cells[top][c] {
      TopMergedCell(g.cells, c);
    }
  }

  /** Row 19 is never the lower cell of a merge. */
  lemma TopMergedCell(cells: Cells, c: nat)
    requires Shaped(cells, GridHeight, GridWidth) && c < GridWidth
    ensures MergedCell(cells, GridHeight - 1, c).None? || MergedCell(cells, GridHeight - 1, c) == cells[GridHeight - 1][c]
  {
  }

  lemma ThinnedTransitive(a: Row, b: Row, c: Row)
    requires Thinned(a, b) && Thinned(b, c)
    ensures Thinned(a, c)
  {
    forall k | 0 <= k < |c| ensures c[k].None? || c[k] == a[k] {
      assert c[k].None? || c[k] == b[k];
    }
  }

  /** Merging until nothing merges only removes tiles from the top row. */
  lemma {:induction false} MergeFixTopRow(g: Grid)
    requires GameGrid(g)
    ensures Thinned(g.cells[GridHeight - 1], MergeFix(g).cells[GridHeight - 1])
    decreases Count(g.cells)
  {
    var top := GridHeight - 1;
    CheckMergingConserves(g);
    CountFromNonNegative(g.cells, 0);
    var r := CheckMerging(g);
    CountFromNonNegative(r.0.cells, 0);
    CheckMergingTopRow(g);
    if r.1 {
      MergeFixTopRow(r.0);
      ThinnedTransitive(g.cells[top], r.0.cells[top], MergeFix(r.0).cells[top]);
    } else {
      forall k | 0 <= k < |g.cells[top]| ensures g.cells[top][k].None? || g.cells[top][k] == g.cells[top][k] {
      }
    }
  }

  /** A board without an equal vertical pair is its own merge fixpoint. */
  lemma MergeFixNoPair(g: Grid)
    requires GameGrid(g) && !HasEqualPair(g.cells)
    ensures MergeFix(g) == g
  {
    CheckMergingConserves(g);
  }

  // ---------------------------------------------------------------------------
  // One drop round: Tetris_2048.py:130-134, and the loop body at 138-141

  /** Label the board, flag the free tiles starting from no flags, and lower
      every flagged tile by one row; the count is `num_free`. Labelling an
      empty board raises. */
  function DropRound(g: Grid): (r: Result<(Grid, nat)>)
    requires GameGrid(g)
    ensures r.Ok? ==> GameGrid(r.value.0)
  {
    var labelled :- ConnectedComponentLabeling(g.cells, GridHeight, GridWidth);
    var found := FindFreeTiles(GridHeight, GridWidth, labelled.0, NoFlags());
    FreeFlagsReady(g.cells, GridHeight, GridWidth, NoFlags());
    Ok((MoveFreeTiles(g, found.0), found.1))
  }

  /** A round fails exactly on an empty board, and then with the `max([])` error. */
  lemma DropRoundFaults(g: Grid)
    requires GameGrid(g)
    ensures DropRound(g).Fault? <==> Empty(g.cells)
    ensures DropRound(g).Fault? ==> DropRound(g).crash == EmptyLabelList
  {
    LabellingFaultsIffEmpty(g.cells, GridHeight, GridWidth);
  }

  /** A round keeps the tile numbers, the score and the game-over flag, removes
      no tile, takes tiles out of the top row only, and lowers the sum of the
      tile rows by the number of tiles it reports free. */
  lemma DropRoundConserves(g: Grid)
    requires GameGrid(g) && !Empty(g.cells)
    ensures DropRound(g).Ok?
    ensures var n := DropRound(g).value.0;
      && n.score == g.score && n.gameOver == g.gameOver
      && SameNumbers(n.cells, g.cells) && Count(n.cells) == Count(g.cells) && Sum(n.cells) == Sum(g.cells)
      && Elevation(n.cells, 0) + DropRound(g).value.1 == Elevation(g.cells, 0)
      && Thinned(g.cells[GridHeight - 1], n.cells[GridHeight - 1])
  {
    DropRoundFaults(g);
    var labels := LabelsOf(g.cells, GridHeight, GridWidth);
    var flags := FindFreeTiles(GridHeight, GridWidth, labels, NoFlags()).0;
    FreeFlagsReady(g.cells, GridHeight, GridWidth, NoFlags());
    FindFreeTilesCounts(GridHeight, GridWidth, labels, NoFlags());
    MoveFreeTilesConserves(g, flags);
    var n := MoveFreeTiles(g, flags);
    var top := GridHeight - 1;
    forall c | 0 <= c < GridWidth ensures n.cells[top][c].None? || n.cells[top][c] == g.cells[top][c] {
      assert n.cells[top][c] == DroppedCell(g.cells, flags, GridHeight, GridWidth, top, c);
    }
  }

  /** The flags of a round are exactly the cells `Free` describes. */
  function RoundFlags(g: Grid): (flags: seq<seq<bool>>)
    requires GameGrid(g) && ConnectedComponentLabeling(g.cells, GridHeight, GridWidth).Ok?
    ensures FlagShaped(flags, GridHeight, GridWidth)
    ensures forall i, j :: 0 <= i < GridHeight && 0 <= j < GridWidth ==>
      (flags[i][j] <==> Free(LabelsOf(g.cells, GridHeight, GridWidth), GridHeight, GridWidth, i, j))
    ensures DropReady(g.cells, flags, GridHeight, GridWidth)
  {
    FreeFlagsReady(g.cells, GridHeight, GridWidth, NoFlags());
    FindFreeTiles(GridHeight, GridWidth, LabelsOf(g.cells, GridHeight, GridWidth), NoFlags()).0
  }

  /** A round that succeeds moves the tiles `RoundFlags` selects and reports
      how many there are. */
  lemma DropRoundParts(g: Grid)
    requires GameGrid(g) && !Empty(g.cells)
    ensures DropRound(g).Ok?
    ensures DropRound(g).value.1 == FlagCount(RoundFlags(g))
    ensures DropRound(g).value.0 == MoveFreeTiles(g, RoundFlags(g))
  {
    DropRoundFaults(g);
    FindFreeTilesCounts(GridHeight, GridWidth, LabelsOf(g.cells, GridHeight, GridWidth), NoFlags());
  }

  /** No cell is flagged exactly when the board is settled. */
  lemma NoFlagIffSettled(g: Grid)
    requires GameGrid(g) && ConnectedComponentLabeling(g.cells, GridHeight, GridWidth).Ok?
    ensures FlagCount(RoundFlags(g)) == 0 <==> Settled(g)
  {
    NoFlagIffNoFree(LabelsOf(g.cells, GridHeight, GridWidth), RoundFlags(g));
  }

  lemma NoFlagIffNoFree(labels: Labels, f: seq<seq<bool>>)
    requires LabelShaped(labels, GridHeight, GridWidth) && FlagShaped(f, GridHeight, GridWidth)
    requires forall i, j :: 0 <= i < GridHeight && 0 <= j < GridWidth ==> (f[i][j] <==> Free(labels, GridHeight, GridWidth, i, j))
    ensures FlagCount(f) == 0 <==> forall i, j :: 0 <= i < GridHeight && 0 <= j < GridWidth ==> !Free(labels, GridHeight, GridWidth, i, j)
  {
    FlagCountZero(f, 0);
  }

  /** `num_free` is 0 exactly when the board is settled. */
  lemma DropRoundStops(g: Grid)
    requires GameGrid(g) && !Empty(g.cells)
    ensures DropRound(g).Ok?
    ensures DropRound(g).value.1 == 0 <==> Settled(g)
  {
    DropRoundParts(g);
    NoFlagIffSettled(g);
  }

  /** Moving with no flag set changes nothing. */
  lemma MoveNothing(g: Grid, flags: seq<seq<bool>>)
    requires GameGrid(g) && DropReady(g.cells, flags, GridHeight, GridWidth)
    requires FlagShaped(flags, GridHeight, GridWidth) && FlagCount(flags) == 0
    ensures MoveFreeTiles(g, flags) == g
  {
    FlagCountZero(flags, 0);
    var n := MoveFreeTiles(g, flags);
    forall i, j | 0 <= i < GridHeight && 0 <= j < GridWidth ensures n.cells[i][j] == g.cells[i][j] {
      assert n.cells[i][j] == DroppedCell(g.cells, flags, GridHeight, GridWidth, i, j);
    }
    SameCells(n.cells, g.cells, GridHeight, GridWidth);
  }

  /** With no cell flagged, the round's move changes nothing. */
  lemma NoFlagMovesNothing(g: Grid)
    requires GameGrid(g) && ConnectedComponentLabeling(g.cells, GridHeight, GridWidth).Ok?
    requires FlagCount(RoundFlags(g)) == 0
    ensures MoveFreeTiles(g, RoundFlags(g)) == g
  {
    MoveNothing(g, RoundFlags(g));
  }

  /** A round that reports no free tile leaves the board as it was. */
  lemma DropRoundIdle(g: Grid)
    requires GameGrid(g) && DropRound(g).Ok? && DropRound(g).value.1 == 0
    ensures DropRound(g).value.0 == g
  {
    DropRoundFaults(g);
    DropRoundParts(g);
    NoFlagMovesNothing(g);
  }

  // ---------------------------------------------------------------------------
  // The drop loop: Tetris_2048.py:130-141

  /** One round, then more rounds while the last one reported free tiles. Each
      round that drops tiles lowers the sum of the tile rows, so the loop ends. */
  function DropLoop(g: Grid): (r: Result<Grid>)
    requires GameGrid(g)
    ensures r.Ok? ==> GameGrid(r.value)
    decreases Elevation(g.cells, 0)
  {
    var x :- DropRound(g);
    if x.1 == 0 then Ok(x.0)
    else
      DropRoundFaults(g);
      DropRoundConserves(g);
      ElevationNonNegative(x.0.cells, 0);
      DropLoop(x.0)
  }

  /** The drop loop fails exactly on an empty board. Otherwise it ends on a
      settled board with the same tile numbers, score and game-over flag, and
      with the top row only thinned. */
  lemma {:induction false} DropLoopSettles(g: Grid)
    requires GameGrid(g)
    ensures DropLoop(g).Fault? <==> Empty(g.cells)
    ensures DropLoop(g).Fault? ==> DropLoop(g).crash == EmptyLabelList
    ensures var r := DropLoop(g);
      r.Ok? ==>
        && r.value.score == g.score && r.value.gameOver == g.gameOver
        && SameNumbers(r.value.cells, g.cells) && Count(r.value.cells) == Count(g.cells)
        && Sum(r.value.cells) == Sum(g.cells)
        && Settled(r.value)
        && Thinned(g.cells[GridHeight - 1], r.value.cells[GridHeight - 1])
    decreases Elevation(g.cells, 0)
  {
    DropRoundFaults(g);
    if DropRound(g).Ok? {
      var x := DropRound(g).value;
      DropRoundConserves(g);
      DropRoundStops(g);
      if x.1 == 0 {
        DropRoundIdle(g);
      } else {
        ElevationNonNegative(x.0.cells, 0);
        DropLoopSettles(x.0);
        CountZeroIffEmpty(g.cells);
        CountZeroIffEmpty(x.0.cells);
      }
    }
  }

  /** A settled board has no floating tile: each tile lies on row 0, carries
      label 1, or is connected to a tile of row 0 among columns 0..19. */
  lemma SettledMeansAnchored(g: Grid, p: Spot)
    requires GameGrid(g) && Settled(g) && Occupied(g.cells, p)
    ensures p.r == 0 || Lab(LabelsOf(g.cells, GridHeight, GridWidth), p) == 1 || Grounded(g.cells, GridWidth, p)
  {
    FreeMeansFloating(g.cells, GridHeight, GridWidth, p);
  }

  // ---------------------------------------------------------------------------
  // The whole sequence: Tetris_2048.py:115-143, repeated at 144-171

  /** Merge until no pass merges (Tetris_2048.py:115-117), then clear full rows
      until none is left (Tetris_2048.py:119-127). Merging only takes tiles out
      of the top row, so a top row that is not full stays so and the clear
      loop ends. */
  function Cleared(g: Grid): (r: Result<Grid>)
    requires GameGrid(g) && !Full(g.cells[GridHeight - 1])
    ensures r.Ok? ==> GameGrid(r.value) && r.value.gameOver == g.gameOver
    ensures r.Ok? ==> NoneFullFrom(r.value.cells, 0)
    ensures r.Ok? ==> Thinned(g.cells[GridHeight - 1], r.value.cells[GridHeight - 1])
    ensures !FullRowsReadable(MergeFix(g).cells) ==> r.Fault?
    ensures r.Fault? ==> r.crash == EmptyFullRowCell
  {
    var merged := MergeFix(g);
    MergeFixTopRow(g);
    ThinnedNotFull(g.cells[GridHeight - 1], merged.cells[GridHeight - 1]);
    ClearRows(merged)
  }

  /** Merging then clearing fails exactly when the merged board has a full row
      with a gap in columns 0..11. Otherwise the board is the compacted merged
      board, and the clear loop adds the highest full row's sum once for every
      full row. */
  lemma ClearedResult(g: Grid)
    requires GameGrid(g) && !Full(g.cells[GridHeight - 1])
    ensures Cleared(g).Ok? <==> FullRowsReadable(MergeFix(g).cells)
    ensures Cleared(g).Ok? ==> Cleared(g).value.cells == Compacted(MergeFix(g).cells, 0, 0)
    ensures Cleared(g).Ok? ==> forall h :: 0 <= h < GridHeight && HighestFull(MergeFix(g).cells, h) ==>
      Cleared(g).value.score == MergeFix(g).score + FullBelowTop(MergeFix(g).cells, 0) * RowScore(MergeFix(g).cells[h], 0, 0).value
  {
    MergeFixTopRow(g);
    ThinnedNotFull(g.cells[GridHeight - 1], MergeFix(g).cells[GridHeight - 1]);
    ClearRowsResult(MergeFix(g));
  }

  /** One half of the sequence: merge, clear, and drop until nothing is free.
      The source labels the result once more and ignores the labels; that
      call cannot fail, since `Settled` includes a successful labelling of
      the same board. */
  function Phase(g: Grid): (r: Result<Grid>)
    requires GameGrid(g) && !Full(g.cells[GridHeight - 1])
    ensures r.Ok? ==> GameGrid(r.value) && r.value.gameOver == g.gameOver
    ensures r.Ok? ==> Settled(r.value)
    ensures r.Ok? ==> Thinned(g.cells[GridHeight - 1], r.value.cells[GridHeight - 1]) && !Full(r.value.cells[GridHeight - 1])
  {
    var cleared :- Cleared(g);
    var dropped :- DropLoop(cleared);
    DropLoopSettles(cleared);
    ThinnedNotFull(g.cells[GridHeight - 1], dropped.cells[GridHeight - 1]);
    Ok(dropped)
  }

  /** A half fails in the clear loop, with the `None.number` error, or on a
      board the clear loop left empty, with the `max([])` error; nothing else
      makes it fail. */
  lemma PhaseFaults(g: Grid)
    requires GameGrid(g) && !Full(g.cells[GridHeight - 1])
    ensures Cleared(g).Fault? ==> Phase(g) == Fault(EmptyFullRowCell)
    ensures Cleared(g).Ok? ==> (Phase(g).Fault? <==> Empty(Cleared(g).value.cells))
    ensures Cleared(g).Ok? && Phase(g).Fault? ==> Phase(g).crash == EmptyLabelList
  {
    if Cleared(g).Ok? {
      DropLoopSettles(Cleared(g).value);
    }
  }

  /** Tetris_2048.py:107-171 after `update_grid`: the half sequence, twice. */
  function SettleBoard(g: Grid): (r: Result<Grid>)
    requires GameGrid(g) && !Full(g.cells[GridHeight - 1])
    ensures r.Ok? ==> GameGrid(r.value) && r.value.gameOver == g.gameOver && Settled(r.value)
  {
    var once :- Phase(g);
    Phase(once)
  }

  /** After settling, the board has no free tile, the top row has only lost
      tiles, and the game-over flag is the one `update_grid` returned. */
  lemma SettleBoardResult(g: Grid)
    requires GameGrid(g) && !Full(g.cells[GridHeight - 1])
    ensures var r := SettleBoard(g);
      r.Ok? ==>
        && GameGrid(r.value) && r.value.gameOver == g.gameOver && Settled(r.value)
        && Thinned(g.cells[GridHeight - 1], r.value.cells[GridHeight - 1])
  {
  }

  // ---------------------------------------------------------------------------
  // Clearing the last tiles crashes the game

  /** Columns 0..11 of row 0 hold the only tiles of the board: what three
      horizontal I pieces laid side by side on an empty floor leave. */
  predicate OnlyBottomRow(g: Grid)
    requires GameGrid(g)
  {
    forall i, j :: 0 <= i < GridHeight && 0 <= j < GridWidth ==> (g.cells[i][j].Some? <==> i == 0 && j < GameWidth)
  }

  lemma {:induction false} BottomRowWeight(row: Row, j: nat)
    requires |row| == GridWidth && forall c :: 0 <= c < GridWidth ==> (row[c].Some? <==> c < GameWidth)
    ensures RowWeight(row, TileCount, j) == if j < GameWidth then GameWidth - j else 0
    decreases GridWidth - j
  {
    if j < GridWidth {
      BottomRowWeight(row, j + 1);
    } else {
      assert RowWeight(row, TileCount, j) == 0;
    }
  }

  lemma BottomRowNoPair(g: Grid)
    requires GameGrid(g) && OnlyBottomRow(g)
    ensures !HasEqualPair(g.cells)
  {
    forall a, b | 0 <= a < MergeRows && 0 <= b < GameWidth ensures !EqualPair(g.cells, a, b) {
      var a1 := a + 1;
      assert g.cells[a1][b].None?;
    }
  }

  /** Row 0 is the only full row, and its columns 0..11 can be read. */
  lemma BottomRowFull(g: Grid)
    requires GameGrid(g) && OnlyBottomRow(g)
    ensures Full(g.cells[0])
    ensures forall k :: 1 <= k < GridHeight ==> !Full(g.cells[k])
    ensures FullRowsReadable(g.cells)
  {
    forall k | 1 <= k < GridHeight ensures RowWeight(g.cells[k], TileCount, 0) == 0 {
      EmptyRowWeight(g.cells[k], TileCount, 0);
    }
    BottomRowWeight(g.cells[0], 0);
  }

  /** Sliding row 0 away when every other row is empty leaves no tile. */
  lemma SlideEmpties(before: Cells, after: Cells)
    requires Shaped(before, GridHeight, GridWidth) && Shaped(after, GridHeight, GridWidth)
    requires SlidFrom(before, after, 0)
    requires forall i, j :: 1 <= i < GridHeight && 0 <= j < GridWidth ==> before[i][j].None?
    ensures forall i, j :: 0 <= i < GridHeight && 0 <= j < GridWidth ==> after[i][j].None?
    ensures forall k :: 0 <= k < GridHeight ==> !Full(after[k])
  {
    forall i, j | 0 <= i < GridHeight && 0 <= j < GridWidth ensures after[i][j].None? {
      SlidRow(before, after, 0, i);
      if i < GridHeight - 1 {
        var i1 := i + 1;
        assert before[i1][j].None?;
      }
    }
    forall k | 0 <= k < GridHeight ensures !Full(after[k]) {
      EmptyRowWeight(after[k], TileCount, 0);
    }
  }

  /** A matrix whose cells are all empty holds no tile. */
  lemma NoneIsEmpty(cells: Cells)
    requires Shaped(cells, GridHeight, GridWidth)
    requires forall i, j :: 0 <= i < GridHeight && 0 <= j < GridWidth ==> cells[i][j].None?
    ensures Empty(cells)
  {
    forall p ensures !Occupied(cells, p) {
      if p.r < GridHeight && p.c < GridWidth {
        assert cells[p.r][p.c].None?;
      }
    }
  }

  /** The clear loop started at row 0 on a board whose only full row is row 0
      and whose other rows are empty ends on an empty board. */
  lemma ClearFromBottom(g: Grid, flags: seq<bool>)
    requires GameGrid(g) && |flags| == GridHeight
    requires forall k :: 0 <= k < GridHeight ==> (flags[k] <==> Full(g.cells[k]))
    requires Full(g.cells[0]) && !Full(g.cells[GridHeight - 1])
    requires forall i, j :: 1 <= i < GridHeight && 0 <= j < GridWidth ==> g.cells[i][j].None?
    ensures ClearFrom(g, flags, 0).Ok?
    ensures forall i, j :: 0 <= i < GridHeight && 0 <= j < GridWidth ==> ClearFrom(g, flags, 0).value.cells[i][j].None?
  {
    var g1 := SlideDown(flags, g);
    SlideProgress(flags, g, 0);
    SlideEmpties(g.cells, g1.cells);
    var next := IsFull(g1).value;
    ClearFromNothingFull(next.1, next.0, 0);
  }

  lemma ClearRowsBottom(g: Grid)
    requires GameGrid(g) && OnlyBottomRow(g)
    ensures !Full(g.cells[GridHeight - 1])
    ensures ClearRows(g).Ok? && Empty(ClearRows(g).value.cells)
  {
    BottomRowFull(g);
    assert !NoneFullFrom(g.cells, 0);
    var first := IsFull(g).value;
    assert ClearRows(g) == ClearFrom(first.1, first.0, 0);
    ClearFromBottom(first.1, first.0);
    NoneIsEmpty(ClearFrom(first.1, first.0, 0).value.cells);
  }

  /** On such a board nothing merges, row 0 is the only full row, and clearing
      it empties the board. */
  lemma BottomRowClears(g: Grid)
    requires GameGrid(g) && OnlyBottomRow(g)
    ensures !Full(g.cells[GridHeight - 1])
    ensures Cleared(g).Ok? && Empty(Cleared(g).value.cells)
  {
    BottomRowNoPair(g);
    MergeFixNoPair(g);
    ClearRowsBottom(g);
  }

  /** Finding, as written: when a piece completes the bottom row of an
      otherwise empty board, the row is cleared, the next labelling sees no
      tile, and `max([])` raises. */
  lemma ClearingLastRowCrashes(g: Grid)
    requires GameGrid(g) && OnlyBottomRow(g)
    ensures !Full(g.cells[GridHeight - 1])
    ensures SettleBoard(g) == Fault(EmptyLabelList)
  {
    BottomRowClears(g);
    PhaseFaults(g);
  }

  // ---------------------------------------------------------------------------
  // Settling with the empty board handled

  /** The half sequence with the drop loop skipped on a board that holds no
      tile, which has nothing to drop. */
  function PhaseChecked(g: Grid): (r: Result<Grid>)
    requires GameGrid(g) && !Full(g.cells[GridHeight - 1])
    ensures r.Ok? ==> GameGrid(r.value) && r.value.gameOver == g.gameOver
    ensures r.Ok? ==> Thinned(g.cells[GridHeight - 1], r.value.cells[GridHeight - 1]) && !Full(r.value.cells[GridHeight - 1])
  {
    var cleared :- Cleared(g);
    if Count(cleared.cells) == 0 then
      ThinnedNotFull(g.cells[GridHeight - 1], cleared.cells[GridHeight - 1]);
      Ok(cleared)
    else
      Phase(g)
  }

  /** Tetris_2048.py:107-171 with the empty-board check in both halves. */
  function SettleChecked(g: Grid): (r: Result<Grid>)
    requires GameGrid(g) && !Full(g.cells[GridHeight - 1])
    ensures r.Ok? ==> GameGrid(r.value) && r.value.gameOver == g.gameOver
    ensures r.Ok? ==> Thinned(g.cells[GridHeight - 1], r.value.cells[GridHeight - 1])
  {
    var once :- PhaseChecked(g);
    PhaseChecked(once)
  }

  /** The checked sequence never fails on labelling: its only failure is the
      clear loop's. It ends on a board that is settled or holds no tile. */
  lemma SettleCheckedResult(g: Grid)
    requires GameGrid(g) && !Full(g.cells[GridHeight - 1])
    ensures SettleChecked(g).Fault? ==> SettleChecked(g).crash == EmptyFullRowCell
    ensures var r := SettleChecked(g);
      r.Ok? ==> GameGrid(r.value) && r.value.gameOver == g.gameOver && (Settled(r.value) || Empty(r.value.cells))
  {
    PhaseCheckedResult(g);
    if PhaseChecked(g).Ok? {
      PhaseCheckedResult(PhaseChecked(g).value);
    }
  }

  /** Wherever the sequence as written succeeds, the checked one agrees. */
  lemma SettleCheckedAgrees(g: Grid)
    requires GameGrid(g) && !Full(g.cells[GridHeight - 1])
    ensures SettleBoard(g).Ok? ==> SettleChecked(g) == SettleBoard(g)
  {
    if SettleBoard(g).Ok? {
      PhaseAgrees(g);
      PhaseAgrees(Phase(g).value);
    }
  }

  lemma PhaseCheckedResult(g: Grid)
    requires GameGrid(g) && !Full(g.cells[GridHeight - 1])
    ensures PhaseChecked(g).Fault? ==> PhaseChecked(g).crash == EmptyFullRowCell
    ensures PhaseChecked(g).Ok? ==> Settled(PhaseChecked(g).value) || Empty(PhaseChecked(g).value.cells)
  {
    PhaseFaults(g);
    if Cleared(g).Ok? {
      CountZeroIffEmpty(Cleared(g).value.cells);
    }
  }

  /** Where the half as written succeeds, the checked half gives the same board. */
  lemma PhaseAgrees(g: Grid)
    requires GameGrid(g) && !Full(g.cells[GridHeight - 1]) && Phase(g).Ok?
    ensures PhaseChecked(g) == Phase(g)
  {
    PhaseFaults(g);
    CountZeroIffEmpty(Cleared(g).value.cells);
  }

  /** The checked sequence leaves the board of `ClearingLastRowCrashes` empty
      instead of failing. */
  lemma ClearingLastRowChecked(g: Grid)
    requires GameGrid(g) && OnlyBottomRow(g)
    ensures !Full(g.cells[GridHeight - 1])
    ensures SettleChecked(g).Ok? && Empty(SettleChecked(g).value.cells)
  {
    BottomRowClears(g);
    var once := Cleared(g).value;
    CountZeroIffEmpty(once.cells);
    assert PhaseChecked(g) == Ok(once);
    EmptyStaysEmpty(once);
  }

  lemma EmptyNoPair(g: Grid)
    requires GameGrid(g) && Empty(g.cells)
    ensures !HasEqualPair(g.cells)
  {
    forall a, b | 0 <= a < MergeRows && 0 <= b < GameWidth ensures !EqualPair(g.cells, a, b) {
      assert !Occupied(g.cells, Spot(a, b));
    }
  }

  lemma EmptyNoneFull(g: Grid)
    requires GameGrid(g) && Empty(g.cells)
    ensures NoneFullFrom(g.cells, 0)
  {
    forall k | 0 <= k < GridHeight ensures !Full(g.cells[k]) {
      forall c | 0 <= c < GridWidth ensures g.cells[k][c].None? {
        assert !Occupied(g.cells, Spot(k, c));
      }
      EmptyRowWeight(g.cells[k], TileCount, 0);
    }
  }

  /** An empty board goes through a checked half unchanged. */
  lemma EmptyStaysEmpty(g: Grid)
    requires GameGrid(g) && Empty(g.cells) && !Full(g.cells[GridHeight - 1])
    ensures PhaseChecked(g) == Ok(g)
  {
    CountZeroIffEmpty(g.cells);
    EmptyNoPair(g);
    MergeFixNoPair(g);
    EmptyNoneFull(g);
    assert Cleared(g) == Ok(g);
  }
}
