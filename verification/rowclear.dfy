/** Full rows: `is_full` (Tetris_2048.py:242-263), `slide_down`
    (Tetris_2048.py:266-275) and the loop that alternates them until no row
    is full (Tetris_2048.py:119-127). */
module RowClear {
  import opened Common
  import opened Tiles
  import opened Tally
  import opened Grid

  /** A row counts as full once it holds 12 tiles, wherever they sit among its 20 cells. */
  predicate Full(row: Row)
  {
    RowWeight(row, TileCount, 0) >= GameWidth
  }

  /** The column loop of `is_full`: `counter` counts occupied cells and `hit`
      records whether `counter == 12` held after some column. The counter only
      grows by one at a time, so it passes 12 exactly when the row holds 12 tiles. */
  function CountsTo12(row: Row, w: nat, counter: int, hit: bool): (r: bool)
    requires w <= |row| && (hit || counter < GameWidth)
    ensures r <==> hit || counter + RowWeight(row, TileCount, w) >= GameWidth
    decreases |row| - w
  {
    if w == |row| then hit
    else
      var c := if row[w].Some? then counter + 1 else counter;
      RowCountBounds(row, w + 1);
      CountsTo12(row, w + 1, c, hit || c == GameWidth)
  }

  /** `score += tile_matrix[h][a].number` for a in 0..11; `None` where that
      reads an empty cell, which raises in the source. */
  function RowScore(row: Row, a: nat, acc: int): (r: Option<int>)
    requires GameWidth <= |row| && a <= GameWidth
    ensures r.Some? <==> forall c :: a <= c < GameWidth ==> row[c].Some?
    decreases GameWidth - a
  {
    if a == GameWidth then Some(acc)
    else if row[a].None? then None
    else RowScore(row, a + 1, acc + row[a].value.number)
  }

  /** Columns 0..11 of every full row hold a tile; otherwise `is_full` raises. */
  predicate FullRowsReadable(cells: Cells)
    requires Shaped(cells, GridHeight, GridWidth)
  {
    forall k, c :: 0 <= k < GridHeight && 0 <= c < GameWidth && Full(cells[k]) ==> cells[k][c].Some?
  }

  /** Row k is the highest full row. */
  predicate HighestFull(cells: Cells, k: nat)
    requires Shaped(cells, GridHeight, GridWidth) && k < GridHeight
  {
    Full(cells[k]) && forall k' :: k < k' < GridHeight ==> !Full(cells[k'])
  }

  /** No row from h up is full. */
  predicate NoneFullFrom(cells: Cells, h: nat)
    requires Shaped(cells, GridHeight, GridWidth)
  {
    forall k :: h <= k < GridHeight ==> !Full(cells[k])
  }

  /** The outcome of `is_full`: the `row_count` flags and the score it adds. */
  datatype FullScan = FullScan(rows: seq<bool>, gain: int)

  /** The row loop of `is_full` over rows h.. of the grid, given the flags and
      the `score` variable so far. */
  function ScanFull(cells: Cells, h: nat, rows: seq<bool>, score: int): (r: Result<FullScan>)
    requires Shaped(cells, GridHeight, GridWidth) && h <= GridHeight && |rows| == GridHeight
    requires forall k :: h <= k < GridHeight ==> !rows[k]
    ensures r.Ok? <==> forall k, c :: h <= k < GridHeight && 0 <= c < GameWidth && Full(cells[k]) ==> cells[k][c].Some?
    ensures r.Fault? ==> r.crash == EmptyFullRowCell
    ensures r.Ok? ==> |r.value.rows| == GridHeight
    ensures r.Ok? ==> forall k :: 0 <= k < h ==> r.value.rows[k] == rows[k]
    ensures r.Ok? ==> forall k :: h <= k < GridHeight ==> (r.value.rows[k] <==> Full(cells[k]))
    decreases GridHeight - h
  {
    if h == GridHeight then Ok(FullScan(rows, score))
    else if CountsTo12(cells[h], 0, 0, false) then
      var s := RowScore(cells[h], 0, 0);
      if s.None? then Fault(EmptyFullRowCell)
      else ScanFull(cells, h + 1, rows[h := true], s.value)
    else
      ScanFull(cells, h + 1, rows, score)
  }

  /** The score the scan ends with is that of the highest full row, or the
      score it started from when no row from h up is full. */
  lemma {:induction false} ScanFullGain(cells: Cells, h: nat, rows: seq<bool>, score: int)
    requires Shaped(cells, GridHeight, GridWidth) && h <= GridHeight && |rows| == GridHeight
    requires forall k :: h <= k < GridHeight ==> !rows[k]
    ensures var r := ScanFull(cells, h, rows, score);
      && (r.Ok? && NoneFullFrom(cells, h) ==> r.value.gain == score)
      && (r.Ok? ==> forall k :: h <= k < GridHeight && HighestFull(cells, k) ==> r.value.gain == RowScore(cells[k], 0, 0).value)
    decreases GridHeight - h
  {
    if h < GridHeight {
      if CountsTo12(cells[h], 0, 0, false) {
        var s := RowScore(cells[h], 0, 0);
        if s.Some? {
          ScanFullGain(cells, h + 1, rows[h := true], s.value);
        }
      } else {
        ScanFullGain(cells, h + 1, rows, score);
      }
    }
  }

  /** `is_full(20, 20, grid)`: flags exactly the full rows and adds to the grid
      score the column 0..11 sum of the highest full row only, since `score` is
      reset for every full row. It raises when a full row has a gap among
      columns 0..11, which needs tiles in columns 12..19. */
  function IsFull(g: Grid): (r: Result<(seq<bool>, Grid)>)
    requires GameGrid(g)
    ensures r.Ok? <==> FullRowsReadable(g.cells)
    ensures r.Fault? ==> r.crash == EmptyFullRowCell
    ensures r.Ok? ==> |r.value.0| == GridHeight && forall k :: 0 <= k < GridHeight ==> (r.value.0[k] <==> Full(g.cells[k]))
    ensures r.Ok? ==> r.value.1.cells == g.cells && r.value.1.gameOver == g.gameOver && GameGrid(r.value.1)
    ensures r.Ok? && NoneFullFrom(g.cells, 0) ==> r.value.1.score == g.score
    ensures r.Ok? ==> forall k :: 0 <= k < GridHeight && HighestFull(g.cells, k) ==> r.value.1.score == g.score + RowScore(g.cells[k], 0, 0).value
  {
    ScanFullGain(g.cells, 0, seq(GridHeight, _ => false), 0);
    match ScanFull(g.cells, 0, seq(GridHeight, _ => false), 0)
    case Fault(e) => Fault(e)
    case Ok(s) => Ok((s.rows, g.(score := g.score + s.gain)))
  }

  // ---------------------------------------------------------------------------
  // slide_down

  /** The index the `for ... enumerate(row_count)` loop stops at: the first true
      flag from `i` on, or the length when there is none. */
  function LowestTrue(flags: seq<bool>, i: nat): (k: nat)
    requires i <= |flags|
    ensures i <= k <= |flags|
    ensures k < |flags| ==> flags[k]
    ensures forall j :: i <= j < k ==> !flags[j]
    decreases |flags| - i
  {
    if i == |flags| then i
    else if flags[i] then i
    else LowestTrue(flags, i + 1)
  }

  /** A row copied one row down: the tiles in columns 0..11 get y - 1, the
      tiles in columns 12..19 are copied without a position update. */
  function LowerRow(row: Row): (r: Row)
    ensures |r| == |row|
    ensures forall c :: 0 <= c < |row| ==> (r[c].Some? <==> row[c].Some?)
    ensures forall c :: 0 <= c < |row| && row[c].Some? ==> r[c].value.number == row[c].value.number
  {
    seq(|row|, c requires 0 <= c < |row| => if c < GameWidth && row[c].Some? then Some(Lowered(row[c].value)) else row[c])
  }

  /** `after` is `before` with rows i..18 replaced by the lowered row above each. */
  predicate SlidFrom(before: Cells, after: Cells, i: nat)
    requires Shaped(before, GridHeight, GridWidth) && Shaped(after, GridHeight, GridWidth)
  {
    forall k :: 0 <= k < GridHeight ==> after[k] == if i <= k < GridHeight - 1 then LowerRow(before[k + 1]) else before[k]
  }

  /** The `for a in range(index, 19)` loop, from iteration a on. Each iteration
      reads row a + 1, which no earlier iteration has written. */
  function ShiftRows(cells: Cells, a: nat): (r: Cells)
    requires Shaped(cells, GridHeight, GridWidth)
    ensures Shaped(r, GridHeight, GridWidth)
    ensures SlidFrom(cells, r, a)
    decreases GridHeight - a
  {
    if a >= GridHeight - 1 then cells
    else
      var next := cells[a := LowerRow(cells[a + 1])];
      assert forall k :: 0 <= k < GridHeight && k != a ==> next[k] == cells[k];
      assert next[a] == LowerRow(cells[a + 1]);
      ShiftRows(next, a + 1)
  }

  /** `slide_down`: at the lowest flagged row i, every row from i to 18 takes
      the contents of the row above it, lowered by one; rows below i and the
      top row 19 are left as they are. With no flag nothing changes. */
  function SlideDown(flags: seq<bool>, g: Grid): (g': Grid)
    requires GameGrid(g) && |flags| == GridHeight
    ensures GameGrid(g') && g'.score == g.score && g'.gameOver == g.gameOver
    ensures SlidFrom(g.cells, g'.cells, LowestTrue(flags, 0))
  {
    var i := LowestTrue(flags, 0);
    if i == |flags| then g else g.(cells := ShiftRows(g.cells, i))
  }

  /** Lowering a row moves tiles without touching their numbers, so every measure of the row is kept. */
  lemma {:induction false} LowerRowWeight(row: Row, m: Measure, j: nat)
    ensures RowWeight(LowerRow(row), m, j) == RowWeight(row, m, j)
    decreases |row| - j
  {
    if j < |row| {
      LowerRowWeight(row, m, j + 1);
    }
  }

  /** What one slide does to any measure of the grid: row i disappears and the
      top row now appears twice, once copied into row 18 and once in place. */
  lemma {:induction false} SlideWeightFrom(before: Cells, after: Cells, i: nat, m: Measure, k: nat)
    requires Shaped(before, GridHeight, GridWidth) && Shaped(after, GridHeight, GridWidth)
    requires i < GridHeight - 1 && SlidFrom(before, after, i) && k <= GridHeight - 1
    ensures WeightFrom(after, m, k) + (if k <= i then RowWeight(before[i], m, 0) else 0) ==
      WeightFrom(before, m, if k <= i then k else k + 1) + RowWeight(before[GridHeight - 1], m, 0)
    decreases GridHeight - k
  {
    if k == GridHeight - 1 {
      assert WeightFrom(after, m, k + 1) == 0;
      assert WeightFrom(before, m, k + 1) == 0;
    } else {
      SlideWeightFrom(before, after, i, m, k + 1);
      if k >= i {
        LowerRowWeight(before[k + 1], m, 0);
      }
    }
  }

  /** `slide_down` at row i < 19 removes the tiles of row i and duplicates the
      top row: for the tile count, the number sum and every number's
      occurrences, after + row i == before + row 19. */
  lemma SlideDownWeight(flags: seq<bool>, g: Grid, m: Measure)
    requires GameGrid(g) && |flags| == GridHeight && LowestTrue(flags, 0) < GridHeight - 1
    ensures Weight(SlideDown(flags, g).cells, m) + RowWeight(g.cells[LowestTrue(flags, 0)], m, 0) ==
      Weight(g.cells, m) + RowWeight(g.cells[GridHeight - 1], m, 0)
  {
    SlideWeightFrom(g.cells, SlideDown(flags, g).cells, LowestTrue(flags, 0), m, 0);
  }

  /** When row 19 is the only full row, `slide_down` changes nothing, so the
      clear loop would test the same row forever. */
  lemma FullTopRowIsStuck(flags: seq<bool>, g: Grid)
    requires GameGrid(g) && |flags| == GridHeight
    requires forall k :: 0 <= k < GridHeight ==> (flags[k] <==> Full(g.cells[k]))
    requires forall k :: 0 <= k < GridHeight - 1 ==> !Full(g.cells[k])
    requires Full(g.cells[GridHeight - 1])
    ensures SlideDown(flags, g) == g
  {
    var i := LowestTrue(flags, 0);
    assert i == GridHeight - 1;
    var after := SlideDown(flags, g).cells;
    assert forall k :: 0 <= k < GridHeight ==> after[k] == g.cells[k];
    SameCells(after, g.cells, GridHeight, GridWidth);
  }

  // ---------------------------------------------------------------------------
  // The clear loop

  /** Number of full rows among rows k..18. */
  function FullBelowTop(cells: Cells, k: nat): nat
    requires Shaped(cells, GridHeight, GridWidth)
    decreases GridHeight - k
  {
    if k >= GridHeight - 1 then 0 else (if Full(cells[k]) then 1 else 0) + FullBelowTop(cells, k + 1)
  }

  lemma {:induction false} SlideShiftsFullRows(before: Cells, after: Cells, i: nat, k: nat)
    requires Shaped(before, GridHeight, GridWidth) && Shaped(after, GridHeight, GridWidth)
    requires SlidFrom(before, after, i) && i <= k && !Full(before[GridHeight - 1])
    ensures FullBelowTop(after, k) == FullBelowTop(before, k + 1)
    decreases GridHeight - k
  {
    if k < GridHeight - 1 {
      SlideShiftsFullRows(before, after, i, k + 1);
      SlidRow(before, after, i, k);
      LowerKeepsFull(before[k + 1]);
      assert Full(after[k]) <==> Full(before[k + 1]);
      if k == GridHeight - 2 {
        assert FullBelowTop(before, k + 2) == 0;
      }
    }
  }

  /** One slide at the lowest full row `index` keeps the rows below it and the
      top row, and leaves fewer full rows from `index` up. */
  lemma SlideProgress(flags: seq<bool>, g: Grid, index: nat)
    requires GameGrid(g) && |flags| == GridHeight && index < GridHeight
    requires forall k :: 0 <= k < GridHeight ==> (flags[k] <==> Full(g.cells[k]))
    requires forall k :: 0 <= k < index ==> !Full(g.cells[k])
    requires !Full(g.cells[GridHeight - 1]) && flags[index]
    ensures LowestTrue(flags, 0) == index
    ensures forall k :: 0 <= k < index ==> SlideDown(flags, g).cells[k] == g.cells[k]
    ensures SlideDown(flags, g).cells[GridHeight - 1] == g.cells[GridHeight - 1]
    ensures FullBelowTop(SlideDown(flags, g).cells, index) < FullBelowTop(g.cells, index)
  {
    var i := LowestTrue(flags, 0);
    assert i == index;
    var after := SlideDown(flags, g).cells;
    SlideKeepsRows(g.cells, after, index);
    FewerFullRows(g.cells, after, index);
  }

  lemma SlideKeepsRows(before: Cells, after: Cells, i: nat)
    requires Shaped(before, GridHeight, GridWidth) && Shaped(after, GridHeight, GridWidth)
    requires SlidFrom(before, after, i)
    ensures forall k :: 0 <= k < i && k < GridHeight ==> after[k] == before[k]
    ensures after[GridHeight - 1] == before[GridHeight - 1]
  {
    forall k | 0 <= k < i && k < GridHeight ensures after[k] == before[k] {
      SlidRow(before, after, i, k);
    }
    SlidRow(before, after, i, GridHeight - 1);
  }

  lemma FewerFullRows(before: Cells, after: Cells, i: nat)
    requires Shaped(before, GridHeight, GridWidth) && Shaped(after, GridHeight, GridWidth)
    requires SlidFrom(before, after, i) && i < GridHeight
    requires Full(before[i]) && !Full(before[GridHeight - 1])
    ensures FullBelowTop(after, i) < FullBelowTop(before, i)
  {
    SlideShiftsFullRows(before, after, i, i);
    assert FullBelowTop(before, i) == 1 + FullBelowTop(before, i + 1);
  }

  lemma SlidRow(before: Cells, after: Cells, i: nat, k: nat)
    requires Shaped(before, GridHeight, GridWidth) && Shaped(after, GridHeight, GridWidth)
    requires SlidFrom(before, after, i) && k < GridHeight
    ensures k < i || k == GridHeight - 1 ==> after[k] == before[k]
    ensures i <= k < GridHeight - 1 ==> after[k] == LowerRow(before[k + 1])
  {
  }

  /** The inner `while row_count[index]` loop and the outer `index` loop from
      `index` on. Rows below `index` are never full, so the lowest full row is
      `index` itself and each slide lowers the number of full rows from
      `index` up; the top row never changes. It needs the top row not to be
      full: `slide_down` leaves it in place and the loop would not end. */
  function ClearFrom(g: Grid, flags: seq<bool>, index: nat): (r: Result<Grid>)
    requires GameGrid(g) && |flags| == GridHeight && index <= GridHeight
    requires forall k :: 0 <= k < GridHeight ==> (flags[k] <==> Full(g.cells[k]))
    requires forall k :: 0 <= k < index ==> !Full(g.cells[k])
    requires !Full(g.cells[GridHeight - 1])
    ensures r.Ok? ==> GameGrid(r.value) && r.value.gameOver == g.gameOver
    ensures r.Ok? ==> NoneFullFrom(r.value.cells, 0)
    ensures r.Ok? ==> r.value.cells[GridHeight - 1] == g.cells[GridHeight - 1]
    ensures r.Fault? ==> r.crash == EmptyFullRowCell
    decreases GridHeight - index, FullBelowTop(g.cells, index)
  {
    if index == GridHeight then Ok(g)
    else if flags[index] then
      var g1 := SlideDown(flags, g);
      SlideProgress(flags, g, index);
      match IsFull(g1)
      case Fault(e) => Fault(e)
      case Ok(next) => ClearFrom(next.1, next.0, index)
    else
      ClearFrom(g, flags, index + 1)
  }

  lemma {:induction false} ClearFromNothingFull(g: Grid, flags: seq<bool>, index: nat)
    requires GameGrid(g) && |flags| == GridHeight && index <= GridHeight
    requires forall k :: 0 <= k < GridHeight ==> (flags[k] <==> Full(g.cells[k]))
    requires NoneFullFrom(g.cells, 0)
    ensures ClearFrom(g, flags, index) == Ok(g)
    decreases GridHeight - index
  {
    if index < GridHeight {
      ClearFromNothingFull(g, flags, index + 1);
    }
  }

  /** Tetris_2048.py:120-127: `is_full`, then slides until no row is full. */
  function ClearRows(g: Grid): (r: Result<Grid>)
    requires GameGrid(g) && !Full(g.cells[GridHeight - 1])
    ensures r.Ok? ==> GameGrid(r.value) && r.value.gameOver == g.gameOver
    ensures r.Ok? ==> NoneFullFrom(r.value.cells, 0)
    ensures r.Ok? ==> r.value.cells[GridHeight - 1] == g.cells[GridHeight - 1]
    ensures !FullRowsReadable(g.cells) ==> r.Fault?
    ensures r.Fault? ==> r.crash == EmptyFullRowCell
    ensures NoneFullFrom(g.cells, 0) ==> r == Ok(g)
  {
    match IsFull(g)
    case Fault(e) => Fault(e)
    case Ok(first) =>
      if NoneFullFrom(g.cells, 0) then
        assert first.1 == g;
        ClearFromNothingFull(g, first.0, 0);
        ClearFrom(first.1, first.0, 0)
      else
        ClearFrom(first.1, first.0, 0)
  }

  // ---------------------------------------------------------------------------
  // What the clear loop leaves behind

  /** A row after d slides below it: lowered d times. */
  function LowerBy(row: Row, d: nat): Row
    decreases d
  {
    if d == 0 then row else LowerBy(LowerRow(row), d - 1)
  }

  /** What d slides make of the top row: d copies in rows 19 - d .. 18, the
      copy in row j lowered 19 - j times, and the top row itself in place. */
  function TopCopies(top: Row, d: nat): (r: seq<Row>)
    ensures |r| == d + 1
    decreases d
  {
    if d == 0 then [top] else [LowerBy(top, d)] + TopCopies(top, d - 1)
  }

  /** Reference description of a cleared board, for rows k..19 with d full rows
      below k: the rows of k..18 that are not full, in their order, each
      lowered once for every full row below it, and then the top row's copies. */
  function Compacted(cells: Cells, k: nat, d: nat): (r: seq<Row>)
    requires Shaped(cells, GridHeight, GridWidth) && k < GridHeight
    ensures |r| == GridHeight - k + d
    decreases GridHeight - k
  {
    if k == GridHeight - 1 then TopCopies(cells[k], d)
    else if Full(cells[k]) then Compacted(cells, k + 1, d + 1)
    else [LowerBy(cells[k], d)] + Compacted(cells, k + 1, d)
  }

  /** Lowering keeps whether a row is full. */
  lemma LowerKeepsFull(row: Row)
    ensures Full(LowerRow(row)) <==> Full(row)
  {
    LowerRowWeight(row, TileCount, 0);
  }

  /** Above the slide point, the slid board compacts like the board one row higher. */
  lemma {:induction false} SlidCompactedAbove(before: Cells, after: Cells, i: nat, k: nat, d: nat)
    requires Shaped(before, GridHeight, GridWidth) && Shaped(after, GridHeight, GridWidth)
    requires SlidFrom(before, after, i) && i <= k < GridHeight - 1 && !Full(before[GridHeight - 1])
    ensures Compacted(after, k, d) == Compacted(before, k + 1, d + 1)
    decreases GridHeight - k
  {
    SlidRow(before, after, i, k);
    LowerKeepsFull(before[k + 1]);
    if k < GridHeight - 2 {
      SlidCompactedAbove(before, after, i, k + 1, d);
      SlidCompactedAbove(before, after, i, k + 1, d + 1);
    } else {
      SlidRow(before, after, i, GridHeight - 1);
    }
  }

  /** A slide at a full row i leaves the compacted board as it was. */
  lemma {:induction false} SlidCompacted(before: Cells, after: Cells, i: nat, k: nat, d: nat)
    requires Shaped(before, GridHeight, GridWidth) && Shaped(after, GridHeight, GridWidth)
    requires SlidFrom(before, after, i) && k <= i < GridHeight - 1
    requires Full(before[i]) && !Full(before[GridHeight - 1])
    ensures Compacted(after, k, d) == Compacted(before, k, d)
    decreases i - k
  {
    if k == i {
      SlidCompactedAbove(before, after, i, i, d);
    } else {
      SlidRow(before, after, i, k);
      SlidCompacted(before, after, i, k + 1, d);
      SlidCompacted(before, after, i, k + 1, d + 1);
    }
  }

  /** With no full row left, the compacted board is the board. */
  lemma {:induction false} CompactedSettled(cells: Cells, k: nat)
    requires Shaped(cells, GridHeight, GridWidth) && k < GridHeight && NoneFullFrom(cells, k)
    ensures Compacted(cells, k, 0) == cells[k..]
    decreases GridHeight - k
  {
    if k < GridHeight - 1 {
      CompactedSettled(cells, k + 1);
    }
  }

  /** Lowering keeps the column 0..11 sum. */
  lemma {:induction false} LowerKeepsScore(row: Row, a: nat, acc: int)
    requires GameWidth <= |row| && a <= GameWidth
    ensures RowScore(LowerRow(row), a, acc) == RowScore(row, a, acc)
    decreases GameWidth - a
  {
    if a < GameWidth && row[a].Some? {
      LowerKeepsScore(row, a + 1, acc + row[a].value.number);
    }
  }

  /** A slide keeps every full row readable. */
  lemma SlideKeepsReadable(before: Cells, after: Cells, i: nat)
    requires Shaped(before, GridHeight, GridWidth) && Shaped(after, GridHeight, GridWidth)
    requires SlidFrom(before, after, i) && FullRowsReadable(before)
    ensures FullRowsReadable(after)
  {
    forall k, c | 0 <= k < GridHeight && 0 <= c < GameWidth && Full(after[k]) ensures after[k][c].Some? {
      SlidRow(before, after, i, k);
      if i <= k < GridHeight - 1 {
        LowerKeepsFull(before[k + 1]);
      }
    }
  }

  /** A slide below the highest full row h moves it to h - 1, lowered. */
  lemma SlideHighest(before: Cells, after: Cells, i: nat, h: nat)
    requires Shaped(before, GridHeight, GridWidth) && Shaped(after, GridHeight, GridWidth)
    requires SlidFrom(before, after, i) && i < h < GridHeight && HighestFull(before, h)
    requires !Full(before[GridHeight - 1])
    ensures HighestFull(after, h - 1) && after[h - 1] == LowerRow(before[h])
  {
    SlidRow(before, after, i, h - 1);
    LowerKeepsFull(before[h]);
    forall k | h - 1 < k < GridHeight ensures !Full(after[k]) {
      SlidRow(before, after, i, k);
      if k < GridHeight - 1 {
        LowerKeepsFull(before[k + 1]);
      }
    }
  }

  lemma {:induction false} FullBelowTopNone(cells: Cells, k: nat)
    requires Shaped(cells, GridHeight, GridWidth) && NoneFullFrom(cells, k)
    ensures FullBelowTop(cells, k) == 0
    decreases GridHeight - k
  {
    if k < GridHeight - 1 {
      FullBelowTopNone(cells, k + 1);
    }
  }

  lemma {:induction false} FullBelowTopZero(cells: Cells, k: nat)
    requires Shaped(cells, GridHeight, GridWidth) && FullBelowTop(cells, k) == 0 && !Full(cells[GridHeight - 1])
    ensures NoneFullFrom(cells, k)
    decreases GridHeight - k
  {
    if k < GridHeight - 1 {
      FullBelowTopZero(cells, k + 1);
    }
  }

  /** One more full row above adds its sum once more. */
  lemma AddOnce(s0: int, s1: int, sEnd: int, score: int, rest: int)
    requires s1 == s0 + score && sEnd + score == s1 + rest * score
    ensures sEnd + score == s0 + (1 + rest) * score
  {
  }

  /** The score side of one round of the clear loop when the slid row was
      the only full one: the next `is_full` adds nothing and the loop stops. */
  lemma ClearLastScore(c: Cells, c1: Cells, index: nat, s0: int, s1: int, sEnd: int)
    requires Shaped(c, GridHeight, GridWidth) && Shaped(c1, GridHeight, GridWidth)
    requires SlidFrom(c, c1, index) && index < GridHeight - 1 && HighestFull(c, index)
    requires forall k :: 0 <= k < index ==> !Full(c1[k])
    requires FullBelowTop(c1, index) == FullBelowTop(c, index + 1)
    requires NoneFullFrom(c1, 0) ==> s1 == s0 && sEnd == s1
    ensures sEnd == s0 && FullBelowTop(c, index) == 1
  {
    FullBelowTopNone(c, index + 1);
    SlidRow(c, c1, index, GridHeight - 1);
    FullBelowTopZero(c1, index);
  }

  /** The score side of one round of the clear loop when a full row is left:
      the highest full row is still there, one row lower, and the next
      `is_full` adds its sum again. */
  lemma ClearMoreScore(c: Cells, c1: Cells, index: nat, h: nat, s0: int, s1: int, sEnd: int)
    requires Shaped(c, GridHeight, GridWidth) && Shaped(c1, GridHeight, GridWidth)
    requires SlidFrom(c, c1, index) && index < h < GridHeight && HighestFull(c, h)
    requires FullRowsReadable(c) && !Full(c[GridHeight - 1]) && Full(c[index])
    requires FullBelowTop(c1, index) == FullBelowTop(c, index + 1)
    requires HighestFull(c1, h - 1) && c1[h - 1] == LowerRow(c[h]) ==>
      s1 == s0 + RowScore(c[h], 0, 0).value &&
      sEnd + RowScore(c[h], 0, 0).value == s1 + FullBelowTop(c1, index) * RowScore(c[h], 0, 0).value
    ensures sEnd + RowScore(c[h], 0, 0).value == s0 + FullBelowTop(c, index) * RowScore(c[h], 0, 0).value
  {
    SlideHighest(c, c1, index, h);
    assert FullBelowTop(c, index) == 1 + FullBelowTop(c, index + 1);
    AddOnce(s0, s1, sEnd, RowScore(c[h], 0, 0).value, FullBelowTop(c, index + 1));
  }

  /** One round of the clear loop, unfolded. */
  lemma ClearFromStep(g: Grid, flags: seq<bool>, index: nat)
    requires GameGrid(g) && |flags| == GridHeight && index < GridHeight
    requires forall k :: 0 <= k < GridHeight ==> (flags[k] <==> Full(g.cells[k]))
    requires forall k :: 0 <= k < index ==> !Full(g.cells[k])
    requires !Full(g.cells[GridHeight - 1]) && flags[index]
    requires IsFull(SlideDown(flags, g)).Ok?
    ensures var next := IsFull(SlideDown(flags, g)).value;
      && (forall k :: 0 <= k < index ==> !Full(next.1.cells[k]))
      && !Full(next.1.cells[GridHeight - 1])
      && FullBelowTop(next.1.cells, index) < FullBelowTop(g.cells, index)
      && ClearFrom(g, flags, index) == ClearFrom(next.1, next.0, index)
  {
    SlideProgress(flags, g, index);
  }

  /** The clear loop from `index` on, entered with the flags of a successful
      `is_full`, succeeds and leaves the compacted board. */
  lemma {:induction false} ClearFromCompacts(g: Grid, flags: seq<bool>, index: nat)
    requires GameGrid(g) && |flags| == GridHeight && index <= GridHeight
    requires forall k :: 0 <= k < GridHeight ==> (flags[k] <==> Full(g.cells[k]))
    requires forall k :: 0 <= k < index ==> !Full(g.cells[k])
    requires !Full(g.cells[GridHeight - 1]) && FullRowsReadable(g.cells)
    ensures ClearFrom(g, flags, index).Ok?
    ensures ClearFrom(g, flags, index).value.cells == Compacted(g.cells, 0, 0)
    decreases GridHeight - index, FullBelowTop(g.cells, index)
  {
    if index == GridHeight {
      CompactedSettled(g.cells, 0);
    } else if flags[index] {
      var g1 := SlideDown(flags, g);
      SlideProgress(flags, g, index);
      SlideKeepsReadable(g.cells, g1.cells, index);
      SlidCompacted(g.cells, g1.cells, index, 0, 0);
      ClearFromStep(g, flags, index);
      var next := IsFull(g1).value;
      ClearFromCompacts(next.1, next.0, index);
    } else {
      ClearFromCompacts(g, flags, index + 1);
    }
  }

  /** The score the clear loop from `index` on adds: every later `is_full`
      adds the highest full row's sum again, once per further full row,
      because that row only moves down as the rows under it go. */
  lemma {:induction false} ClearFromScore(g: Grid, flags: seq<bool>, index: nat)
    requires GameGrid(g) && |flags| == GridHeight && index <= GridHeight
    requires forall k :: 0 <= k < GridHeight ==> (flags[k] <==> Full(g.cells[k]))
    requires forall k :: 0 <= k < index ==> !Full(g.cells[k])
    requires !Full(g.cells[GridHeight - 1]) && FullRowsReadable(g.cells)
    requires ClearFrom(g, flags, index).Ok?
    ensures forall h :: 0 <= h < GridHeight && HighestFull(g.cells, h) ==>
      ClearFrom(g, flags, index).value.score + RowScore(g.cells[h], 0, 0).value ==
      g.score + FullBelowTop(g.cells, index) * RowScore(g.cells[h], 0, 0).value
    ensures NoneFullFrom(g.cells, 0) ==> ClearFrom(g, flags, index).value.score == g.score
    decreases GridHeight - index, FullBelowTop(g.cells, index)
  {
    if index < GridHeight && flags[index] {
      var g1 := SlideDown(flags, g);
      SlideProgress(flags, g, index);
      SlideKeepsReadable(g.cells, g1.cells, index);
      SlideShiftsFullRows(g.cells, g1.cells, index, index);
      ClearFromStep(g, flags, index);
      var next := IsFull(g1).value;
      ClearFromScore(next.1, next.0, index);
      var sEnd := ClearFrom(g, flags, index).value.score;
      forall h | 0 <= h < GridHeight && HighestFull(g.cells, h)
        ensures sEnd + RowScore(g.cells[h], 0, 0).value == g.score + FullBelowTop(g.cells, index) * RowScore(g.cells[h], 0, 0).value
      {
        if h == index {
          ClearLastScore(g.cells, g1.cells, index, g.score, next.1.score, sEnd);
        } else {
          if HighestFull(g1.cells, h - 1) && g1.cells[h - 1] == LowerRow(g.cells[h]) {
            LowerKeepsScore(g.cells[h], 0, 0);
          }
          ClearMoreScore(g.cells, g1.cells, index, h, g.score, next.1.score, sEnd);
        }
      }
    } else if index < GridHeight {
      ClearFromScore(g, flags, index + 1);
    }
  }

  /** Tetris_2048.py:120-127 as a whole: clearing fails exactly when a full row
      has a gap in columns 0..11. Otherwise it leaves the compacted board and
      adds the highest full row's sum once for every full row. */
  lemma ClearRowsResult(g: Grid)
    requires GameGrid(g) && !Full(g.cells[GridHeight - 1])
    ensures ClearRows(g).Ok? <==> FullRowsReadable(g.cells)
    ensures ClearRows(g).Ok? ==> ClearRows(g).value.cells == Compacted(g.cells, 0, 0)
    ensures ClearRows(g).Ok? ==> forall h :: 0 <= h < GridHeight && HighestFull(g.cells, h) ==>
      ClearRows(g).value.score == g.score + FullBelowTop(g.cells, 0) * RowScore(g.cells[h], 0, 0).value
  {
    if FullRowsReadable(g.cells) {
      var first := IsFull(g).value;
      ClearFromCompacts(first.1, first.0, 0);
      ClearFromScore(first.1, first.0, 0);
      if NoneFullFrom(g.cells, 0) {
        CompactedSettled(g.cells, 0);
      }
    }
  }
}
