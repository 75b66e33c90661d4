/** `find_free_tiles` (Tetris_2048.py:592-603): after labelling, flag every
    tile whose label is neither 0 (background) nor 1 and does not occur in
    row 0 (the bottom row), that is, every tile of a component that does not
    rest on the floor. Label 1 is never flagged. */
module FreeTiles {
  import opened Common
  import opened Tiles
  import opened Grid
  import opened Connectivity
  import opened LabelTables
  import opened Labelling

  /** The scan state: the flag matrix, `okay_labels` and `counter`. */
  datatype FreeScan = FreeScan(free: seq<seq<bool>>, okay: seq<nat>, counter: nat)

  /** The labels of the first n cells of a row that are neither 0 nor 1, in order. */
  function Anchors(row: seq<nat>, n: nat): (s: seq<nat>)
    requires n <= |row|
    ensures forall l :: l in s <==> l != 0 && l != 1 && l in row[..n]
  {
    if n == 0 then []
    else
      assert row[..n] == row[..n - 1] + [row[n - 1]];
      Anchors(row, n - 1) + (if row[n - 1] != 0 && row[n - 1] != 1 then [row[n - 1]] else [])
  }

  /** A label matrix of the given shape with a bottom row. */
  predicate Labelled(labels: Labels, h: nat, w: nat)
  {
    LabelShaped(labels, h, w) && h > 0
  }

  /** Cell (i, j) is free: off the bottom row, its label neither 0 nor 1 and absent from row 0. */
  predicate Free(labels: Labels, h: nat, w: nat, i: nat, j: nat)
    requires LabelShaped(labels, h, w) && i < h && j < w
  {
    var l := labels[i][j];
    i > 0 && l != 0 && l != 1 && l !in labels[0]
  }

  /** One iteration at row x, column y: a label other than 0 and 1 found in
      row 0 joins `okay_labels`; a label other than 0 and 1 not among
      `okay_labels` is flagged and counted. */
  function FreeStep(labels: Labels, h: nat, w: nat, x: nat, y: nat, s: FreeScan): (s': FreeScan)
    requires LabelShaped(labels, h, w) && FlagShaped(s.free, h, w) && x < h && y < w
    ensures FlagShaped(s'.free, h, w)
  {
    var l := labels[x][y];
    if l != 1 && l != 0 then
      var okay := if x == 0 then s.okay + [l] else s.okay;
      if l !in okay then FreeScan(s.free[x := s.free[x][y := true]], okay, s.counter + 1)
      else FreeScan(s.free, okay, s.counter)
    else s
  }

  /** The `okay_labels` seen before (row, col): the anchors of row 0 so far. */
  function OkayBefore(labels: Labels, h: nat, w: nat, row: nat, col: nat): seq<nat>
    requires Labelled(labels, h, w) && col <= w
  {
    Anchors(labels[0], if row == 0 then col else w)
  }

  /** The scan after every cell before (row, col): the flag of each handled
      cell is set exactly when it was set already or the cell is free. */
  function ScanFree(labels: Labels, h: nat, w: nat, free: seq<seq<bool>>, row: nat, col: nat): (s: FreeScan)
    requires Labelled(labels, h, w) && FlagShaped(free, h, w)
    requires row <= h && col <= w && (row == h ==> col == 0)
    ensures FlagShaped(s.free, h, w)
    ensures s.okay == OkayBefore(labels, h, w, row, col)
    ensures forall i, j :: 0 <= i < h && 0 <= j < w ==>
      s.free[i][j] == (free[i][j] || (Before(i, j, row, col) && Free(labels, h, w, i, j)))
    decreases row, col
  {
    if col == 0 then
      if row == 0 then FreeScan(free, [], 0)
      else ScanFree(labels, h, w, free, row - 1, w)
    else
      var s := ScanFree(labels, h, w, free, row, col - 1);
      FreeStepAgrees(labels, h, w, free, row, col - 1, s);
      FreeStep(labels, h, w, row, col - 1, s)
  }

  /** The scan step at (x, y) flags the cell exactly when it is free and
      extends `okay_labels` to the anchors up to (x, y + 1). */
  lemma FreeStepAgrees(labels: Labels, h: nat, w: nat, free: seq<seq<bool>>, x: nat, y: nat, s: FreeScan)
    requires Labelled(labels, h, w) && FlagShaped(s.free, h, w) && x < h && y < w
    requires s.okay == OkayBefore(labels, h, w, x, y)
    ensures var s' := FreeStep(labels, h, w, x, y, s);
      && s'.okay == OkayBefore(labels, h, w, x, y + 1)
      && s'.counter == s.counter + (if Free(labels, h, w, x, y) then 1 else 0)
      && (forall i, j :: 0 <= i < h && 0 <= j < w ==>
           s'.free[i][j] == (s.free[i][j] || (i == x && j == y && Free(labels, h, w, x, y))))
  {
    var l := labels[x][y];
    if x == 0 {
      assert labels[0][..y + 1] == labels[0][..y] + [l];
    } else {
      assert labels[0][..w] == labels[0];
    }
  }

  /** `find_free_tiles`: the flag matrix it was given with every free cell
      set, and the number of free cells found. */
  function FindFreeTiles(h: nat, w: nat, labels: Labels, free: seq<seq<bool>>): (r: (seq<seq<bool>>, nat))
    requires LabelShaped(labels, h, w) && FlagShaped(free, h, w)
    ensures FlagShaped(r.0, h, w)
    ensures forall i, j :: 0 <= i < h && 0 <= j < w ==> r.0[i][j] == (free[i][j] || Free(labels, h, w, i, j))
  {
    if h == 0 then (free, 0)
    else
      var s := ScanFree(labels, h, w, free, h, 0);
      (s.free, s.counter)
  }

  // ---------------------------------------------------------------------------
  // The count

  lemma {:induction false} CountTrueSet(f: seq<bool>, y: nat, j: nat)
    requires y < |f|
    ensures CountTrue(f[y := true], j) == CountTrue(f, j) + (if j <= y && !f[y] then 1 else 0)
    decreases |f| - j
  {
    if j < |f| {
      CountTrueSet(f, y, j + 1);
    }
  }

  lemma {:induction false} FlagCountSet(flags: seq<seq<bool>>, x: nat, y: nat, k: nat)
    requires x < |flags| && y < |flags[x]|
    ensures FlagCountFrom(flags[x := flags[x][y := true]], k) == FlagCountFrom(flags, k) + (if k <= x && !flags[x][y] then 1 else 0)
    decreases |flags| - k
  {
    if k < |flags| {
      FlagCountSet(flags, x, y, k + 1);
      if k == x {
        CountTrueSet(flags[x], y, 0);
      }
    }
  }

  /** No cell is flagged. */
  predicate Unflagged(free: seq<seq<bool>>, h: nat, w: nat)
  {
    FlagShaped(free, h, w) && forall i, j :: 0 <= i < h && 0 <= j < w ==> !free[i][j]
  }

  /** Started from an unflagged matrix, `counter` is the number of flags set. */
  lemma {:induction false} ScanFreeCounts(labels: Labels, h: nat, w: nat, free: seq<seq<bool>>, row: nat, col: nat)
    requires Labelled(labels, h, w) && Unflagged(free, h, w)
    requires row <= h && col <= w && (row == h ==> col == 0)
    ensures ScanFree(labels, h, w, free, row, col).counter == FlagCount(ScanFree(labels, h, w, free, row, col).free)
    decreases row, col
  {
    if col == 0 {
      if row == 0 {
        EmptyFlagCount(free, h, w, 0);
      } else {
        ScanFreeCounts(labels, h, w, free, row - 1, w);
      }
    } else {
      var prev := col - 1;
      ScanFreeCounts(labels, h, w, free, row, prev);
      var s := ScanFree(labels, h, w, free, row, prev);
      FreeStepAgrees(labels, h, w, free, row, prev, s);
      if Free(labels, h, w, row, prev) {
        FlagCountSet(s.free, row, prev, 0);
      }
      assert ScanFree(labels, h, w, free, row, col) == FreeStep(labels, h, w, row, prev, s);
    }
  }

  lemma {:induction false} EmptyFlagCount(free: seq<seq<bool>>, h: nat, w: nat, k: nat)
    requires Unflagged(free, h, w)
    ensures FlagCountFrom(free, k) == 0
    decreases h - k
  {
    if k < h {
      EmptyFlagCount(free, h, w, k + 1);
      EmptyCountTrue(free[k], 0);
    }
  }

  lemma {:induction false} EmptyCountTrue(f: seq<bool>, j: nat)
    requires forall i :: 0 <= i < |f| ==> !f[i]
    ensures CountTrue(f, j) == 0
    decreases |f| - j
  {
    if j < |f| {
      EmptyCountTrue(f, j + 1);
    }
  }

  /** Given an unflagged matrix, the returned count is the number of flags. */
  lemma FindFreeTilesCounts(h: nat, w: nat, labels: Labels, free: seq<seq<bool>>)
    requires LabelShaped(labels, h, w) && Unflagged(free, h, w)
    ensures FindFreeTiles(h, w, labels, free).1 == FlagCount(FindFreeTiles(h, w, labels, free).0)
  {
    if h == 0 {
      EmptyFlagCount(free, h, w, 0);
    } else {
      ScanFreeCounts(labels, h, w, free, h, 0);
    }
  }

  // ---------------------------------------------------------------------------
  // What the flags mean once the labels are the components

  /** Some tile of the bottom row is connected to p. */
  ghost predicate Grounded(cells: Cells, w: nat, p: Spot)
  {
    exists c :: 0 <= c < w && Connected(cells, p, Spot(0, c))
  }

  /** The labelling's label matrix. */
  function LabelsOf(cells: Cells, h: nat, w: nat): Labels
    requires Shaped(cells, h, w) && ConnectedComponentLabeling(cells, h, w).Ok?
  {
    ConnectedComponentLabeling(cells, h, w).value.0
  }

  /** With the labels of the connected components, an occupied cell is free
      exactly when it is off the bottom row, not labelled 1, and no tile of
      the bottom row is connected to it. */
  lemma FreeMeansFloating(cells: Cells, h: nat, w: nat, p: Spot)
    requires Shaped(cells, h, w) && h > 0 && ConnectedComponentLabeling(cells, h, w).Ok? && Occupied(cells, p)
    ensures var labels := LabelsOf(cells, h, w);
      Free(labels, h, w, p.r, p.c) <==> p.r > 0 && Lab(labels, p) != 1 && !Grounded(cells, w, p)
  {
    var labels := LabelsOf(cells, h, w);
    var l := Lab(labels, p);
    assert l == labels[p.r][p.c];
    LabelZeroIffEmpty(cells, h, w, p);
    if l in labels[0] {
      var c :| 0 <= c < w && labels[0][c] == l;
      var b := Spot(0, c);
      assert Lab(labels, b) == l;
      LabelZeroIffEmpty(cells, h, w, b);
      LabelsAreComponents(cells, h, w, p, b);
    }
    if Grounded(cells, w, p) {
      var c :| 0 <= c < w && Connected(cells, p, Spot(0, c));
      var b := Spot(0, c);
      ConnectedOccupied(cells, p, b);
      LabelsAreComponents(cells, h, w, p, b);
      assert labels[0][c] == Lab(labels, b);
    }
  }

  /** The first tile of the scan is labelled 1 and so is never flagged, even
      when its component does not reach the bottom row. */
  lemma FirstTileNeverFree(cells: Cells, h: nat, w: nat, p: Spot)
    requires Shaped(cells, h, w) && h > 0 && ConnectedComponentLabeling(cells, h, w).Ok? && FirstTile(cells, p)
    ensures !Free(LabelsOf(cells, h, w), h, w, p.r, p.c)
  {
    FirstTileLabelOne(cells, h, w, p);
  }

  /** A tile under a free tile is free too. */
  lemma UnderFreeIsFree(cells: Cells, h: nat, w: nat, i: nat, j: nat)
    requires Shaped(cells, h, w) && ConnectedComponentLabeling(cells, h, w).Ok?
    requires i + 1 < h && j < w && cells[i][j].Some?
    requires Free(LabelsOf(cells, h, w), h, w, i + 1, j)
    ensures Free(LabelsOf(cells, h, w), h, w, i, j)
  {
    var p, q := Spot(i + 1, j), Spot(i, j);
    LabelZeroIffEmpty(cells, h, w, p);
    AdjacentConnected(cells, p, q);
    LabelsAreComponents(cells, h, w, p, q);
  }

  /** The flags `find_free_tiles` computes from correct labels are what
      `move_free_tiles` may be given, and no unflagged tile sits under a
      flagged one. */
  lemma FreeFlagsReady(cells: Cells, h: nat, w: nat, free: seq<seq<bool>>)
    requires Shaped(cells, h, w) && ConnectedComponentLabeling(cells, h, w).Ok? && Unflagged(free, h, w)
    ensures var flags := FindFreeTiles(h, w, LabelsOf(cells, h, w), free).0;
      DropReady(cells, flags, h, w) && ClosedBelow(cells, flags, h, w)
  {
    var labels := LabelsOf(cells, h, w);
    var flags := FindFreeTiles(h, w, labels, free).0;
    forall i, j | 0 <= i < h && 0 <= j < w && flags[i][j] ensures cells[i][j].Some? {
      LabelZeroIffEmpty(cells, h, w, Spot(i, j));
    }
    forall i, j | 0 <= i && i + 1 < h && 0 <= j < w && flags[i + 1][j] && cells[i][j].Some? ensures flags[i][j] {
      UnderFreeIsFree(cells, h, w, i, j);
    }
  }
}
