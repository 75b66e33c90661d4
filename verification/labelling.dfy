/** `connected_component_labeling` (Tetris_2048.py:485-537): the classic
    two-pass labelling of the occupied cells of a tile matrix under
    4-connectivity. The first pass scans rows bottom-up and each row left to
    right, gives an occupied cell the least label of its already-scanned
    neighbours (the cell one row lower and the cell to the left) or a fresh
    label, and records in the list of minimum equivalent labels which
    provisional labels were found to touch. The second pass renumbers the
    classes 1..k. */
module Labelling {
  import opened Common
  import opened Tiles
  import opened Grid
  import opened Connectivity
  import opened LabelTables

  /** The state of the first pass: the label matrix, the list of minimum
      equivalent labels, and `current_label`, the next fresh label. */
  datatype FirstPass = FirstPass(labels: Labels, eq: seq<nat>, next: nat)

  /** The label of a cell, 0 outside the matrix. */
  function Lab(labels: Labels, p: Spot): nat
  {
    if p.r < |labels| && p.c < |labels[p.r]| then labels[p.r][p.c] else 0
  }

  /** The cell is occupied and the scan has already handled it. */
  predicate Processed(cells: Cells, row: nat, col: nat, p: Spot)
  {
    Occupied(cells, p) && Before(p.r, p.c, row, col)
  }

  /** The class of a labelled cell: the minimum equivalent label recorded for
      its provisional label; 0 for the background. */
  function Class(st: FirstPass, p: Spot): nat
  {
    var l := Lab(st.labels, p);
    if 1 <= l <= |st.eq| then st.eq[l - 1] else 0
  }

  /** The shape invariant of the first pass before cell (row, col): exactly the
      handled occupied cells carry a label, every label has an entry in the
      list, and `current_label` is one past the list. */
  ghost predicate Wf(cells: Cells, h: nat, w: nat, row: nat, col: nat, st: FirstPass)
  {
    && Shaped(cells, h, w) && LabelShaped(st.labels, h, w)
    && st.next == |st.eq| + 1
    && (forall p :: Lab(st.labels, p) <= |st.eq|)
    && (forall p :: Lab(st.labels, p) != 0 <==> Processed(cells, row, col, p))
  }

  /** Every entry of the list names a class representative no larger than its
      own label: entry l - 1 is at most l and is its own minimum equivalent label. */
  predicate EqTable(eq: seq<nat>)
  {
    forall k :: 0 <= k < |eq| ==> 1 <= eq[k] <= k + 1 && eq[eq[k] - 1] == eq[k]
  }

  /** Merging classes that are all representatives keeps the table's invariant. */
  lemma UpdateKeepsTable(eq: seq<nat>, toMerge: seq<nat>)
    requires EqTable(eq) && |toMerge| > 0
    requires forall i :: 0 <= i < |toMerge| ==> 1 <= toMerge[i] <= |eq| && eq[toMerge[i] - 1] == toMerge[i]
    ensures EqTable(UpdateMinEquivalentLabels(eq, toMerge))
  {
    var m := SeqMin(toMerge);
    var eq' := UpdateMinEquivalentLabels(eq, toMerge);
    forall k | 0 <= k < |eq| ensures 1 <= eq'[k] <= k + 1 && eq'[eq'[k] - 1] == eq'[k] {
      if eq[k] in toMerge {
        assert eq[m - 1] == m;
      } else {
        assert eq[eq[k] - 1] == eq[k];
      }
    }
  }

  /** `labels[y, x] = v`. */
  function SetLabel(labels: Labels, y: nat, x: nat, v: nat): (r: Labels)
    requires y < |labels| && x < |labels[y]|
    ensures |r| == |labels| && forall i :: 0 <= i < |r| ==> |r[i]| == |labels[i]|
    ensures forall p :: Lab(r, p) == if p == Spot(y, x) then v else Lab(labels, p)
  {
    var row: seq<nat> := labels[y][x := v];
    labels[y := row]
  }

  /** Skipping an empty cell keeps the shape invariant. */
  lemma SkipKeepsWf(cells: Cells, h: nat, w: nat, y: nat, x: nat, st: FirstPass)
    requires Wf(cells, h, w, y, x, st) && y < h && x < w && cells[y][x].None?
    ensures Wf(cells, h, w, y, x + 1, st)
  {
    forall p ensures Processed(cells, y, x, p) <==> Processed(cells, y, x + 1, p) {
    }
  }

  /** Labelling an occupied cell with a label that has an entry keeps the shape invariant. */
  lemma MarkKeepsWf(cells: Cells, h: nat, w: nat, y: nat, x: nat, st: FirstPass, eq: seq<nat>, v: nat)
    requires Wf(cells, h, w, y, x, st) && y < h && x < w && cells[y][x].Some?
    requires |st.eq| <= |eq| && 1 <= v <= |eq|
    ensures Wf(cells, h, w, y, x + 1, FirstPass(SetLabel(st.labels, y, x, v), eq, |eq| + 1))
  {
    forall p ensures Processed(cells, y, x + 1, p) <==> Processed(cells, y, x, p) || p == Spot(y, x) {
    }
  }

  /** `labels_to_merge`: the classes of the two neighbour labels. */
  function MergeList(eq: seq<nat>, nb: seq<nat>): (toMerge: seq<nat>)
    requires |nb| == 2 && 1 <= nb[0] <= |eq| && 1 <= nb[1] <= |eq|
    ensures |toMerge| == 2
  {
    [eq[nb[0] - 1], eq[nb[1] - 1]]
  }

  /** Merging the classes of two neighbour labels keeps the table's invariant. */
  lemma MergeKeepsTable(eq: seq<nat>, nb: seq<nat>)
    requires EqTable(eq) && |nb| == 2 && 1 <= nb[0] <= |eq| && 1 <= nb[1] <= |eq|
    ensures EqTable(UpdateMinEquivalentLabels(eq, MergeList(eq, nb)))
  {
    var toMerge := MergeList(eq, nb);
    assert eq[toMerge[0] - 1] == toMerge[0] && eq[toMerge[1] - 1] == toMerge[1];
    UpdateKeepsTable(eq, toMerge);
  }

  /** An occupied cell with labelled neighbours takes the least of their labels;
      two different neighbour labels have their classes merged. */
  function JoinStep(cells: Cells, h: nat, w: nat, y: nat, x: nat, st: FirstPass, nb: seq<nat>): (st': FirstPass)
    requires Wf(cells, h, w, y, x, st) && EqTable(st.eq) && y < h && x < w && cells[y][x].Some?
    requires nb == GetNeighborLabels(st.labels, x, y) && |nb| > 0
    ensures Wf(cells, h, w, y, x + 1, st') && EqTable(st'.eq)
  {
    NeighborLabelsBounded(cells, h, w, y, x, st);
    var least := SeqMin(nb);
    var labels := SetLabel(st.labels, y, x, least);
    if |nb| > 1 then
      var toMerge := MergeList(st.eq, nb);
      MergeKeepsTable(st.eq, nb);
      var eq := UpdateMinEquivalentLabels(st.eq, toMerge);
      MarkKeepsWf(cells, h, w, y, x, st, eq, least);
      FirstPass(labels, eq, st.next)
    else
      MarkKeepsWf(cells, h, w, y, x, st, st.eq, least);
      FirstPass(labels, st.eq, st.next)
  }

  /** One iteration of the first pass at cell (y, x): an empty cell is skipped;
      a cell without labelled neighbours gets a fresh label, appended to the
      list as its own minimum; otherwise `JoinStep`. */
  function LabelStep(cells: Cells, h: nat, w: nat, y: nat, x: nat, st: FirstPass): (st': FirstPass)
    requires Wf(cells, h, w, y, x, st) && EqTable(st.eq) && y < h && x < w
    ensures Wf(cells, h, w, y, x + 1, st') && EqTable(st'.eq)
  {
    if cells[y][x].None? then
      SkipKeepsWf(cells, h, w, y, x, st);
      st
    else
      var nb := GetNeighborLabels(st.labels, x, y);
      if |nb| == 0 then
        MarkKeepsWf(cells, h, w, y, x, st, st.eq + [st.next], st.next);
        FirstPass(SetLabel(st.labels, y, x, st.next), st.eq + [st.next], st.next + 1)
      else
        JoinStep(cells, h, w, y, x, st, nb)
  }

  /** The neighbour labels are labels with an entry in the list. */
  lemma NeighborLabelsBounded(cells: Cells, h: nat, w: nat, y: nat, x: nat, st: FirstPass)
    requires Wf(cells, h, w, y, x, st) && y < h && x < w
    ensures var nb := GetNeighborLabels(st.labels, x, y);
      && (forall i :: 0 <= i < |nb| ==> 1 <= nb[i] <= |st.eq|)
      && (|nb| > 0 ==> 1 <= SeqMin(nb) <= |st.eq|)
  {
    var nb := GetNeighborLabels(st.labels, x, y);
    assert forall i :: 0 <= i < |nb| ==> nb[i] in nb;
    assert y != 0 ==> Lab(st.labels, Spot(y - 1, x)) == st.labels[y - 1][x];
    assert x != 0 ==> Lab(st.labels, Spot(y, x - 1)) == st.labels[y][x - 1];
  }

  /** Handling the last cell of a row is handling everything before the next row. */
  lemma WfWraps(cells: Cells, h: nat, w: nat, row: nat, st: FirstPass)
    requires Wf(cells, h, w, row, w, st)
    ensures Wf(cells, h, w, row + 1, 0, st)
  {
    forall p ensures Processed(cells, row, w, p) <==> Processed(cells, row + 1, 0, p) {
    }
  }

  /** The first pass after it has handled every cell before (row, col). */
  function ScanLabels(cells: Cells, h: nat, w: nat, row: nat, col: nat): (st: FirstPass)
    requires Shaped(cells, h, w) && row <= h && col <= w && (row == h ==> col == 0)
    ensures Wf(cells, h, w, row, col, st) && EqTable(st.eq)
    decreases row, col
  {
    if col == 0 then
      if row == 0 then FirstPass(seq(h, _ => seq(w, _ => 0)), [], 1)
      else
        var st := ScanLabels(cells, h, w, row - 1, w);
        WfWraps(cells, h, w, row - 1, st);
        st
    else
      LabelStep(cells, h, w, row, col - 1, ScanLabels(cells, h, w, row, col - 1))
  }

  // ---------------------------------------------------------------------------
  // Invariants of the first pass

  /** Handled neighbours share a class. */
  ghost predicate Agree(cells: Cells, row: nat, col: nat, st: FirstPass)
  {
    forall p, q :: Processed(cells, row, col, p) && Processed(cells, row, col, q) && Adjacent(p, q) ==> Class(st, p) == Class(st, q)
  }

  /** Handled cells of one class are connected. */
  ghost predicate Sound(cells: Cells, row: nat, col: nat, st: FirstPass)
  {
    forall p, q :: Processed(cells, row, col, p) && Processed(cells, row, col, q) && Class(st, p) == Class(st, q) ==> Connected(cells, p, q)
  }

  /** Some handled cell carries label k + 1. */
  ghost predicate HasOrigin(cells: Cells, row: nat, col: nat, st: FirstPass, k: nat)
  {
    exists p :: Processed(cells, row, col, p) && Lab(st.labels, p) == k + 1
  }

  /** Every label in the list was given to some handled cell. */
  ghost predicate Origins(cells: Cells, row: nat, col: nat, st: FirstPass)
  {
    forall k :: 0 <= k < |st.eq| ==> HasOrigin(cells, row, col, st, k)
  }

  /** The occupied cell the scan meets first. */
  ghost predicate FirstTile(cells: Cells, p: Spot)
  {
    Occupied(cells, p) && forall q :: Occupied(cells, q) ==> !Before(q.r, q.c, p.r, p.c)
  }

  /** The first occupied cell, once handled, has label 1. */
  ghost predicate FirstIsOne(cells: Cells, row: nat, col: nat, st: FirstPass)
  {
    forall p :: Processed(cells, row, col, p) && FirstTile(cells, p) ==> Lab(st.labels, p) == 1
  }

  ghost predicate Invariant(cells: Cells, row: nat, col: nat, st: FirstPass)
  {
    Agree(cells, row, col, st) && Sound(cells, row, col, st) && Origins(cells, row, col, st) && FirstIsOne(cells, row, col, st)
  }

  /** The handled cells after (y, x) are those before it and (y, x) itself if occupied. */
  lemma ProcessedStep(cells: Cells, y: nat, x: nat, p: Spot)
    ensures Processed(cells, y, x + 1, p) <==> Processed(cells, y, x, p) || (p == Spot(y, x) && Occupied(cells, p))
  {
  }

  /** A label among the neighbour labels belongs to a handled neighbour of (y, x). */
  lemma NeighborCell(cells: Cells, h: nat, w: nat, y: nat, x: nat, st: FirstPass, l: nat) returns (n: Spot)
    requires Wf(cells, h, w, y, x, st) && y < h && x < w
    requires l in GetNeighborLabels(st.labels, x, y)
    ensures Processed(cells, y, x, n) && Adjacent(n, Spot(y, x)) && Lab(st.labels, n) == l
  {
    if y != 0 && st.labels[y - 1][x] == l {
      n := Spot(y - 1, x);
    } else {
      n := Spot(y, x - 1);
    }
  }

  /** The label of a handled neighbour of (y, x) is among the neighbour labels. */
  lemma NeighborListed(cells: Cells, h: nat, w: nat, y: nat, x: nat, st: FirstPass, q: Spot)
    requires Wf(cells, h, w, y, x, st) && y < h && x < w
    requires Processed(cells, y, x, q) && Adjacent(q, Spot(y, x))
    ensures Lab(st.labels, q) in GetNeighborLabels(st.labels, x, y)
  {
    assert (y > 0 && q == Spot(y - 1, x)) || (x > 0 && q == Spot(y, x - 1));
  }

  /** A class no larger than the label that names it. */
  lemma ClassBound(cells: Cells, h: nat, w: nat, row: nat, col: nat, st: FirstPass, p: Spot)
    requires Wf(cells, h, w, row, col, st) && EqTable(st.eq) && Processed(cells, row, col, p)
    ensures 1 <= Class(st, p) <= Lab(st.labels, p) <= |st.eq|
  {
  }

  /** Connected to a cell adjacent to an occupied `c` is connected to `c`, both ways. */
  lemma ConnectThrough(cells: Cells, p: Spot, n: Spot, c: Spot)
    requires Connected(cells, p, n) && Adjacent(n, c) && Occupied(cells, c)
    ensures Connected(cells, p, c) && Connected(cells, c, p)
  {
    ConnectedOccupied(cells, p, n);
    AdjacentConnected(cells, n, c);
    ConnectedTransitive(cells, p, n, c);
    ConnectedSymmetric(cells, p, c);
  }

  // The fresh-label step

  /** Before the first occupied cell no label has been given. */
  lemma NothingBeforeFirst(cells: Cells, y: nat, x: nat, st: FirstPass)
    requires Origins(cells, y, x, st) && FirstTile(cells, Spot(y, x))
    ensures |st.eq| == 0
  {
    if |st.eq| > 0 {
      var origin := HasOrigin(cells, y, x, st, 0);
      assert false;
    }
  }

  /** A fresh label leaves the classes of the handled cells alone and gives
      (y, x) a class above all of them. */
  lemma FreshClasses(cells: Cells, h: nat, w: nat, y: nat, x: nat, st: FirstPass)
    requires Wf(cells, h, w, y, x, st) && EqTable(st.eq) && y < h && x < w && cells[y][x].Some?
    requires |GetNeighborLabels(st.labels, x, y)| == 0
    ensures var st' := LabelStep(cells, h, w, y, x, st);
      && st'.eq == st.eq + [|st.eq| + 1]
      && Lab(st'.labels, Spot(y, x)) == |st.eq| + 1 && Class(st', Spot(y, x)) == |st.eq| + 1
      && (forall p :: Processed(cells, y, x, p) ==> Lab(st'.labels, p) == Lab(st.labels, p) && Class(st', p) == Class(st, p) <= |st.eq|)
  {
    var st' := LabelStep(cells, h, w, y, x, st);
    forall p | Processed(cells, y, x, p) ensures Lab(st'.labels, p) == Lab(st.labels, p) && Class(st', p) == Class(st, p) <= |st.eq| {
      ClassBound(cells, h, w, y, x, st, p);
    }
  }

  lemma FreshKeeps(cells: Cells, h: nat, w: nat, y: nat, x: nat, st: FirstPass)
    requires Wf(cells, h, w, y, x, st) && EqTable(st.eq) && y < h && x < w && cells[y][x].Some?
    requires |GetNeighborLabels(st.labels, x, y)| == 0
    requires Invariant(cells, y, x, st)
    ensures Invariant(cells, y, x + 1, LabelStep(cells, h, w, y, x, st))
  {
    var st' := LabelStep(cells, h, w, y, x, st);
    var c := Spot(y, x);
    var x1 := x + 1;
    FreshClasses(cells, h, w, y, x, st);
    forall p | Processed(cells, y, x1, p) ensures Processed(cells, y, x, p) || p == c {
      ProcessedStep(cells, y, x, p);
    }
    forall p, q | Processed(cells, y, x1, p) && Processed(cells, y, x1, q) && Adjacent(p, q)
      ensures Class(st', p) == Class(st', q)
    {
      if p == c && q != c {
        NeighborListed(cells, h, w, y, x, st, q);
      } else if q == c && p != c {
        NeighborListed(cells, h, w, y, x, st, p);
      }
    }
    forall p, q | Processed(cells, y, x1, p) && Processed(cells, y, x1, q) && Class(st', p) == Class(st', q)
      ensures Connected(cells, p, q)
    {
      if p == c && q == c {
        ConnectedReflexive(cells, c);
      }
    }
    forall k | 0 <= k < |st'.eq| ensures HasOrigin(cells, y, x1, st', k) {
      if k < |st.eq| {
        assert HasOrigin(cells, y, x, st, k);
        var p :| Processed(cells, y, x, p) && Lab(st.labels, p) == k + 1;
        assert Processed(cells, y, x1, p);
      } else {
        assert Processed(cells, y, x1, c) && Lab(st'.labels, c) == k + 1;
      }
    }
    forall p | Processed(cells, y, x1, p) && FirstTile(cells, p) ensures Lab(st'.labels, p) == 1 {
      if p == c {
        NothingBeforeFirst(cells, y, x, st);
      }
    }
  }

  // The joining steps

  /** A joining step keeps every label already given and the length of the list. */
  lemma JoinLabels(cells: Cells, h: nat, w: nat, y: nat, x: nat, st: FirstPass)
    requires Wf(cells, h, w, y, x, st) && EqTable(st.eq) && y < h && x < w && cells[y][x].Some?
    requires |GetNeighborLabels(st.labels, x, y)| > 0
    ensures var st' := LabelStep(cells, h, w, y, x, st);
      && |st'.eq| == |st.eq|
      && Lab(st'.labels, Spot(y, x)) == SeqMin(GetNeighborLabels(st.labels, x, y))
      && (forall p :: Processed(cells, y, x, p) ==> Lab(st'.labels, p) == Lab(st.labels, p))
  {
  }

  /** With one neighbour label, the classes stay as they were and (y, x) joins
      the neighbour's class. */
  lemma JoinOneClasses(cells: Cells, h: nat, w: nat, y: nat, x: nat, st: FirstPass)
    requires Wf(cells, h, w, y, x, st) && EqTable(st.eq) && y < h && x < w && cells[y][x].Some?
    requires |GetNeighborLabels(st.labels, x, y)| == 1
    ensures var st' := LabelStep(cells, h, w, y, x, st); var l := GetNeighborLabels(st.labels, x, y)[0];
      && 1 <= l <= |st.eq| && Class(st', Spot(y, x)) == st.eq[l - 1]
      && (forall p :: Processed(cells, y, x, p) ==> Class(st', p) == Class(st, p))
  {
    JoinLabels(cells, h, w, y, x, st);
    NeighborLabelsBounded(cells, h, w, y, x, st);
  }

  /** A joining step keeps every label's origin. */
  lemma JoinKeepsOrigins(cells: Cells, h: nat, w: nat, y: nat, x: nat, st: FirstPass)
    requires Wf(cells, h, w, y, x, st) && EqTable(st.eq) && y < h && x < w && cells[y][x].Some?
    requires |GetNeighborLabels(st.labels, x, y)| > 0
    requires Origins(cells, y, x, st)
    ensures Origins(cells, y, x + 1, LabelStep(cells, h, w, y, x, st))
  {
    var st' := LabelStep(cells, h, w, y, x, st);
    var x1 := x + 1;
    JoinLabels(cells, h, w, y, x, st);
    forall k | 0 <= k < |st'.eq| ensures HasOrigin(cells, y, x1, st', k) {
      assert HasOrigin(cells, y, x, st, k);
      var p :| Processed(cells, y, x, p) && Lab(st.labels, p) == k + 1;
      assert Processed(cells, y, x1, p);
    }
  }

  /** A cell with a labelled neighbour is not the first occupied cell, so a
      joining step keeps the first cell's label. */
  lemma JoinKeepsFirst(cells: Cells, h: nat, w: nat, y: nat, x: nat, st: FirstPass)
    requires Wf(cells, h, w, y, x, st) && EqTable(st.eq) && y < h && x < w && cells[y][x].Some?
    requires |GetNeighborLabels(st.labels, x, y)| > 0
    requires FirstIsOne(cells, y, x, st)
    ensures FirstIsOne(cells, y, x + 1, LabelStep(cells, h, w, y, x, st))
  {
    var st' := LabelStep(cells, h, w, y, x, st);
    var c := Spot(y, x);
    var x1 := x + 1;
    var nb := GetNeighborLabels(st.labels, x, y);
    JoinLabels(cells, h, w, y, x, st);
    var n := NeighborCell(cells, h, w, y, x, st, nb[0]);
    assert !FirstTile(cells, c) by {
      assert Occupied(cells, n) && Before(n.r, n.c, c.r, c.c);
    }
    forall p | Processed(cells, y, x1, p) && FirstTile(cells, p) ensures Lab(st'.labels, p) == 1 {
      ProcessedStep(cells, y, x, p);
    }
  }

  lemma JoinOneAgree(cells: Cells, h: nat, w: nat, y: nat, x: nat, st: FirstPass)
    requires Wf(cells, h, w, y, x, st) && EqTable(st.eq) && y < h && x < w && cells[y][x].Some?
    requires |GetNeighborLabels(st.labels, x, y)| == 1
    requires Agree(cells, y, x, st)
    ensures Agree(cells, y, x + 1, LabelStep(cells, h, w, y, x, st))
  {
    var st' := LabelStep(cells, h, w, y, x, st);
    JoinOneClasses(cells, h, w, y, x, st);
    forall q | Processed(cells, y, x, q) && Adjacent(q, Spot(y, x))
      ensures Class(st', q) == Class(st', Spot(y, x))
    {
      NeighborListed(cells, h, w, y, x, st, q);
    }
    AgreeAdds(cells, y, x, st, st');
  }

  /** Agreement extends to (y, x) when the handled cells keep their classes
      and (y, x) takes the class of each of its handled neighbours. */
  lemma AgreeAdds(cells: Cells, y: nat, x: nat, st: FirstPass, st': FirstPass)
    requires Agree(cells, y, x, st)
    requires forall p :: Processed(cells, y, x, p) ==> Class(st', p) == Class(st, p)
    requires forall q :: Processed(cells, y, x, q) && Adjacent(q, Spot(y, x)) ==> Class(st', q) == Class(st', Spot(y, x))
    ensures Agree(cells, y, x + 1, st')
  {
    forall p, q | Processed(cells, y, x + 1, p) && Processed(cells, y, x + 1, q) && Adjacent(p, q)
      ensures Class(st', p) == Class(st', q)
    {
      ProcessedStep(cells, y, x, p);
      ProcessedStep(cells, y, x, q);
    }
  }

  lemma JoinOneSound(cells: Cells, h: nat, w: nat, y: nat, x: nat, st: FirstPass)
    requires Wf(cells, h, w, y, x, st) && EqTable(st.eq) && y < h && x < w && cells[y][x].Some?
    requires |GetNeighborLabels(st.labels, x, y)| == 1
    requires Sound(cells, y, x, st)
    ensures Sound(cells, y, x + 1, LabelStep(cells, h, w, y, x, st))
  {
    var st' := LabelStep(cells, h, w, y, x, st);
    var c := Spot(y, x);
    var x1 := x + 1;
    var nb := GetNeighborLabels(st.labels, x, y);
    JoinOneClasses(cells, h, w, y, x, st);
    var n := NeighborCell(cells, h, w, y, x, st, nb[0]);
    forall p, q | Processed(cells, y, x1, p) && Processed(cells, y, x1, q) && Class(st', p) == Class(st', q)
      ensures Connected(cells, p, q)
    {
      ProcessedStep(cells, y, x, p);
      ProcessedStep(cells, y, x, q);
      if p == c && q == c {
        ConnectedReflexive(cells, c);
      } else if p == c {
        ConnectThrough(cells, q, n, c);
      } else if q == c {
        ConnectThrough(cells, p, n, c);
      }
    }
  }

  /** With two neighbour labels, the two classes they name merge into the
      least of them, every other class stays, and (y, x) joins the merged class. */
  lemma JoinTwoClasses(cells: Cells, h: nat, w: nat, y: nat, x: nat, st: FirstPass)
    requires Wf(cells, h, w, y, x, st) && EqTable(st.eq) && y < h && x < w && cells[y][x].Some?
    requires |GetNeighborLabels(st.labels, x, y)| == 2
    ensures var st' := LabelStep(cells, h, w, y, x, st); var nb := GetNeighborLabels(st.labels, x, y);
      && 1 <= nb[0] <= |st.eq| && 1 <= nb[1] <= |st.eq|
      && var toMerge := MergeList(st.eq, nb);
      && Class(st', Spot(y, x)) == SeqMin(toMerge)
      && (forall p :: Processed(cells, y, x, p) ==> Class(st', p) == if Class(st, p) in toMerge then SeqMin(toMerge) else Class(st, p))
  {
    var st' := LabelStep(cells, h, w, y, x, st);
    var nb := GetNeighborLabels(st.labels, x, y);
    JoinLabels(cells, h, w, y, x, st);
    JoinTwoTable(cells, h, w, y, x, st);
    var toMerge := MergeList(st.eq, nb);
    var least := SeqMin(nb);
    assert least == nb[0] || least == nb[1];
    forall p | Processed(cells, y, x, p)
      ensures Class(st', p) == if Class(st, p) in toMerge then SeqMin(toMerge) else Class(st, p)
    {
      MergedClass(st, st', toMerge, p);
    }
  }

  /** With two neighbour labels the list becomes the update that merges their classes. */
  lemma JoinTwoTable(cells: Cells, h: nat, w: nat, y: nat, x: nat, st: FirstPass)
    requires Wf(cells, h, w, y, x, st) && EqTable(st.eq) && y < h && x < w && cells[y][x].Some?
    requires |GetNeighborLabels(st.labels, x, y)| == 2
    ensures var nb := GetNeighborLabels(st.labels, x, y);
      && 1 <= nb[0] <= |st.eq| && 1 <= nb[1] <= |st.eq|
      && LabelStep(cells, h, w, y, x, st).eq == UpdateMinEquivalentLabels(st.eq, MergeList(st.eq, nb))
  {
    NeighborLabelsBounded(cells, h, w, y, x, st);
  }

  /** A cell whose label is kept through an update of the list lands in the
      merged class exactly when its class was one of those merged. */
  lemma MergedClass(st: FirstPass, st': FirstPass, toMerge: seq<nat>, p: Spot)
    requires |toMerge| > 0 && st'.eq == UpdateMinEquivalentLabels(st.eq, toMerge)
    requires Lab(st'.labels, p) == Lab(st.labels, p) && 1 <= Lab(st.labels, p) <= |st.eq|
    ensures Class(st', p) == if Class(st, p) in toMerge then SeqMin(toMerge) else Class(st, p)
  {
    var i := Lab(st.labels, p) - 1;
    assert st'.eq[i] == if st.eq[i] in toMerge then SeqMin(toMerge) else st.eq[i];
  }

  /** A class named in `labels_to_merge` is the class of a handled neighbour of (y, x). */
  lemma MergedClassReaches(cells: Cells, h: nat, w: nat, y: nat, x: nat, st: FirstPass, v: nat) returns (n: Spot)
    requires Wf(cells, h, w, y, x, st) && y < h && x < w
    requires |GetNeighborLabels(st.labels, x, y)| == 2
    requires var nb := GetNeighborLabels(st.labels, x, y);
      1 <= nb[0] <= |st.eq| && 1 <= nb[1] <= |st.eq| && v in MergeList(st.eq, nb)
    ensures Processed(cells, y, x, n) && Adjacent(n, Spot(y, x)) && Class(st, n) == v
  {
    var nb := GetNeighborLabels(st.labels, x, y);
    if v == st.eq[nb[0] - 1] {
      n := NeighborCell(cells, h, w, y, x, st, nb[0]);
    } else {
      n := NeighborCell(cells, h, w, y, x, st, nb[1]);
    }
  }

  /** The class of a handled neighbour of (y, x) is among `labels_to_merge`. */
  lemma NeighborClassMerged(cells: Cells, h: nat, w: nat, y: nat, x: nat, st: FirstPass, q: Spot)
    requires Wf(cells, h, w, y, x, st) && y < h && x < w
    requires |GetNeighborLabels(st.labels, x, y)| == 2
    requires var nb := GetNeighborLabels(st.labels, x, y); 1 <= nb[0] <= |st.eq| && 1 <= nb[1] <= |st.eq|
    requires Processed(cells, y, x, q) && Adjacent(q, Spot(y, x))
    ensures Class(st, q) in MergeList(st.eq, GetNeighborLabels(st.labels, x, y))
  {
    NeighborListed(cells, h, w, y, x, st, q);
  }

  lemma JoinTwoAgree(cells: Cells, h: nat, w: nat, y: nat, x: nat, st: FirstPass)
    requires Wf(cells, h, w, y, x, st) && EqTable(st.eq) && y < h && x < w && cells[y][x].Some?
    requires |GetNeighborLabels(st.labels, x, y)| == 2
    requires Agree(cells, y, x, st)
    ensures Agree(cells, y, x + 1, LabelStep(cells, h, w, y, x, st))
  {
    var st' := LabelStep(cells, h, w, y, x, st);
    var c := Spot(y, x);
    var x1 := x + 1;
    JoinTwoClasses(cells, h, w, y, x, st);
    forall p, q | Processed(cells, y, x1, p) && Processed(cells, y, x1, q) && Adjacent(p, q)
      ensures Class(st', p) == Class(st', q)
    {
      ProcessedStep(cells, y, x, p);
      ProcessedStep(cells, y, x, q);
      if p == c && q != c {
        NeighborClassMerged(cells, h, w, y, x, st, q);
      } else if q == c && p != c {
        NeighborClassMerged(cells, h, w, y, x, st, p);
      }
    }
  }

  /** Soundness of a merging step for one pair of cells. */
  lemma JoinTwoSound(cells: Cells, h: nat, w: nat, y: nat, x: nat, st: FirstPass, p: Spot, q: Spot)
    requires Wf(cells, h, w, y, x, st) && EqTable(st.eq) && y < h && x < w && cells[y][x].Some?
    requires |GetNeighborLabels(st.labels, x, y)| == 2
    requires Sound(cells, y, x, st)
    requires var st' := LabelStep(cells, h, w, y, x, st);
      Processed(cells, y, x + 1, p) && Processed(cells, y, x + 1, q) && Class(st', p) == Class(st', q)
    ensures Connected(cells, p, q)
  {
    var st' := LabelStep(cells, h, w, y, x, st);
    var c := Spot(y, x);
    var nb := GetNeighborLabels(st.labels, x, y);
    JoinTwoClasses(cells, h, w, y, x, st);
    var toMerge := MergeList(st.eq, nb);
    ProcessedStep(cells, y, x, p);
    ProcessedStep(cells, y, x, q);
    if p == c && q == c {
      ConnectedReflexive(cells, c);
    } else if p == c {
      var b := MergedClassReaches(cells, h, w, y, x, st, Class(st, q));
      ConnectThrough(cells, q, b, c);
    } else if q == c {
      var a := MergedClassReaches(cells, h, w, y, x, st, Class(st, p));
      ConnectThrough(cells, p, a, c);
    } else if Class(st, p) != Class(st, q) {
      var a := MergedClassReaches(cells, h, w, y, x, st, Class(st, p));
      var b := MergedClassReaches(cells, h, w, y, x, st, Class(st, q));
      ConnectThrough(cells, p, a, c);
      ConnectThrough(cells, q, b, c);
      ConnectedTransitive(cells, p, c, q);
    }
  }

  /** Skipping an empty cell keeps the four invariants. */
  lemma SkipKeeps(cells: Cells, h: nat, w: nat, y: nat, x: nat, st: FirstPass)
    requires Wf(cells, h, w, y, x, st) && y < h && x < w && cells[y][x].None?
    requires Invariant(cells, y, x, st)
    ensures Invariant(cells, y, x + 1, st)
  {
    var x1 := x + 1;
    forall p ensures Processed(cells, y, x1, p) <==> Processed(cells, y, x, p) {
      ProcessedStep(cells, y, x, p);
    }
    forall k | 0 <= k < |st.eq| ensures HasOrigin(cells, y, x1, st, k) {
      assert HasOrigin(cells, y, x, st, k);
    }
  }

  /** One step of the first pass keeps the four invariants. */
  lemma StepKeeps(cells: Cells, h: nat, w: nat, y: nat, x: nat, st: FirstPass)
    requires Wf(cells, h, w, y, x, st) && EqTable(st.eq) && y < h && x < w
    requires Invariant(cells, y, x, st)
    ensures Invariant(cells, y, x + 1, LabelStep(cells, h, w, y, x, st))
  {
    var st' := LabelStep(cells, h, w, y, x, st);
    var x1 := x + 1;
    if cells[y][x].None? {
      SkipKeeps(cells, h, w, y, x, st);
    } else {
      var nb := GetNeighborLabels(st.labels, x, y);
      if |nb| == 0 {
        FreshKeeps(cells, h, w, y, x, st);
      } else {
        JoinKeepsOrigins(cells, h, w, y, x, st);
        JoinKeepsFirst(cells, h, w, y, x, st);
        if |nb| == 1 {
          JoinOneAgree(cells, h, w, y, x, st);
          JoinOneSound(cells, h, w, y, x, st);
        } else {
          JoinTwoAgree(cells, h, w, y, x, st);
          forall p, q | Processed(cells, y, x1, p) && Processed(cells, y, x1, q) && Class(st', p) == Class(st', q)
            ensures Connected(cells, p, q)
          {
            JoinTwoSound(cells, h, w, y, x, st, p, q);
          }
        }
      }
    }
  }

  /** The invariants carry over from the end of a row to the start of the next. */
  lemma InvariantWraps(cells: Cells, h: nat, w: nat, row: nat, st: FirstPass)
    requires Shaped(cells, h, w) && Invariant(cells, row, w, st)
    ensures Invariant(cells, row + 1, 0, st)
  {
    var row1 := row + 1;
    forall p ensures Processed(cells, row, w, p) <==> Processed(cells, row1, 0, p) {
    }
    forall k | 0 <= k < |st.eq| ensures HasOrigin(cells, row1, 0, st, k) {
      assert HasOrigin(cells, row, w, st, k);
    }
  }

  /** Before the scan nothing is handled, so the invariants hold trivially. */
  lemma InitialInvariant(cells: Cells, h: nat, w: nat)
    requires Shaped(cells, h, w)
    ensures Invariant(cells, 0, 0, ScanLabels(cells, h, w, 0, 0))
  {
    forall p ensures !Processed(cells, 0, 0, p) {
    }
  }

  /** One more cell of the scan keeps the invariants. */
  lemma ScanStepKeeps(cells: Cells, h: nat, w: nat, row: nat, col: nat)
    requires Shaped(cells, h, w) && row < h && col < w
    requires Invariant(cells, row, col, ScanLabels(cells, h, w, row, col))
    ensures Invariant(cells, row, col + 1, ScanLabels(cells, h, w, row, col + 1))
  {
    var st := ScanLabels(cells, h, w, row, col);
    assert ScanLabels(cells, h, w, row, col + 1) == LabelStep(cells, h, w, row, col, st);
    StepKeeps(cells, h, w, row, col, st);
  }

  /** Moving to the next row keeps the invariants. */
  lemma ScanWrapKeeps(cells: Cells, h: nat, w: nat, row: nat)
    requires Shaped(cells, h, w) && 0 < row <= h
    requires Invariant(cells, row - 1, w, ScanLabels(cells, h, w, row - 1, w))
    ensures Invariant(cells, row, 0, ScanLabels(cells, h, w, row, 0))
  {
    var st := ScanLabels(cells, h, w, row - 1, w);
    assert ScanLabels(cells, h, w, row, 0) == st;
    InvariantWraps(cells, h, w, row - 1, st);
  }

  /** The first pass keeps its invariants all along the scan. */
  lemma {:induction false} ScanKeeps(cells: Cells, h: nat, w: nat, row: nat, col: nat)
    requires Shaped(cells, h, w) && row <= h && col <= w && (row == h ==> col == 0)
    ensures Invariant(cells, row, col, ScanLabels(cells, h, w, row, col))
    decreases row, col
  {
    if col == 0 {
      if row == 0 {
        InitialInvariant(cells, h, w);
      } else {
        ScanKeeps(cells, h, w, row - 1, w);
        ScanWrapKeeps(cells, h, w, row);
      }
    } else {
      var prev := col - 1;
      ScanKeeps(cells, h, w, row, prev);
      ScanStepKeeps(cells, h, w, row, prev);
      assert prev + 1 == col;
    }
  }

  /** At the end of the scan every occupied cell has been handled. */
  lemma AllProcessed(cells: Cells, h: nat, w: nat, p: Spot)
    requires Shaped(cells, h, w)
    ensures Processed(cells, h, 0, p) <==> Occupied(cells, p)
  {
  }

  // ---------------------------------------------------------------------------
  // Second pass

  /** The second loop of `connected_component_labeling`: every occupied cell's
      provisional label l becomes entry l - 1 of the rearranged list; the
      background keeps its 0. */
  function Relabel(cells: Cells, h: nat, w: nat, labels: Labels, table: seq<nat>): (r: Labels)
    requires Shaped(cells, h, w) && LabelShaped(labels, h, w)
    requires forall p :: Occupied(cells, p) ==> 1 <= Lab(labels, p) <= |table|
    ensures LabelShaped(r, h, w)
    ensures forall p :: Lab(r, p) == if Occupied(cells, p) then table[Lab(labels, p) - 1] else Lab(labels, p)
  {
    seq(h, i requires 0 <= i < h => seq(w, j requires 0 <= j < w =>
      if cells[i][j].None? then labels[i][j]
      else
        assert Occupied(cells, Spot(i, j)) && Lab(labels, Spot(i, j)) == labels[i][j];
        table[labels[i][j] - 1]))
  }

  /** `connected_component_labeling`: the label matrix and the number of
      distinct labels. With no occupied cell the list of minimum equivalent
      labels stays empty and `max` of it raises. */
  function ConnectedComponentLabeling(cells: Cells, h: nat, w: nat): (r: Result<(Labels, nat)>)
    requires Shaped(cells, h, w)
    ensures r.Fault? ==> r.crash == EmptyLabelList
    ensures r.Ok? ==> LabelShaped(r.value.0, h, w)
  {
    var st := ScanLabels(cells, h, w, h, 0);
    var rearranged := RearrangeMinEquivalentLabels(st.eq);
    if rearranged.Fault? then Fault(rearranged.crash)
    else Ok((Relabel(cells, h, w, st.labels, rearranged.value), Distinct(rearranged.value)))
  }

  // ---------------------------------------------------------------------------
  // What the labelling computes

  /** The labelling fails exactly when no cell is occupied. */
  lemma LabellingFaultsIffEmpty(cells: Cells, h: nat, w: nat)
    requires Shaped(cells, h, w)
    ensures ConnectedComponentLabeling(cells, h, w).Fault? <==> forall p :: !Occupied(cells, p)
  {
    var st := ScanLabels(cells, h, w, h, 0);
    ScanKeeps(cells, h, w, h, 0);
    if |st.eq| > 0 {
      assert HasOrigin(cells, h, 0, st, 0);
    } else {
      forall p ensures !Occupied(cells, p) {
        AllProcessed(cells, h, w, p);
      }
    }
  }

  /** For an occupied cell the final label is the rearranged entry of its provisional label. */
  lemma FinalLabel(cells: Cells, h: nat, w: nat, p: Spot)
    requires Shaped(cells, h, w) && ConnectedComponentLabeling(cells, h, w).Ok? && Occupied(cells, p)
    ensures var st := ScanLabels(cells, h, w, h, 0);
      && 1 <= Lab(st.labels, p) <= |st.eq|
      && Lab(ConnectedComponentLabeling(cells, h, w).value.0, p) == RearrangeMinEquivalentLabels(st.eq).value[Lab(st.labels, p) - 1]
  {
    AllProcessed(cells, h, w, p);
  }

  /** A cell is labelled 0 exactly when it is empty, and an occupied cell's
      label lies in 1..k, where k is the returned number of labels. */
  lemma LabelZeroIffEmpty(cells: Cells, h: nat, w: nat, p: Spot)
    requires Shaped(cells, h, w) && ConnectedComponentLabeling(cells, h, w).Ok?
    requires p.r < h && p.c < w
    ensures var (labels, k) := ConnectedComponentLabeling(cells, h, w).value;
      && (Lab(labels, p) == 0 <==> !Occupied(cells, p))
      && (Occupied(cells, p) ==> 1 <= Lab(labels, p) <= k)
  {
    var st := ScanLabels(cells, h, w, h, 0);
    AllProcessed(cells, h, w, p);
    if Occupied(cells, p) {
      FinalLabel(cells, h, w, p);
      RearrangedInRange(st.eq, Lab(st.labels, p) - 1);
    }
  }

  /** Handled cells that are connected share a class: the class agrees across
      every side shared by two occupied cells, hence along every chain. */
  lemma ConnectedSameClass(cells: Cells, h: nat, w: nat, p: Spot, q: Spot)
    requires Shaped(cells, h, w) && Connected(cells, p, q)
    ensures Class(ScanLabels(cells, h, w, h, 0), p) == Class(ScanLabels(cells, h, w, h, 0), q)
  {
    var st := ScanLabels(cells, h, w, h, 0);
    ScanKeeps(cells, h, w, h, 0);
    var value := (s: Spot) => Class(st, s) as int;
    forall a, b | Occupied(cells, a) && Occupied(cells, b) && Adjacent(a, b) ensures value(a) == value(b) {
      AllProcessed(cells, h, w, a);
      AllProcessed(cells, h, w, b);
    }
    var path :| IsPath(cells, path, p, q);
    PathKeepsValue(cells, path, p, q, value);
  }

  /** Two occupied cells share a class exactly when they are connected. */
  lemma ClassIffConnected(cells: Cells, h: nat, w: nat, p: Spot, q: Spot)
    requires Shaped(cells, h, w) && Occupied(cells, p) && Occupied(cells, q)
    ensures var st := ScanLabels(cells, h, w, h, 0);
      Class(st, p) == Class(st, q) <==> Connected(cells, p, q)
  {
    ScanKeeps(cells, h, w, h, 0);
    AllProcessed(cells, h, w, p);
    AllProcessed(cells, h, w, q);
    if Connected(cells, p, q) {
      ConnectedSameClass(cells, h, w, p, q);
    }
  }

  /** An occupied cell's final label is the rank of its class among all classes. */
  lemma FinalIsRank(cells: Cells, h: nat, w: nat, p: Spot)
    requires Shaped(cells, h, w) && ConnectedComponentLabeling(cells, h, w).Ok? && Occupied(cells, p)
    ensures var st := ScanLabels(cells, h, w, h, 0);
      && Class(st, p) in ValueSet(st.eq)
      && Lab(ConnectedComponentLabeling(cells, h, w).value.0, p) == Rank(ValueSet(st.eq), Class(st, p))
  {
    var st := ScanLabels(cells, h, w, h, 0);
    FinalLabel(cells, h, w, p);
    ClassRank(st, p, Lab(ConnectedComponentLabeling(cells, h, w).value.0, p));
  }

  /** The rearranged entry of a cell's provisional label is the rank of its
      class. */
  lemma ClassRank(st: FirstPass, p: Spot, final: nat)
    requires 1 <= Lab(st.labels, p) <= |st.eq|
    requires final == RearrangeMinEquivalentLabels(st.eq).value[Lab(st.labels, p) - 1]
    ensures Class(st, p) in ValueSet(st.eq) && final == Rank(ValueSet(st.eq), Class(st, p))
  {
    RearrangedEntry(st.eq, Lab(st.labels, p) - 1);
  }

  /** Two occupied cells get the same final label exactly when they share a class. */
  lemma FinalIffClass(cells: Cells, h: nat, w: nat, p: Spot, q: Spot)
    requires Shaped(cells, h, w) && ConnectedComponentLabeling(cells, h, w).Ok?
    requires Occupied(cells, p) && Occupied(cells, q)
    ensures var labels := ConnectedComponentLabeling(cells, h, w).value.0; var st := ScanLabels(cells, h, w, h, 0);
      Lab(labels, p) == Lab(labels, q) <==> Class(st, p) == Class(st, q)
  {
    var st := ScanLabels(cells, h, w, h, 0);
    FinalIsRank(cells, h, w, p);
    FinalIsRank(cells, h, w, q);
    RankInjective(ValueSet(st.eq), Class(st, p), Class(st, q));
  }

  /** Two occupied cells get the same label exactly when they are connected:
      the labels are the 4-connected components. */
  lemma LabelsAreComponents(cells: Cells, h: nat, w: nat, p: Spot, q: Spot)
    requires Shaped(cells, h, w) && ConnectedComponentLabeling(cells, h, w).Ok?
    requires Occupied(cells, p) && Occupied(cells, q)
    ensures var labels := ConnectedComponentLabeling(cells, h, w).value.0;
      Lab(labels, p) == Lab(labels, q) <==> Connected(cells, p, q)
  {
    FinalIffClass(cells, h, w, p, q);
    ClassIffConnected(cells, h, w, p, q);
  }

  /** Some occupied cell carries label k. */
  ghost predicate LabelUsed(cells: Cells, labels: Labels, k: nat)
  {
    exists p :: Occupied(cells, p) && Lab(labels, p) == k
  }

  /** Every label 1..k, for the returned k, is carried by some occupied cell. */
  lemma LabelsOnto(cells: Cells, h: nat, w: nat, k: nat)
    requires Shaped(cells, h, w) && ConnectedComponentLabeling(cells, h, w).Ok?
    requires 1 <= k <= ConnectedComponentLabeling(cells, h, w).value.1
    ensures LabelUsed(cells, ConnectedComponentLabeling(cells, h, w).value.0, k)
  {
    var st := ScanLabels(cells, h, w, h, 0);
    ScanKeeps(cells, h, w, h, 0);
    var table := RearrangeMinEquivalentLabels(st.eq).value;
    RearrangeKeepsDistinct(st.eq);
    RearrangeOnto(st.eq, k);
    var i :| 0 <= i < |table| && table[i] == k;
    assert HasOrigin(cells, h, 0, st, i);
    var p :| Processed(cells, h, 0, p) && Lab(st.labels, p) == i + 1;
    FinalLabel(cells, h, w, p);
  }

  /** The occupied cell the scan meets first (lowest row, then leftmost) is
      labelled 1. */
  lemma FirstTileLabelOne(cells: Cells, h: nat, w: nat, p: Spot)
    requires Shaped(cells, h, w) && ConnectedComponentLabeling(cells, h, w).Ok?
    requires FirstTile(cells, p)
    ensures Lab(ConnectedComponentLabeling(cells, h, w).value.0, p) == 1
  {
    var st := ScanLabels(cells, h, w, h, 0);
    ScanKeeps(cells, h, w, h, 0);
    AllProcessed(cells, h, w, p);
    FinalLabel(cells, h, w, p);
    RearrangedEntries(st.eq);
    assert st.eq[0] == 1;
    assert 0 !in ValueSet(st.eq);
  }
}
