/** 4-connectivity of the occupied cells of a tile matrix: the notion the
    labelling of Tetris_2048.py:485-557 computes. Two occupied cells are
    connected when a chain of occupied cells, each sharing a side with the
    next, leads from one to the other. */
module Connectivity {
  import opened Common
  import opened Tiles

  /** A cell of the matrix, by row and column. */
  datatype Spot = Spot(r: nat, c: nat)

  predicate Occupied(cells: Cells, p: Spot)
  {
    p.r < |cells| && p.c < |cells[p.r]| && cells[p.r][p.c].Some?
  }

  /** The two cells share a side. */
  predicate Adjacent(p: Spot, q: Spot)
  {
    (p.r == q.r && (p.c + 1 == q.c || q.c + 1 == p.c)) || (p.c == q.c && (p.r + 1 == q.r || q.r + 1 == p.r))
  }

  /** A chain of occupied cells, each adjacent to the next, from `p` to `q`. */
  predicate IsPath(cells: Cells, path: seq<Spot>, p: Spot, q: Spot)
  {
    && |path| > 0 && path[0] == p && path[|path| - 1] == q
    && (forall i :: 0 <= i < |path| ==> Occupied(cells, path[i]))
    && (forall i :: 0 <= i < |path| - 1 ==> Adjacent(path[i], path[i + 1]))
  }

  ghost predicate Connected(cells: Cells, p: Spot, q: Spot)
  {
    exists path :: IsPath(cells, path, p, q)
  }

  lemma ConnectedOccupied(cells: Cells, p: Spot, q: Spot)
    requires Connected(cells, p, q)
    ensures Occupied(cells, p) && Occupied(cells, q)
  {
    var path :| IsPath(cells, path, p, q);
    assert path[0] == p && path[|path| - 1] == q;
  }

  lemma ConnectedReflexive(cells: Cells, p: Spot)
    requires Occupied(cells, p)
    ensures Connected(cells, p, p)
  {
    assert IsPath(cells, [p], p, p);
  }

  /** Adjacent occupied cells are connected. */
  lemma AdjacentConnected(cells: Cells, p: Spot, q: Spot)
    requires Occupied(cells, p) && Occupied(cells, q) && Adjacent(p, q)
    ensures Connected(cells, p, q)
  {
    assert IsPath(cells, [p, q], p, q);
  }

  function Reverse(s: seq<Spot>): (r: seq<Spot>)
    ensures |r| == |s| && forall i :: 0 <= i < |s| ==> r[i] == s[|s| - 1 - i]
  {
    if s == [] then [] else Reverse(s[1..]) + [s[0]]
  }

  lemma ConnectedSymmetric(cells: Cells, p: Spot, q: Spot)
    requires Connected(cells, p, q)
    ensures Connected(cells, q, p)
  {
    var path :| IsPath(cells, path, p, q);
    var back := Reverse(path);
    forall i | 0 <= i < |back| - 1 ensures Adjacent(back[i], back[i + 1]) {
      assert Adjacent(path[|path| - 2 - i], path[|path| - 1 - i]);
    }
    assert IsPath(cells, back, q, p);
  }

  lemma ConnectedTransitive(cells: Cells, p: Spot, q: Spot, s: Spot)
    requires Connected(cells, p, q) && Connected(cells, q, s)
    ensures Connected(cells, p, s)
  {
    var a :| IsPath(cells, a, p, q);
    var b :| IsPath(cells, b, q, s);
    var ab := a + b[1..];
    forall i | 0 <= i < |ab| ensures Occupied(cells, ab[i]) {
      if i >= |a| {
        assert ab[i] == b[i - |a| + 1];
      }
    }
    forall i | 0 <= i < |ab| - 1 ensures Adjacent(ab[i], ab[i + 1]) {
      if i < |a| - 1 {
        assert Adjacent(a[i], a[i + 1]);
      } else {
        assert ab[i] == b[i - |a| + 1] && ab[i + 1] == b[i - |a| + 2];
      }
    }
    assert IsPath(cells, ab, p, s);
  }

  /** A value that agrees on every pair of adjacent occupied cells agrees along
      every chain, hence on every connected pair. */
  lemma {:induction false} PathKeepsValue(cells: Cells, path: seq<Spot>, p: Spot, q: Spot, value: Spot -> int)
    requires IsPath(cells, path, p, q)
    requires forall a, b :: Occupied(cells, a) && Occupied(cells, b) && Adjacent(a, b) ==> value(a) == value(b)
    ensures value(p) == value(q)
    decreases |path|
  {
    if |path| > 1 {
      var rest := path[..|path| - 1];
      var q' := path[|path| - 2];
      assert IsPath(cells, rest, p, q');
      PathKeepsValue(cells, rest, p, q', value);
      assert Adjacent(q', q);
    }
  }
}
