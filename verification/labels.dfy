/** The helpers of the two-pass connected-component labelling of
    Tetris_2048.py: `get_neighbor_labels` (540-557),
    `update_min_equivalent_labels` (561-569) and
    `rearrange_min_equivalent_labels` (573-589). The list of minimum
    equivalent labels holds, at index l - 1, the smallest label known to be
    equivalent to provisional label l. */
module LabelTables {
  import opened Common

  /** A label matrix, indexed [row][column]; 0 is the background. */
  type Labels = seq<seq<nat>>

  predicate LabelShaped(labels: Labels, h: nat, w: nat)
  {
    |labels| == h && forall r :: 0 <= r < h ==> |labels[r]| == w
  }

  /** Python's `min` of a non-empty collection. */
  function SeqMin(s: seq<nat>): (m: nat)
    requires |s| > 0
    ensures m in s && forall i :: 0 <= i < |s| ==> m <= s[i]
  {
    if |s| == 1 then s[0]
    else
      var m := SeqMin(s[1..]);
      assert forall i :: 1 <= i < |s| ==> s[i] == s[1..][i - 1];
      if s[0] <= m then s[0] else m
  }

  /** `get_neighbor_labels`: the set of non-zero labels of the cell above in the
      scan (row y - 1) and of the cell to the left (column x - 1), as a list
      without duplicates. */
  function GetNeighborLabels(labels: Labels, x: nat, y: nat): (s: seq<nat>)
    requires y < |labels| && x < |labels[y]| && (y > 0 ==> x < |labels[y - 1]|)
    ensures forall l :: l in s <==> l != 0 && ((y != 0 && labels[y - 1][x] == l) || (x != 0 && labels[y][x - 1] == l))
    ensures |s| <= 2 && (|s| == 2 ==> s[0] != s[1])
  {
    var up := if y != 0 && labels[y - 1][x] != 0 then [labels[y - 1][x]] else [];
    var left := if x != 0 && labels[y][x - 1] != 0 && labels[y][x - 1] !in up then [labels[y][x - 1]] else [];
    up + left
  }

  /** The loop of `update_min_equivalent_labels` from `index` on: every entry
      whose value is in `toMerge` becomes `least`. */
  function UpdateFrom(eq: seq<nat>, toMerge: seq<nat>, least: nat, index: nat): (r: seq<nat>)
    requires index <= |eq|
    ensures |r| == |eq|
    ensures forall i :: 0 <= i < index ==> r[i] == eq[i]
    ensures forall i :: index <= i < |eq| ==> r[i] == if eq[i] in toMerge then least else eq[i]
    decreases |eq| - index
  {
    if index == |eq| then eq
    else if eq[index] in toMerge then UpdateFrom(eq[index := least], toMerge, least, index + 1)
    else UpdateFrom(eq, toMerge, least, index + 1)
  }

  /** `update_min_equivalent_labels`: the entries whose value is among `toMerge`
      become the least of `toMerge`. `min` of an empty set raises; the caller
      always passes the classes of two different neighbour labels. */
  function UpdateMinEquivalentLabels(eq: seq<nat>, toMerge: seq<nat>): (r: seq<nat>)
    requires |toMerge| > 0
    ensures |r| == |eq|
    ensures forall i :: 0 <= i < |eq| ==> r[i] == if eq[i] in toMerge then SeqMin(toMerge) else eq[i]
  {
    UpdateFrom(eq, toMerge, SeqMin(toMerge), 0)
  }

  /** The update joins the classes named in `toMerge` into one and keeps every
      other class apart: two entries end equal exactly when they were equal or
      both named a class in `toMerge`. */
  lemma UpdateJoinsClasses(eq: seq<nat>, toMerge: seq<nat>, i: nat, j: nat)
    requires |toMerge| > 0 && i < |eq| && j < |eq|
    ensures UpdateMinEquivalentLabels(eq, toMerge)[i] == UpdateMinEquivalentLabels(eq, toMerge)[j] <==>
      eq[i] == eq[j] || (eq[i] in toMerge && eq[j] in toMerge)
  {
  }

  // ---------------------------------------------------------------------------
  // rearrange_min_equivalent_labels

  /** How many of `values` lie below n. */
  function CountBelow(values: set<nat>, n: nat): nat
    decreases n
  {
    if n == 0 then 0 else CountBelow(values, n - 1) + (if n - 1 in values then 1 else 0)
  }

  /** The `new_labels` table for indices 0..n-1: the loop over the sorted
      distinct values gives the k-th smallest of them the label k (counting
      from 1) and leaves every other index at 0. */
  function RankTable(values: set<nat>, n: nat): (t: seq<nat>)
    ensures |t| == n
    ensures forall v :: 0 <= v < n ==> t[v] == if v in values then CountBelow(values, v) + 1 else 0
    decreases n
  {
    if n == 0 then []
    else RankTable(values, n - 1) + [if n - 1 in values then CountBelow(values, n - 1) + 1 else 0]
  }

  lemma {:induction false} CountBelowMonotone(values: set<nat>, v: nat, u: nat)
    requires v <= u
    ensures CountBelow(values, v) <= CountBelow(values, u)
    ensures v < u && v in values ==> CountBelow(values, v) < CountBelow(values, u)
    decreases u - v
  {
    if v < u {
      CountBelowMonotone(values, v, u - 1);
    }
  }

  /** Some value below n has rank k. */
  predicate RankTaken(values: set<nat>, n: nat, k: nat)
  {
    exists v :: 0 <= v < n && v in values && CountBelow(values, v) + 1 == k
  }

  lemma {:induction false} RanksOnto(values: set<nat>, n: nat, k: nat)
    requires 1 <= k <= CountBelow(values, n)
    ensures RankTaken(values, n, k)
    decreases n
  {
    if k <= CountBelow(values, n - 1) {
      RanksOnto(values, n - 1, k);
      var v :| 0 <= v < n - 1 && v in values && CountBelow(values, v) + 1 == k;
      assert 0 <= v < n;
    } else {
      assert n - 1 in values && CountBelow(values, n - 1) + 1 == k;
    }
  }

  lemma {:induction false} CountBelowCardinality(values: set<nat>, n: nat)
    ensures CountBelow(values, n) == |set v | v in values && v < n|
    decreases n
  {
    if n == 0 {
      assert (set v | v in values && v < 0) == {};
    } else {
      CountBelowCardinality(values, n - 1);
      var below := set v | v in values && v < n;
      var belowPrev := set v | v in values && v < n - 1;
      if n - 1 in values {
        assert below == belowPrev + {n - 1};
      } else {
        assert below == belowPrev;
      }
    }
  }

  function SeqMax(s: seq<nat>): (m: nat)
    requires |s| > 0
    ensures forall i :: 0 <= i < |s| ==> s[i] <= m
    ensures exists i :: 0 <= i < |s| && s[i] == m
  {
    if |s| == 1 then s[0]
    else
      var m := SeqMax(s[1..]);
      assert forall i :: 1 <= i < |s| ==> s[i] == s[1..][i - 1];
      if s[0] >= m then s[0] else
        var i :| 0 <= i < |s[1..]| && s[1..][i] == m;
        assert s[i + 1] == m;
        m
  }

  /** `rearrange_min_equivalent_labels`: replaces every value by its rank among
      the distinct values, so the values become 1..k. An empty list raises in
      `max`. */
  function RearrangeMinEquivalentLabels(eq: seq<nat>): (r: Result<seq<nat>>)
    ensures r.Fault? <==> |eq| == 0
    ensures r.Ok? ==> |r.value| == |eq|
  {
    if |eq| == 0 then Fault(EmptyLabelList)
    else
      var table := RankTable(ValueSet(eq), SeqMax(eq) + 1);
      Ok(seq(|eq|, i requires 0 <= i < |eq| => table[eq[i]]))
  }

  /** The number of distinct values of a list. */
  function ValueSet(s: seq<nat>): set<nat>
  {
    set v | v in s
  }

  function Distinct(s: seq<nat>): nat
  {
    |ValueSet(s)|
  }

  /** The rank of v among `values`, counting from 1. */
  function Rank(values: set<nat>, v: nat): nat
  {
    CountBelow(values, v) + 1
  }

  /** Distinct values have distinct ranks. */
  lemma RankInjective(values: set<nat>, a: nat, b: nat)
    requires a in values && b in values
    ensures Rank(values, a) == Rank(values, b) <==> a == b
  {
    if a < b {
      CountBelowMonotone(values, a, b);
    } else if b < a {
      CountBelowMonotone(values, b, a);
    }
  }

  /** Distinct members of `values` have distinct ranks, so the ranks of the
      members of any part of `values` are as many as that part. */
  lemma {:induction false} RankImage(values: set<nat>, part: set<nat>)
    requires part <= values
    ensures |set v | v in part :: Rank(values, v)| == |part|
    decreases |part|
  {
    if part != {} {
      var x :| x in part;
      var rest := part - {x};
      RankImage(values, rest);
      var image := set v | v in part :: Rank(values, v);
      var restImage := set v | v in rest :: Rank(values, v);
      assert image == restImage + {Rank(values, x)};
      forall v | v in rest ensures Rank(values, v) != Rank(values, x) {
        RankInjective(values, v, x);
      }
    }
  }

  /** Some entry of `r` is k. */
  predicate Takes(r: seq<nat>, k: nat)
  {
    exists i :: 0 <= i < |r| && r[i] == k
  }

  /** Entry i of the rearranged list is the rank of `eq[i]` among the distinct values. */
  lemma RearrangedEntries(eq: seq<nat>)
    requires |eq| > 0
    ensures forall i :: 0 <= i < |eq| ==> RearrangeMinEquivalentLabels(eq).value[i] == CountBelow(ValueSet(eq), eq[i]) + 1
  {
    var values := ValueSet(eq);
    var table := RankTable(values, SeqMax(eq) + 1);
    forall i | 0 <= i < |eq| ensures RearrangeMinEquivalentLabels(eq).value[i] == CountBelow(values, eq[i]) + 1 {
      assert eq[i] in values;
      assert table[eq[i]] == CountBelow(values, eq[i]) + 1;
    }
  }

  /** Entry i of the rearranged list, one index at a time. */
  lemma RearrangedEntry(eq: seq<nat>, i: nat)
    requires i < |eq|
    ensures eq[i] in ValueSet(eq)
    ensures RearrangeMinEquivalentLabels(eq).value[i] == Rank(ValueSet(eq), eq[i])
  {
    RearrangedEntries(eq);
  }

  /** There are as many ranks as distinct values. */
  lemma RanksCount(eq: seq<nat>)
    requires |eq| > 0
    ensures CountBelow(ValueSet(eq), SeqMax(eq) + 1) == Distinct(eq)
  {
    var values := ValueSet(eq);
    var n := SeqMax(eq) + 1;
    forall v | v in values ensures v < n {
      var i :| 0 <= i < |eq| && eq[i] == v;
    }
    assert (set v | v in values && v < n) == values;
    CountBelowCardinality(values, n);
  }

  /** The rearrangement keeps the order of the values and the equalities between them. */
  lemma RearrangeKeepsOrder(eq: seq<nat>, i: nat, j: nat)
    requires |eq| > 0 && i < |eq| && j < |eq|
    ensures var r := RearrangeMinEquivalentLabels(eq).value;
      && (eq[i] < eq[j] <==> r[i] < r[j])
      && (eq[i] == eq[j] <==> r[i] == r[j])
      && 1 <= r[i] <= Distinct(eq)
  {
    var values := ValueSet(eq);
    RearrangedEntries(eq);
    RanksCount(eq);
    if eq[i] < eq[j] {
      CountBelowMonotone(values, eq[i], eq[j]);
    } else {
      CountBelowMonotone(values, eq[j], eq[i]);
    }
    CountBelowMonotone(values, eq[i], SeqMax(eq) + 1);
  }

  /** Every rank 1..k is the new value of some entry. */
  lemma RearrangeOnto(eq: seq<nat>, k: nat)
    requires |eq| > 0 && 1 <= k <= Distinct(eq)
    ensures Takes(RearrangeMinEquivalentLabels(eq).value, k)
  {
    var values := ValueSet(eq);
    var r := RearrangeMinEquivalentLabels(eq).value;
    RearrangedEntries(eq);
    RanksCount(eq);
    RanksOnto(values, SeqMax(eq) + 1, k);
    var v :| 0 <= v < SeqMax(eq) + 1 && v in values && CountBelow(values, v) + 1 == k;
    var i :| 0 <= i < |eq| && eq[i] == v;
    assert r[i] == k;
  }

  /** As many distinct values after the rearrangement as before. */
  lemma RearrangeKeepsDistinct(eq: seq<nat>)
    requires |eq| > 0
    ensures Distinct(RearrangeMinEquivalentLabels(eq).value) == Distinct(eq)
  {
    var values := ValueSet(eq);
    var r := RearrangeMinEquivalentLabels(eq).value;
    RearrangedEntries(eq);
    RankImage(values, values);
    var image := set v | v in values :: Rank(values, v);
    assert ValueSet(r) == image by {
      forall x | x in ValueSet(r) ensures x in image {
        var i :| 0 <= i < |r| && r[i] == x;
        assert eq[i] in values && x == Rank(values, eq[i]);
      }
      forall v | v in values ensures Rank(values, v) in ValueSet(r) {
        var i :| 0 <= i < |eq| && eq[i] == v;
        assert r[i] == Rank(values, v);
      }
    }
  }

  /** Every rearranged label lies in 1..k, k the number of distinct rearranged labels. */
  lemma RearrangedInRange(eq: seq<nat>, i: nat)
    requires |eq| > 0 && i < |eq|
    ensures 1 <= RearrangeMinEquivalentLabels(eq).value[i] <= Distinct(RearrangeMinEquivalentLabels(eq).value)
  {
    RearrangeKeepsOrder(eq, i, i);
    RearrangeKeepsDistinct(eq);
  }

}
