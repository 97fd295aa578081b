/** Component selection in `largest_component` and `is_disconnected`, given
    the labelling that `connected_components` delegates to scipy: the label
    `Counter(labels).most_common(1)` picks, the increasing list of the
    vertices carrying it, and the induced, relabelled subgraph on them. */
module Components {
  import opened CsrMatrix

  /** The collaborator's contract: every vertex has a label below `count`
      and every label below `count` is used. */
  predicate Labelling(labels: seq<nat>, count: nat)
  {
    && (forall i :: 0 <= i < |labels| ==> labels[i] < count)
    && (forall c :: 0 <= c < count ==> c in labels)
  }

  /** `is_disconnected`: more than one component. */
  predicate IsDisconnected(count: nat)
  {
    count > 1
  }

  /** A labelling has more than one component exactly when two vertices
      carry different labels. */
  lemma DisconnectedIffLabelsDiffer(labels: seq<nat>, count: nat)
    requires Labelling(labels, count)
    ensures IsDisconnected(count) <==>
      exists i, j :: 0 <= i < |labels| && 0 <= j < |labels| && labels[i] != labels[j]
  {
    if count > 1 {
      assert 0 in labels && 1 in labels;
      var i :| 0 <= i < |labels| && labels[i] == 0;
      var j :| 0 <= j < |labels| && labels[j] == 1;
      assert labels[i] != labels[j];
    }
  }

  /** The number of occurrences of `x` in `labels` (the `Counter` entry). */
  function Count(labels: seq<nat>, x: nat): nat
  {
    if |labels| == 0 then 0
    else Count(labels[..|labels| - 1], x) + (if labels[|labels| - 1] == x then 1 else 0)
  }

  lemma {:induction false} CountAbsent(labels: seq<nat>, x: nat)
    requires x !in labels
    ensures Count(labels, x) == 0
  {
    if |labels| > 0 {
      CountAbsent(labels[..|labels| - 1], x);
    }
  }

  /** The scan `max` performs over the `Counter`'s items (in order of first
      appearance) with the count as key: a later label replaces the current
      best only when its count is strictly larger. */
  function MostCommonFrom(labels: seq<nat>, k: nat, best: nat): nat
    requires k <= |labels|
    decreases |labels| - k
  {
    if k == |labels| then best
    else MostCommonFrom(labels, k + 1,
           if Count(labels, labels[k]) > Count(labels, best) then labels[k] else best)
  }

  /** `Counter(labels).most_common(1)[0][0]`. */
  function MostCommon(labels: seq<nat>): nat
    requires |labels| > 0
  {
    MostCommonFrom(labels, 1, labels[0])
  }

  /** `key` occurs, no label among the first `k` positions occurs more often,
      and among those that occur as often `key` appears first. */
  predicate LeadsFirst(labels: seq<nat>, key: nat, k: nat)
    requires k <= |labels|
  {
    && key in labels
    && (forall p :: 0 <= p < k ==> Count(labels, labels[p]) <= Count(labels, key))
    && (forall p :: 0 <= p < k && Count(labels, labels[p]) == Count(labels, key) ==> IndexOf(labels, key) <= p)
  }

  lemma {:induction false} MostCommonFromSpec(labels: seq<nat>, k: nat, best: nat)
    requires 0 < k <= |labels|
    requires best in labels && IndexOf(labels, best) < k && LeadsFirst(labels, best, k)
    ensures LeadsFirst(labels, MostCommonFrom(labels, k, best), |labels|)
    decreases |labels| - k
  {
    if k < |labels| {
      var next := if Count(labels, labels[k]) > Count(labels, best) then labels[k] else best;
      assert IndexOf(labels, labels[k]) <= k;
      MostCommonFromSpec(labels, k + 1, next);
    }
  }

  /** A count that bounds the count of every label occurring in `labels`
      bounds the count of every value. */
  lemma CountBoundedByPositions(labels: seq<nat>, key: nat)
    requires forall p :: 0 <= p < |labels| ==> Count(labels, labels[p]) <= Count(labels, key)
    ensures forall x: nat :: Count(labels, x) <= Count(labels, key)
  {
    forall x: nat ensures Count(labels, x) <= Count(labels, key) {
      if x !in labels {
        CountAbsent(labels, x);
      } else {
        var p :| 0 <= p < |labels| && labels[p] == x;
      }
    }
  }

  /** The chosen label is a most frequent one, and among equally frequent
      labels it is the one whose first occurrence comes first. */
  lemma MostCommonSpec(labels: seq<nat>)
    requires |labels| > 0
    ensures MostCommon(labels) in labels
    ensures forall x: nat :: Count(labels, x) <= Count(labels, MostCommon(labels))
    ensures forall p :: 0 <= p < |labels| && Count(labels, labels[p]) == Count(labels, MostCommon(labels)) ==>
      IndexOf(labels, MostCommon(labels)) <= p
  {
    var key := MostCommonFrom(labels, 1, labels[0]);
    assert IndexOf(labels, labels[0]) == 0;
    MostCommonFromSpec(labels, 1, labels[0]);
    assert LeadsFirst(labels, key, |labels|);
    CountBoundedByPositions(labels, key);
  }


  /** `maxccnodes`: the vertices below `p` whose label is `key`, in increasing order. */
  function KeptVertices(labels: seq<nat>, key: nat, p: nat): (keep: seq<nat>)
    requires p <= |labels|
    ensures forall k :: 0 <= k < |keep| ==> keep[k] < p
  {
    if p == 0 then []
    else KeptVertices(labels, key, p - 1) + (if labels[p - 1] == key then [p - 1] else [])
  }

  /** The kept list is strictly increasing, holds exactly the vertices labelled
      `key`, and has as many entries as `key` has occurrences. */
  lemma {:induction false} KeptVerticesSpec(labels: seq<nat>, key: nat, p: nat)
    requires p <= |labels|
    ensures Increasing(KeptVertices(labels, key, p))
    ensures forall v: nat :: v in KeptVertices(labels, key, p) <==> v < p && labels[v] == key
    ensures |KeptVertices(labels, key, p)| == Count(labels[..p], key)
  {
    if p > 0 {
      KeptVerticesSpec(labels, key, p - 1);
      assert labels[..p][..p - 1] == labels[..p - 1];
    }
  }

  // ---- The induced subgraph `A[keep, :][:, keep]` ----

  /** The position of the first occurrence of `c` in `keep`. */
  function IndexOf(keep: seq<nat>, c: nat): (p: nat)
    requires c in keep
    ensures p < |keep| && keep[p] == c
    ensures forall q :: 0 <= q < p ==> keep[q] != c
  {
    if keep[0] == c then 0 else 1 + IndexOf(keep[1..], c)
  }

  lemma IndexOfOrder(keep: seq<nat>, b: nat, c: nat)
    requires Increasing(keep) && b in keep && c in keep && b < c
    ensures IndexOf(keep, b) < IndexOf(keep, c)
  {
  }

  /** The entries of `row` whose column is kept, relabelled to positions in `keep`. */
  function RestrictRow(row: seq<Entry>, keep: seq<nat>): (r: seq<Entry>)
    ensures forall p :: 0 <= p < |r| ==> r[p].col < |keep|
  {
    if |row| == 0 then []
    else
      var e := row[|row| - 1];
      RestrictRow(row[..|row| - 1], keep) + (if e.col in keep then [Entry(IndexOf(keep, e.col), e.w)] else [])
  }

  function InducedRows(g: Csr, keep: seq<nat>): (rows: seq<seq<Entry>>)
    requires Valid(g) && forall p :: 0 <= p < |keep| ==> keep[p] < g.n
    ensures |rows| == |keep| && RowsBelow(rows, |keep|)
  {
    seq(|keep|, p requires 0 <= p < |keep| => RestrictRow(Row(g, keep[p]), keep))
  }

  /** `adjacency_matrix[keep, :].tocsc()[:, keep].tocsr()`. */
  function Induce(g: Csr, keep: seq<nat>): Csr
    requires Valid(g) && forall p :: 0 <= p < |keep| ==> keep[p] < g.n
  {
    FromRows(InducedRows(g, keep))
  }

  lemma {:induction false} RestrictRowWeight(row: seq<Entry>, keep: seq<nat>, q: nat)
    requires Increasing(keep) && q < |keep|
    ensures EntryWeight(RestrictRow(row, keep), q) == EntryWeight(row, keep[q])
  {
    if |row| > 0 {
      var e, pre := row[|row| - 1], row[..|row| - 1];
      RestrictRowWeight(pre, keep, q);
      if e.col in keep {
        assert RestrictRow(row, keep)[..|RestrictRow(row, keep)| - 1] == RestrictRow(pre, keep);
        assert IndexOf(keep, e.col) == q <==> e.col == keep[q];
      } else {
        assert RestrictRow(row, keep) == RestrictRow(pre, keep);
      }
    }
  }

  /** Relabelled columns stay below the position of any kept column that
      bounds the original ones. */
  lemma {:induction false} RestrictRowBelow(row: seq<Entry>, keep: seq<nat>, c: nat)
    requires Increasing(keep) && c in keep
    requires forall p :: 0 <= p < |row| ==> row[p].col < c
    ensures forall p :: 0 <= p < |RestrictRow(row, keep)| ==> RestrictRow(row, keep)[p].col < IndexOf(keep, c)
  {
    if |row| > 0 {
      var e, pre := row[|row| - 1], row[..|row| - 1];
      RestrictRowBelow(pre, keep, c);
      if e.col in keep {
        IndexOfOrder(keep, e.col, c);
      }
    }
  }

  lemma {:induction false} RestrictRowIncreasing(row: seq<Entry>, keep: seq<nat>)
    requires Increasing(keep) && Increasing(Columns(row))
    ensures Increasing(Columns(RestrictRow(row, keep)))
  {
    if |row| > 0 {
      var e, pre := row[|row| - 1], row[..|row| - 1];
      assert Columns(pre) == Columns(row)[..|row| - 1];
      RestrictRowIncreasing(pre, keep);
      if e.col in keep {
        assert forall p :: 0 <= p < |pre| ==> pre[p].col < e.col by {
          forall p | 0 <= p < |pre| ensures pre[p].col < e.col {
            assert Columns(row)[p] < Columns(row)[|row| - 1];
          }
        }
        RestrictRowBelow(pre, keep, e.col);
        var r, r' := RestrictRow(row, keep), RestrictRow(pre, keep);
        assert r == r' + [Entry(IndexOf(keep, e.col), e.w)];
        assert Columns(r) == Columns(r') + [IndexOf(keep, e.col)];
      } else {
        assert RestrictRow(row, keep) == RestrictRow(pre, keep);
      }
    }
  }

  /** The induced graph has one vertex per kept vertex; its row `p` is row
      `keep[p]` restricted to kept columns and relabelled, in storage order. */
  lemma InduceShape(g: Csr, keep: seq<nat>)
    requires Valid(g) && forall p :: 0 <= p < |keep| ==> keep[p] < g.n
    ensures Valid(Induce(g, keep)) && Induce(g, keep).n == |keep|
    ensures forall p :: 0 <= p < |keep| ==> Row(Induce(g, keep), p) == RestrictRow(Row(g, keep[p]), keep)
  {
    FromRowsRows(InducedRows(g, keep));
  }

  /** Restricting a canonical graph to an increasing vertex list keeps every
      row's columns increasing. */
  lemma InduceCanonical(g: Csr, keep: seq<nat>)
    requires Canonical(g) && Increasing(keep) && forall p :: 0 <= p < |keep| ==> keep[p] < g.n
    ensures Canonical(Induce(g, keep))
  {
    InduceShape(g, keep);
    var h := Induce(g, keep);
    forall p | 0 <= p < |keep| ensures Increasing(Cols(h, p)) {
      RowColumns(g, keep[p]);
      RestrictRowIncreasing(Row(g, keep[p]), keep);
      RowColumns(h, p);
    }
  }

  /** The induced weights are W restricted to the kept vertices and relabelled
      in order: W'(p, q) = W(keep[p], keep[q]). */
  lemma InducedWeight(g: Csr, keep: seq<nat>, p: nat, q: nat)
    requires Valid(g) && Increasing(keep) && forall k :: 0 <= k < |keep| ==> keep[k] < g.n
    requires p < |keep| && q < |keep|
    ensures Valid(Induce(g, keep))
    ensures Weight(Induce(g, keep), p, q) == Weight(g, keep[p], keep[q])
  {
    InduceShape(g, keep);
    RestrictRowWeight(Row(g, keep[p]), keep, q);
  }

  /** The subgraph induced by a symmetric graph is symmetric. */
  lemma InduceSymmetric(g: Csr, keep: seq<nat>)
    requires Symmetric(g) && Increasing(keep) && forall k :: 0 <= k < |keep| ==> keep[k] < g.n
    ensures Symmetric(Induce(g, keep))
  {
    var h := Induce(g, keep);
    FromRowsValid(InducedRows(g, keep));
    assert h.n == |keep|;
    forall p, q | 0 <= p < |keep| && 0 <= q < |keep| ensures Weight(h, p, q) == Weight(h, q, p) {
      InducedWeight(g, keep, p, q);
      InducedWeight(g, keep, q, p);
    }
  }

  /** The graph `largest_component` keeps: induced on the vertices carrying
      the most common label, it is canonical, non-empty, has one vertex per
      kept vertex, and is symmetric when the graph is. */
  lemma LargestComponentGraph(g: Csr, labels: seq<nat>)
    requires Canonical(g) && |labels| == g.n > 0
    ensures var keep := KeptVertices(labels, MostCommon(labels), g.n);
      && Canonical(Induce(g, keep)) && Induce(g, keep).n == |keep| > 0
      && (Symmetric(g) ==> Symmetric(Induce(g, keep)))
  {
    var key := MostCommon(labels);
    var keep := KeptVertices(labels, key, g.n);
    MostCommonSpec(labels);
    KeptVerticesSpec(labels, key, g.n);
    assert IndexOf(labels, key) in keep;
    InduceShape(g, keep);
    InduceCanonical(g, keep);
    if Symmetric(g) {
      InduceSymmetric(g, keep);
    }
  }
}
