/** Scoring a vertex set R (`set_scores`, `compute_conductance`): its volume,
    the cut through the quadratic form 1'D1_R - 1_R'A1_R (the reference path),
    the effective volume and size, and conductance and isoperimetric ratio
    with the sentinel 1 for a zero denominator. The row-iterating cut of the
    accelerated path is given here as `BoundaryWeight` and proved equal to the
    reference cut. */
module Scoring {
  import opened Results
  import opened Sums
  import opened CsrMatrix
  import opened Construction
  import opened Statistics

  /** The record `set_scores` returns (its `locals()` at the end). */
  datatype Scores = Scores(
    voltrue: real, cut: real, voleff: real,
    sizetrue: nat, sizeeff: int,
    edgestrue: real, edgeseff: real,
    cond: real, isop: real)

  predicate InRange(g: Csr, R: seq<nat>)
  {
    forall k :: 0 <= k < |R| ==> R[k] < g.n
  }

  /** `v_ones_R`: 1 at the vertices of R, 0 elsewhere. */
  function Indicator(n: nat, R: seq<nat>): (x: seq<real>)
    ensures |x| == n
  {
    seq(n, i requires 0 <= i < n => if i in R then 1.0 else 0.0)
  }

  /** One row of a sparse matrix-vector product. */
  function RowDot(row: seq<Entry>, x: seq<real>): real
    requires RowBelow(row, |x|)
  {
    if |row| == 0 then 0.0
    else RowDot(row[..|row| - 1], x) + row[|row| - 1].w * x[row[|row| - 1].col]
  }

  /** `adjacency_matrix.dot(x)`. */
  function MatVec(g: Csr, x: seq<real>): (y: seq<real>)
    requires Valid(g) && |x| == g.n
    ensures |y| == g.n
  {
    seq(g.n, i requires 0 <= i < g.n => RowDot(Row(g, i), x))
  }

  /** Scores of the set R given the degrees `d` and volume `volG`; a vertex
      id at or beyond n is an index error. Repeated ids count once in the
      quadratic form but as often as they occur in the volume and size. */
  function SetScores(g: Csr, d: seq<real>, volG: real, R: seq<nat>): (r: Result<Scores>)
    requires Valid(g) && |d| == g.n
    ensures r.Ok? <==> InRange(g, R)
    ensures r.Err? ==> r.error == IndexOutOfRange
    ensures r.Ok? ==> DerivedFieldsAgree(r.value, g.n, |R|, volG)
  {
    if !InRange(g, R) then Err(IndexOutOfRange)
    else
      var voltrue := SumAt(d, R);
      var x := Indicator(g.n, R);
      var cut := voltrue - Dot(x, MatVec(g, x));
      Ok(DeriveScores(voltrue, cut, g.n, |R|, volG))
  }

  /** The fields `set_scores` derives from the set's volume and cut, for a
      set of `size` ids in a graph of `n` vertices and volume `volG`. */
  function DeriveScores(voltrue: real, cut: real, n: nat, size: nat, volG: real): (s: Scores)
    ensures s.voltrue == voltrue && s.cut == cut
    ensures DerivedFieldsAgree(s, n, size, volG)
  {
    var voleff := if voltrue <= volG - voltrue then voltrue else volG - voltrue;
    var sizeeff := if voleff < voltrue then n - size else size;
    var edgestrue := voltrue - cut;
    var edgeseff := voleff - cut;
    var cond := if voleff != 0.0 then cut / voleff else 1.0;
    var isop := if sizeeff != 0 then cut / (sizeeff as real) else 1.0;
    Scores(voltrue, cut, voleff, size, sizeeff, edgestrue, edgeseff, cond, isop)
  }

  /** How the derived fields of a score record follow from `voltrue` and `cut`:
      the effective volume is the smaller of the set's and the complement's
      volume, the effective size is the complement's size exactly when the
      complement is the smaller side, and the two ratios fall back to 1 on a
      zero denominator. */
  predicate DerivedFieldsAgree(s: Scores, n: nat, size: nat, volG: real)
  {
    && s.sizetrue == size
    && s.voleff <= s.voltrue && s.voleff <= volG - s.voltrue
    && (s.voleff == s.voltrue || s.voleff == volG - s.voltrue)
    && (s.voleff < s.voltrue ==> s.sizeeff == n - size)
    && (s.voleff == s.voltrue ==> s.sizeeff == size)
    && s.edgestrue + s.cut == s.voltrue
    && s.edgeseff + s.cut == s.voleff
    && (s.voleff != 0.0 ==> s.cond * s.voleff == s.cut)
    && (s.voleff == 0.0 ==> s.cond == 1.0)
    && (s.sizeeff != 0 ==> s.isop * (s.sizeeff as real) == s.cut)
    && (s.sizeeff == 0 ==> s.isop == 1.0)
  }

  /** `compute_conductance`: the `cond` field of the scores. */
  function ComputeConductance(g: Csr, d: seq<real>, volG: real, R: seq<nat>): (r: Result<real>)
    requires Valid(g) && |d| == g.n
    ensures r.Ok? <==> InRange(g, R)
    ensures r.Ok? ==> r.value == SetScores(g, d, volG, R).value.cond
  {
    var s := SetScores(g, d, volG, R);
    if s.Err? then Err(s.error) else Ok(s.value.cond)
  }

  // ---- The row-iterating cut ----

  /** The weight of the entries of `row` whose column is in S. */
  function InWeight(row: seq<Entry>, S: seq<nat>): real
  {
    if |row| == 0 then 0.0
    else InWeight(row[..|row| - 1], S) + (if row[|row| - 1].col in S then row[|row| - 1].w else 0.0)
  }

  /** The weight of the entries of `row` whose column is not in S. */
  function OutWeight(row: seq<Entry>, S: seq<nat>): real
  {
    if |row| == 0 then 0.0
    else OutWeight(row[..|row| - 1], S) + (if row[|row| - 1].col !in S then row[|row| - 1].w else 0.0)
  }

  /** The weight of the stored entries leaving S from the rows listed in R. */
  function BoundaryWeight(g: Csr, R: seq<nat>, S: seq<nat>): real
    requires Valid(g) && InRange(g, R)
  {
    if |R| == 0 then 0.0
    else BoundaryWeight(g, R[..|R| - 1], S) + OutWeight(Row(g, R[|R| - 1]), S)
  }

  lemma {:induction false} RowDotIndicator(row: seq<Entry>, n: nat, S: seq<nat>)
    requires RowBelow(row, n)
    ensures RowDot(row, Indicator(n, S)) == InWeight(row, S)
  {
    if |row| > 0 {
      RowDotIndicator(row[..|row| - 1], n, S);
    }
  }

  lemma {:induction false} InPlusOut(row: seq<Entry>, S: seq<nat>)
    ensures InWeight(row, S) + OutWeight(row, S) == Sum(Weights(row))
  {
    if |row| > 0 {
      InPlusOut(row[..|row| - 1], S);
      assert Weights(row)[..|row| - 1] == Weights(row[..|row| - 1]);
    }
  }

  lemma {:induction false} DotIndicator(n: nat, R: seq<nat>, y: seq<real>, p: nat)
    requires |y| == n && p <= n
    ensures DotUpTo(Indicator(n, R), y, p) == SumWhere(y, R, p)
  {
    if p > 0 {
      DotIndicator(n, R, y, p - 1);
    }
  }

  /** For a duplicate-free R the quadratic form 1_R'A1_R is the sum, over the
      rows of R, of their entries whose column is in R. */
  lemma QuadraticForm(g: Csr, R: seq<nat>)
    requires Valid(g) && InRange(g, R) && DuplicateFree(R)
    ensures var x := Indicator(g.n, R); Dot(x, MatVec(g, x)) == SumAt(MatVec(g, x), R)
  {
    var x := Indicator(g.n, R);
    DotIndicator(g.n, R, MatVec(g, x), g.n);
    SumAtIsSumWhere(MatVec(g, x), R);
  }

  lemma {:induction false} VolumeMinusInner(g: Csr, R: seq<nat>, S: seq<nat>)
    requires Valid(g) && InRange(g, R)
    ensures var x := Indicator(g.n, S);
      SumAt(Degrees(g), R) - SumAt(MatVec(g, x), R) == BoundaryWeight(g, R, S)
  {
    if |R| > 0 {
      var x := Indicator(g.n, S);
      var v := R[|R| - 1];
      VolumeMinusInner(g, R[..|R| - 1], S);
      RowDotIndicator(Row(g, v), g.n, S);
      InPlusOut(Row(g, v), S);
      RowColumns(g, v);
    }
  }

  /** The two scoring paths agree: for a duplicate-free R and statistics
      consistent with the adjacency, the reference cut 1'D1_R - 1_R'A1_R is
      the weight of the stored entries from R to vertices outside R. */
  lemma CutIsBoundaryWeight(g: Csr, d: seq<real>, volG: real, R: seq<nat>)
    requires Valid(g) && d == Degrees(g) && InRange(g, R) && DuplicateFree(R)
    ensures SetScores(g, d, volG, R).Ok?
    ensures SetScores(g, d, volG, R).value.cut == BoundaryWeight(g, R, R)
  {
    QuadraticForm(g, R);
    VolumeMinusInner(g, R, R);
  }

  /** For a duplicate-free R, `voltrue` is the total degree of the vertex set R. */
  lemma VolumeOfSet(g: Csr, d: seq<real>, volG: real, R: seq<nat>)
    requires Valid(g) && |d| == g.n && InRange(g, R) && DuplicateFree(R)
    ensures SetScores(g, d, volG, R).Ok?
    ensures SetScores(g, d, volG, R).value.voltrue == SumWhere(d, R, g.n)
  {
    SumAtIsSumWhere(d, R);
  }

  lemma {:induction false} WeightsNonNegative(row: seq<Entry>, S: seq<nat>)
    requires forall p :: 0 <= p < |row| ==> row[p].w >= 0.0
    ensures InWeight(row, S) >= 0.0 && OutWeight(row, S) >= 0.0
  {
    if |row| > 0 {
      WeightsNonNegative(row[..|row| - 1], S);
    }
  }

  lemma {:induction false} BoundaryBelowVolume(g: Csr, R: seq<nat>, S: seq<nat>)
    requires Valid(g) && InRange(g, R)
    requires forall k :: 0 <= k < |g.a| ==> g.a[k] >= 0.0
    ensures 0.0 <= BoundaryWeight(g, R, S) <= SumAt(Degrees(g), R)
  {
    if |R| > 0 {
      var v := R[|R| - 1];
      BoundaryBelowVolume(g, R[..|R| - 1], S);
      WeightsNonNegative(Row(g, v), S);
      InPlusOut(Row(g, v), S);
      RowColumns(g, v);
    }
  }

  /** With non-negative weights and a duplicate-free R, 0 <= cut <= voltrue. */
  lemma CutBounds(g: Csr, d: seq<real>, volG: real, R: seq<nat>)
    requires Valid(g) && d == Degrees(g) && InRange(g, R) && DuplicateFree(R)
    requires forall k :: 0 <= k < |g.a| ==> g.a[k] >= 0.0
    ensures SetScores(g, d, volG, R).Ok?
    ensures 0.0 <= SetScores(g, d, volG, R).value.cut <= SetScores(g, d, volG, R).value.voltrue
  {
    CutIsBoundaryWeight(g, d, volG, R);
    BoundaryBelowVolume(g, R, R);
  }

  lemma {:induction false} OutWeightNone(row: seq<Entry>, S: seq<nat>)
    requires forall p :: 0 <= p < |row| ==> row[p].col in S
    ensures OutWeight(row, S) == 0.0
  {
    if |row| > 0 {
      OutWeightNone(row[..|row| - 1], S);
    }
  }

  lemma {:induction false} BoundaryOfWholeSet(g: Csr, R: seq<nat>, S: seq<nat>)
    requires Valid(g) && InRange(g, R)
    requires forall i :: 0 <= i < g.n ==> i in S
    ensures BoundaryWeight(g, R, S) == 0.0
  {
    if |R| > 0 {
      BoundaryOfWholeSet(g, R[..|R| - 1], S);
      OutWeightNone(Row(g, R[|R| - 1]), S);
    }
  }

  /** Scoring the whole vertex set, listed once each, against current
      statistics: no cut, and the whole volume, whatever the signs of the
      weights. */
  lemma WholeSetCutAndVolume(g: Csr, d: seq<real>, volG: real, R: seq<nat>)
    requires Valid(g) && d == Degrees(g) && volG == Sum(d)
    requires InRange(g, R) && DuplicateFree(R)
    requires forall i :: 0 <= i < g.n ==> i in R
    ensures SetScores(g, d, volG, R).Ok?
    ensures SetScores(g, d, volG, R).value.cut == 0.0
    ensures SetScores(g, d, volG, R).value.voltrue == volG
  {
    CutIsBoundaryWeight(g, d, volG, R);
    BoundaryOfWholeSet(g, R, R);
    SumAtIsSumWhere(d, R);
    SumWhereAll(d, R, g.n);
    assert d[..g.n] == d;
  }

  /** With non-negative weights as well, the complement has volume 0, so the
      effective volume is 0 and `cond` is the sentinel 1. */
  lemma WholeSetScores(g: Csr, d: seq<real>, volG: real, R: seq<nat>)
    requires Valid(g) && d == Degrees(g) && volG == Sum(d)
    requires InRange(g, R) && DuplicateFree(R)
    requires forall i :: 0 <= i < g.n ==> i in R
    requires forall k :: 0 <= k < |g.a| ==> g.a[k] >= 0.0
    ensures SetScores(g, d, volG, R).Ok?
    ensures SetScores(g, d, volG, R).value.voleff == 0.0
    ensures SetScores(g, d, volG, R).value.cond == 1.0
  {
    WholeSetCutAndVolume(g, d, volG, R);
    NonNegativeStatistics(g);
  }

  /** Scoring the empty set: with a non-negative volume everything is 0 and
      both ratios are the sentinel 1; with a negative volume the effective
      side is the complement, of volume vol_G and size n, and both ratios
      are 0 (the isoperimetric one falls back to 1 on an empty graph). */
  lemma EmptySetScores(g: Csr, d: seq<real>, volG: real)
    requires Valid(g) && |d| == g.n
    ensures volG >= 0.0 ==> SetScores(g, d, volG, []) == Ok(Scores(0.0, 0.0, 0.0, 0, 0, 0.0, 0.0, 1.0, 1.0))
    ensures volG < 0.0 ==>
      SetScores(g, d, volG, []) == Ok(Scores(0.0, 0.0, volG, 0, g.n, 0.0, volG, 0.0, if g.n == 0 then 1.0 else 0.0))
  {
    var x := Indicator(g.n, []);
    DotIndicator(g.n, [], MatVec(g, x), g.n);
    SumWhereNone(MatVec(g, x), [], g.n);
  }

  /** The path 0-1-2-3 with unit weights, stored symmetrically. */
  function PathGraph(): Csr
  {
    Csr(4, [0, 1, 3, 5, 6], [1, 0, 2, 1, 3, 2], [1.0, 1.0, 1.0, 1.0, 1.0, 1.0])
  }

  /** The edge arrays of the path: 0->1, 1->2, 2->3, each of weight 1. */
  function PathEdges(): EdgeList
  {
    EdgeList([0, 1, 2], [1, 2, 3], [1.0, 1.0, 1.0])
  }

  /** The assembled matrix of the path's edges has 1 exactly at (i, i + 1), i < 3. */
  lemma PathInputWeight(i: nat, j: nat)
    ensures WellFormed(PathEdges())
    ensures InputWeight(PathEdges(), i, j) == if i < 3 && j == i + 1 then 1.0 else 0.0
  {
    var e := PathEdges();
    assert InputWeightUpTo(e, 1, i, j) == if i == 0 && j == 1 then 1.0 else 0.0;
    assert InputWeightUpTo(e, 2, i, j) == if i < 2 && j == i + 1 then 1.0 else 0.0;
  }

  /** The path's edges are one-directional, so construction symmetrises them
      and keeps exactly the cells of weight 1 in either direction. */
  lemma PathKeep(i: nat, j: nat)
    ensures WellFormed(PathEdges())
    ensures SymWeight(PathEdges(), i, j) == if (i < 3 && j == i + 1) || (j < 3 && i == j + 1) then 1.0 else 0.0
    ensures Keep(PathEdges(), 4, i, j) <==> (i < 3 && j == i + 1) || (j < 3 && i == j + 1)
  {
    var e := PathEdges();
    PathInputWeight(i, j);
    PathInputWeight(j, i);
    PathInputWeight(0, 1);
    PathInputWeight(1, 0);
    assert !InputSymmetric(e, 4);
  }

  /** The rows of the path 0-1-2-3 as (column, weight) entries. */
  function PathRowList(): seq<seq<Entry>>
  {
    [[Entry(1, 1.0)], [Entry(0, 1.0), Entry(2, 1.0)], [Entry(1, 1.0), Entry(3, 1.0)], [Entry(2, 1.0)]]
  }

  lemma PathVertexCount()
    ensures NumVertices([0, 1, 2], [1, 2, 3]) == 4
  {
    assert MaxOf([1, 2, 3]) == 3 by {
      assert [1, 2, 3][..2] == [1, 2];
      assert [1, 2][..1] == [1];
    }
    assert MaxOf([0, 1, 2]) == 2 by {
      assert [0, 1, 2][..2] == [0, 1];
      assert [0, 1][..1] == [0];
    }
  }

  /** Row `i` of the symmetrised path matrix. */
  lemma PathRow(i: nat)
    requires i < 4
    ensures WellFormed(PathEdges()) && RowUpTo(PathEdges(), 4, i, 4) == PathRowList()[i]
  {
    var e := PathEdges();
    PathKeep(i, 0);
    PathKeep(i, 1);
    PathKeep(i, 2);
    PathKeep(i, 3);
    assert RowUpTo(e, 4, i, 1) == if i == 1 then [Entry(0, 1.0)] else [];
    assert RowUpTo(e, 4, i, 2) == if i == 0 then [Entry(1, 1.0)] else if i == 1 then [Entry(0, 1.0)] else if i == 2 then [Entry(1, 1.0)] else [];
  }

  /** Assembling the path's rows gives the CSR arrays of `PathGraph`. */
  lemma PathRowListLayout()
    ensures FromRows(PathRowList()) == PathGraph()
  {
    var rows := PathRowList();
    assert rows[..1][..0] == [];
    assert rows[..2][..1] == rows[..1];
    assert rows[..3][..2] == rows[..2];
    assert Flatten(rows[..1]) == rows[0];
    assert Flatten(rows[..2]) == rows[0] + rows[1];
    assert Flatten(rows[..3]) == rows[0] + rows[1] + rows[2];
    assert Flatten(rows) == rows[0] + rows[1] + rows[2] + rows[3];
    assert Offsets(rows[..1]) == [0, 1];
    assert Offsets(rows[..2]) == [0, 1, 3];
    assert Offsets(rows[..3]) == [0, 1, 3, 5];
  }

  /** Construction from the path's edge arrays yields exactly the CSR arrays
      of `PathGraph`. */
  lemma PathGraphBuilt()
    ensures WellFormed(PathEdges()) && Build(PathEdges()) == PathGraph()
  {
    PathVertexCount();
    var e := PathEdges();
    forall i | 0 <= i < 4 ensures RowUpTo(e, 4, i, 4) == PathRowList()[i] {
      PathRow(i);
    }
    assert seq(4, i requires 0 <= i < 4 => RowUpTo(e, 4, i, 4)) == PathRowList();
    PathRowListLayout();
  }

  lemma PathGraphDegrees()
    ensures Valid(PathGraph())
    ensures Degrees(PathGraph()) == [1.0, 2.0, 2.0, 1.0] && Sum(Degrees(PathGraph())) == 6.0
  {
    UnitWeightStatistics(PathGraph());
  }

  lemma PathGraphRows()
    ensures Valid(PathGraph())
    ensures Row(PathGraph(), 0) == [Entry(1, 1.0)]
    ensures Row(PathGraph(), 1) == [Entry(0, 1.0), Entry(2, 1.0)]
  {
  }

  lemma PathGraphBoundary()
    ensures Valid(PathGraph()) && BoundaryWeight(PathGraph(), [0, 1], [0, 1]) == 1.0
  {
    var g, R: seq<nat> := PathGraph(), [0, 1];
    PathGraphRows();
    assert OutWeight([Entry(1, 1.0)], R) == 0.0;
    assert OutWeight([Entry(0, 1.0), Entry(2, 1.0)], R) == 1.0 by {
      assert [Entry(0, 1.0), Entry(2, 1.0)][..1] == [Entry(0, 1.0)];
    }
    assert R[..1] == [0];
    assert BoundaryWeight(g, [0], R) == 0.0;
  }

  /** On the path 0-1-2-3 (degrees [1, 2, 2, 1], volume 6) the set {0, 1}
      has volume 3, cut 1, conductance 1/3 and isoperimetric ratio 1/2. */
  lemma PathGraphExample()
    ensures Valid(PathGraph())
    ensures SetScores(PathGraph(), Degrees(PathGraph()), 6.0, [0, 1])
         == Ok(Scores(3.0, 1.0, 3.0, 2, 2, 2.0, 2.0, 1.0 / 3.0, 0.5))
  {
    var R: seq<nat> := [0, 1];
    PathGraphDegrees();
    PathGraphBoundary();
    var d := Degrees(PathGraph());
    assert SumAt(d, R) == 3.0 by {
      assert R[..1] == [0];
    }
    CutIsBoundaryWeight(PathGraph(), d, 6.0, R);
  }

  /** The same scores for the graph built from the path's edge arrays. */
  lemma PathEdgesExample()
    ensures WellFormed(PathEdges()) && Valid(Build(PathEdges()))
    ensures SetScores(Build(PathEdges()), Degrees(Build(PathEdges())), 6.0, [0, 1])
         == Ok(Scores(3.0, 1.0, 3.0, 2, 2, 2.0, 2.0, 1.0 / 3.0, 0.5))
  {
    PathGraphBuilt();
    PathGraphExample();
  }
}
