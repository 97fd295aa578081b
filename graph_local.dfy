/** The `GraphLocal` object: the CSR adjacency store, the `_weighted` flag and
    the statistics derived from the store, with the operations that fill or
    change them in place and the scans that read them. */
module GraphLocalModel {
  import opened Results
  import opened Sums
  import opened CsrMatrix
  import opened Construction
  import opened Statistics
  import opened Extrema
  import opened Components

  class GraphLocal {
    var n: nat            // _num_vertices
    var m: nat            // _num_edges
    var ai: seq<nat>      // adjacency_matrix.indptr (and its copy `ai`)
    var aj: seq<nat>      // adjacency_matrix.indices (and its copy `aj`)
    var a: array<real>    // adjacency_matrix.data, filled in place by discard_weights
    var weighted: bool    // _weighted
    var d: seq<real>      // degrees
    var dn: seq<real>     // guarded reciprocal degrees
    var volG: real        // vol_G

    /** The adjacency store as a CSR value. */
    function Adj(): Csr
      reads this, a
    {
      Csr(n, ai, aj, a[..])
    }

    /** The statistics agree with the current adjacency. */
    ghost predicate StatisticsCurrent()
      reads this, a
    {
      CsrMatrix.Valid(Adj()) && d == Degrees(Adj()) && dn == InvDegrees(d) && volG == Sum(d)
    }

    /** A loaded graph: at least one vertex, canonical CSR storage, the edge
        count equal to the number of stored entries, current statistics. */
    ghost predicate Valid()
      reads this, a
    {
      n > 0 && Canonical(Adj()) && m == |aj| && StatisticsCurrent()
    }

    /** `GraphLocal()` without a file: nothing is loaded yet. */
    constructor ()
      ensures n == 0 && m == 0 && ai == [] && aj == [] && a.Length == 0
      ensures !weighted && d == [] && dn == [] && volG == 0.0
    {
      n, m, ai, aj := 0, 0, [], [];
      a := new real[0];
      weighted, d, dn, volG := false, [], [], 0.0;
    }

    /** `compute_statistics`: degrees, guarded reciprocals and volume from the
        current adjacency. */
    method ComputeStatistics()
      requires CsrMatrix.Valid(Adj())
      modifies this`d, this`dn, this`volG
      ensures StatisticsCurrent()
    {
      d := Degrees(Adj());
      dn := InvDegrees(d);
      volG := Sum(d);
    }

    /** Replaces the adjacency store by `g` (fresh data array) and recomputes
        the statistics; the shared tail of `list_to_gl` and
        `largest_component`. */
    method Store(g: Csr)
      requires Canonical(g) && g.n > 0
      modifies this
      ensures Valid() && fresh(a) && Adj() == g
      ensures weighted == old(weighted)
    {
      n, ai, aj := g.n, g.ai, g.aj;
      a := NewData(g.a);
      m := |g.aj|;
      assert Adj() == g;
      ComputeStatistics();
    }

    /** `list_to_gl(source, target, weights)`. An empty `source` or `target`
        fails before the vertex count is set; arrays of different lengths fail
        after it is. On success the store holds the canonical CSR form of the
        symmetrised matrix, `_weighted` says whether some assembled entry
        differs from 1 (before symmetrising), and the statistics are current. */
    method ListToGl(source: seq<nat>, target: seq<nat>, weights: seq<real>) returns (r: Outcome)
      modifies this
      ensures r.Pass? <==> WellFormed(EdgeList(source, target, weights))
      ensures r.Fail? ==> (m == |source| && ai == old(ai) && aj == old(aj) && a == old(a)
        && weighted == old(weighted) && d == old(d) && dn == old(dn) && volG == old(volG))
      ensures r.Fail? && (|source| == 0 || |target| == 0) ==> r.error == EmptyEdgeList && n == old(n)
      ensures r.Fail? && |source| > 0 && |target| > 0 ==>
        r.error == LengthMismatch && n == NumVertices(source, target)
      ensures r.Pass? ==> var e := EdgeList(source, target, weights);
        && Valid() && fresh(a)
        && n == NumVertices(source, target)
        && Adj() == Build(e)
        && weighted == InputWeighted(e)
    {
      m := |source|;
      if |source| == 0 || |target| == 0 {
        return Fail(EmptyEdgeList);
      }
      n := NumVertices(source, target);
      if |target| != |source| || |weights| != |source| {
        return Fail(LengthMismatch);
      }
      var e := EdgeList(source, target, weights);
      BuildShape(e);
      weighted := InputWeighted(e);
      Store(Build(e));
      return Pass;
    }

    /** `discard_weights`: every stored weight becomes 1.0 in place, the graph
        is unweighted, and the statistics are recomputed, so each degree
        counts its row's stored entries and the volume counts them all. */
    method DiscardWeights()
      requires Valid()
      modifies this, a
      ensures Valid()
      ensures a == old(a) && n == old(n) && m == old(m) && ai == old(ai) && aj == old(aj)
      ensures forall k :: 0 <= k < a.Length ==> a[k] == 1.0
      ensures !weighted
      ensures forall i :: 0 <= i < n ==> d[i] == (ai[i + 1] - ai[i]) as real
      ensures volG == |aj| as real
    {
      ghost var before := Adj();
      FillOnes(a);
      ReweightedCanonical(before, a[..]);
      assert Adj() == before.(a := a[..]);
      weighted := false;
      ComputeStatistics();
      UnitWeightStatistics(Adj());
    }

    /** `neighbors(v)`: the stored columns of row `v`, in storage order; a
        vertex outside the graph is an index error. Every vertex not listed
        has weight 0 in row `v`. */
    function Neighbors(v: nat): (r: Result<seq<nat>>)
      reads this, a
      requires Valid()
      ensures r.Ok? <==> v < n
      ensures r.Err? ==> r.error == IndexOutOfRange
      ensures r.Ok? ==> r.value == Cols(Adj(), v) == Columns(Row(Adj(), v))
      ensures r.Ok? ==> |r.value| == ai[v + 1] - ai[v]
      ensures r.Ok? ==> forall j :: j in r.value ==> j < n
      ensures r.Ok? ==> forall j: nat :: j !in r.value ==> Weight(Adj(), v, j) == 0.0
    {
      if v < n then
        RowColumns(Adj(), v);
        assert forall j: nat :: j !in aj[ai[v]..ai[v + 1]] ==> Weight(Adj(), v, j) == 0.0 by {
          forall j: nat | j !in aj[ai[v]..ai[v + 1]] ensures Weight(Adj(), v, j) == 0.0 {
            EntryWeightAbsent(Row(Adj(), v), j);
          }
        }
        Ok(aj[ai[v]..ai[v + 1]])
      else Err(IndexOutOfRange)
    }

    /** `local_extrema(vals, strict, reverse)`: scans every vertex's stored
        neighbours, stopping at the first one that beats it, and collects the
        vertices that survive, with their values. Too few values is an index
        error. */
    method LocalExtrema(vals: seq<real>, strict: bool, reverse: bool) returns (r: Result<Scan>)
      requires Valid()
      ensures r.Ok? <==> |vals| >= n
      ensures r.Err? ==> r.error == IndexOutOfRange
      ensures r.Ok? ==> r.value.minverts == ExtremaUpTo(Adj(), vals, strict, reverse, n)
      ensures r.Ok? ==> r.value.minvals == ValuesAt(vals, r.value.minverts)
    {
      if |vals| < n {
        return Err(IndexOutOfRange);
      }
      var g := Adj();
      var minverts: seq<nat> := [];
      var factor := 1.0;
      if reverse {
        factor := -1.0;
      }
      var i := 0;
      while i < g.n
        invariant 0 <= i <= g.n
        invariant minverts == ExtremaUpTo(g, vals, strict, reverse, i)
      {
        var lmin := ScanRow(g, vals, strict, reverse, factor, i);
        assert ExtremaUpTo(g, vals, strict, reverse, i + 1) == minverts + (if lmin then [i] else []);
        if lmin {
          minverts := minverts + [i];
        }
        i := i + 1;
      }
      var minvals := ValuesAt(vals, minverts);
      return Ok(Scan(minverts, minvals));
    }

    /** `largest_component`, given the component labelling and count that
        `connected_components` produces. With one component the graph itself
        is returned; otherwise a new graph induced on the vertices carrying
        `Counter(labels).most_common(1)`'s label, relabelled in increasing
        order, with the same `_weighted` flag and fresh statistics. */
    method LargestComponent(labels: seq<nat>, count: nat) returns (g: GraphLocal)
      requires Valid()
      requires |labels| == n && Labelling(labels, count)
      ensures count == 1 ==> g == this
      ensures count != 1 ==> var keep := KeptVertices(labels, MostCommon(labels), n);
        && fresh(g) && fresh(g.a) && g.Valid()
        && g.n == |keep|
        && g.Adj() == Induce(Adj(), keep)
        && g.weighted == weighted
      ensures Symmetric(Adj()) ==> Symmetric(g.Adj())
    {
      if count == 1 {
        return this;
      }
      var key := MostCommon(labels);
      var maxccnodes := CollectLabelled(labels, key);
      LargestComponentGraph(Adj(), labels);
      var sub := Induce(Adj(), maxccnodes);
      g := new GraphLocal();
      g.weighted := weighted;
      g.Store(sub);
    }
  }

  /** Loading positive, pairwise distinct edges and then `discard_weights`
      leaves the same store, flag and statistics as loading the same edges
      with unit weights. */
  method DiscardAfterLoad(source: seq<nat>, target: seq<nat>, weights: seq<real>) returns (g: GraphLocal, h: GraphLocal)
    requires WellFormed(EdgeList(source, target, weights))
    requires PositiveWeights(EdgeList(source, target, weights)) && DistinctEdges(EdgeList(source, target, weights))
    ensures g.Valid() && h.Valid()
    ensures h.Adj() == Build(UnitWeights(EdgeList(source, target, weights)))
    ensures g.Adj() == h.Adj() && g.weighted == h.weighted == false
    ensures g.d == h.d && g.dn == h.dn && g.volG == h.volG
  {
    var e := EdgeList(source, target, weights);
    var u := UnitWeights(e);
    g := new GraphLocal();
    var r := g.ListToGl(source, target, weights);
    g.DiscardWeights();
    UnitStoreIsUnitRebuild(e, g.Adj());
    ghost var discarded := g.Adj();
    h := new GraphLocal();
    r := h.ListToGl(u.src, u.tgt, u.w);
    DiscardMatchesUnitRebuild(e);
    assert g.Adj() == discarded;
  }

  /** The `maxccnodes` loop of `largest_component`: the vertices carrying
      label `key`, in increasing order. */
  method CollectLabelled(labels: seq<nat>, key: nat) returns (maxccnodes: seq<nat>)
    ensures maxccnodes == KeptVertices(labels, key, |labels|)
  {
    maxccnodes := [];
    var i := 0;
    while i < |labels|
      invariant 0 <= i <= |labels|
      invariant maxccnodes == KeptVertices(labels, key, i)
    {
      if key == labels[i] {
        maxccnodes := maxccnodes + [i];
      }
      i := i + 1;
    }
  }

  /** The fill loop of `discard_weights`: every element of `w` becomes 1.0. */
  method FillOnes(w: array<real>)
    modifies w
    ensures forall k :: 0 <= k < w.Length ==> w[k] == 1.0
  {
    var k := 0;
    while k < w.Length
      invariant 0 <= k <= w.Length
      invariant forall p :: 0 <= p < k ==> w[p] == 1.0
    {
      w[k] := 1.0;
      k := k + 1;
    }
  }

  /** The inner loop of `local_extrema` for vertex `i`: walks its stored
      neighbours and stops at the first one other than `i` whose scaled value
      beats `i`'s; the answer is whether none did. */
  method ScanRow(g: Csr, vals: seq<real>, strict: bool, reverse: bool, factor: real, i: nat) returns (lmin: bool)
    requires Valid(g) && |vals| >= g.n && i < g.n && factor == Factor(reverse)
    ensures lmin <==> IsLocalExtremum(g, vals, strict, reverse, i)
  {
    var vali := factor * vals[i];
    lmin := true;
    var nzi := g.ai[i];
    while nzi < g.ai[i + 1]
      invariant g.ai[i] <= nzi <= g.ai[i + 1]
      invariant lmin
      invariant forall k :: g.ai[i] <= k < nzi && g.aj[k] != i ==> Beats(vali, factor * vals[g.aj[k]], strict)
    {
      var v := g.aj[nzi];
      if v != i && !Beats(vali, factor * vals[v], strict) {
        lmin := false;
        break;
      }
      nzi := nzi + 1;
    }
  }

  /** A fresh data array holding `w`, as scipy allocates for a new matrix. */
  method NewData(w: seq<real>) returns (data: array<real>)
    ensures fresh(data) && data[..] == w
  {
    data := new real[|w|](k requires 0 <= k < |w| => w[k]);
  }
}
