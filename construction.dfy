/** Building the adjacency store from edge arrays (`list_to_gl`, and the same
    steps in `read_graph` once the file is parsed): the vertex count from the
    largest endpoint, duplicate edges summed into one cell, and an asymmetric
    matrix symmetrised by keeping, for each pair, the larger directed weight. */
module Construction {
  import opened Results
  import opened CsrMatrix

  /** The `source`, `target` and `weights` arrays. */
  datatype EdgeList = EdgeList(src: seq<nat>, tgt: seq<nat>, w: seq<real>)

  predicate WellFormed(e: EdgeList)
  {
    |e.src| > 0 && |e.tgt| == |e.src| && |e.w| == |e.src|
  }

  /** The weight column of an edge table with `src`, `tgt` and then `rest`
      columns: two columns mean unit weights, three give the weights, any
      other count is refused. */
  function ReadEdgeTable(src: seq<nat>, tgt: seq<nat>, rest: seq<seq<real>>): (r: Result<EdgeList>)
    requires |tgt| == |src|
    requires forall c :: 0 <= c < |rest| ==> |rest[c]| == |src|
    ensures r.Ok? <==> |rest| <= 1
    ensures r.Err? ==> r.error == BadColumnCount
    ensures r.Ok? ==> r.value.src == src && r.value.tgt == tgt && |r.value.w| == |src|
    ensures r.Ok? && |rest| == 0 ==> forall k :: 0 <= k < |src| ==> r.value.w[k] == 1.0
    ensures r.Ok? && |rest| == 1 ==> r.value.w == rest[0]
  {
    if |rest| == 0 then Ok(EdgeList(src, tgt, seq(|src|, _ => 1.0)))
    else if |rest| == 1 then Ok(EdgeList(src, tgt, rest[0]))
    else Err(BadColumnCount)
  }

  /** numpy's `max()` of a non-empty array. */
  function MaxOf(s: seq<nat>): (r: nat)
    requires |s| > 0
    ensures r in s
    ensures forall k :: 0 <= k < |s| ==> s[k] <= r
  {
    if |s| == 1 then s[0]
    else
      var m := MaxOf(s[..|s| - 1]);
      if s[|s| - 1] > m then s[|s| - 1] else m
  }

  /** `max(source.max() + 1, target.max() + 1)`: the least vertex count that
      covers every endpoint. */
  function NumVertices(src: seq<nat>, tgt: seq<nat>): (n: nat)
    requires |src| > 0 && |tgt| > 0
    ensures forall k :: 0 <= k < |src| ==> src[k] < n
    ensures forall k :: 0 <= k < |tgt| ==> tgt[k] < n
    ensures n > 0 && (n - 1 in src || n - 1 in tgt)
  {
    var a, b := MaxOf(src) + 1, MaxOf(tgt) + 1;
    if b > a then b else a
  }

  // ---- The matrix scipy assembles from the edge arrays ----

  function InputWeightUpTo(e: EdgeList, k: nat, i: nat, j: nat): real
    requires WellFormed(e) && k <= |e.src|
  {
    if k == 0 then 0.0
    else InputWeightUpTo(e, k - 1, i, j) + (if e.src[k - 1] == i && e.tgt[k - 1] == j then e.w[k - 1] else 0.0)
  }

  /** Cell (i, j) of the assembled matrix: repeated edges are summed. */
  function InputWeight(e: EdgeList, i: nat, j: nat): real
    requires WellFormed(e)
  {
    InputWeightUpTo(e, |e.src|, i, j)
  }

  /** Cell (i, j) is a stored entry of the assembled matrix. */
  predicate InputStored(e: EdgeList, i: nat, j: nat)
    requires WellFormed(e)
  {
    exists k :: 0 <= k < |e.src| && e.src[k] == i && e.tgt[k] == j
  }

  /** `_weighted`: some stored entry of the assembled matrix differs from 1. */
  predicate InputWeighted(e: EdgeList)
    requires WellFormed(e)
  {
    exists k :: 0 <= k < |e.src| && InputWeight(e, e.src[k], e.tgt[k]) != 1.0
  }

  /** `is_symmetric`: the assembled matrix equals its transpose. */
  predicate InputSymmetric(e: EdgeList, n: nat)
    requires WellFormed(e)
  {
    forall i, j :: 0 <= i < n && 0 <= j < n ==> InputWeight(e, i, j) == InputWeight(e, j, i)
  }

  /** `A - A.multiply(sel) + A.T.multiply(sel)` with `sel = A.T > A`, at cell (i, j). */
  function SymWeight(e: EdgeList, i: nat, j: nat): real
    requires WellFormed(e)
  {
    var wij, wji := InputWeight(e, i, j), InputWeight(e, j, i);
    if wji > wij then wji else wij
  }

  /** Whether cell (i, j) is a stored entry of the final matrix: a symmetric
      input is kept as assembled (explicit zeros included), while scipy's
      sparse arithmetic in the symmetrisation keeps only non-zero results. */
  predicate Keep(e: EdgeList, n: nat, i: nat, j: nat)
    requires WellFormed(e)
  {
    if InputSymmetric(e, n) then InputStored(e, i, j) else SymWeight(e, i, j) != 0.0
  }

  /** The stored entries of row `i` in columns below `j`, in increasing column order. */
  function RowUpTo(e: EdgeList, n: nat, i: nat, j: nat): seq<Entry>
    requires WellFormed(e)
  {
    if j == 0 then []
    else RowUpTo(e, n, i, j - 1) + (if Keep(e, n, i, j - 1) then [Entry(j - 1, SymWeight(e, i, j - 1))] else [])
  }

  /** The canonical CSR arrays of the symmetrised matrix. */
  function Build(e: EdgeList): Csr
    requires WellFormed(e)
  {
    var n := NumVertices(e.src, e.tgt);
    FromRows(seq(n, i requires 0 <= i < n => RowUpTo(e, n, i, n)))
  }

  // ---- Properties of the assembled input ----

  lemma {:induction false} InputWeightUpToAbsent(e: EdgeList, k: nat, i: nat, j: nat)
    requires WellFormed(e) && k <= |e.src|
    requires forall l :: 0 <= l < k ==> !(e.src[l] == i && e.tgt[l] == j)
    ensures InputWeightUpTo(e, k, i, j) == 0.0
  {
    if k > 0 {
      InputWeightUpToAbsent(e, k - 1, i, j);
    }
  }

  /** A cell no edge names weighs nothing. */
  lemma AbsentInputWeighsZero(e: EdgeList, i: nat, j: nat)
    requires WellFormed(e) && !InputStored(e, i, j)
    ensures InputWeight(e, i, j) == 0.0
  {
    InputWeightUpToAbsent(e, |e.src|, i, j);
  }

  lemma {:induction false} InputWeightUpToPositive(e: EdgeList, k: nat, i: nat, j: nat)
    requires WellFormed(e) && k <= |e.src|
    requires forall l :: 0 <= l < |e.w| ==> e.w[l] > 0.0
    ensures InputWeightUpTo(e, k, i, j) >= 0.0
    ensures (exists l :: 0 <= l < k && e.src[l] == i && e.tgt[l] == j) ==> InputWeightUpTo(e, k, i, j) > 0.0
  {
    if k > 0 {
      InputWeightUpToPositive(e, k - 1, i, j);
    }
  }

  /** With positive weights, a cell is stored exactly when it weighs something. */
  lemma StoredIffPositive(e: EdgeList, i: nat, j: nat)
    requires WellFormed(e)
    requires forall l :: 0 <= l < |e.w| ==> e.w[l] > 0.0
    ensures InputWeight(e, i, j) >= 0.0
    ensures InputStored(e, i, j) <==> InputWeight(e, i, j) > 0.0
  {
    InputWeightUpToPositive(e, |e.src|, i, j);
    if !InputStored(e, i, j) {
      AbsentInputWeighsZero(e, i, j);
    }
  }

  // ---- Properties of the rows ----

  lemma {:induction false} RowUpToColumns(e: EdgeList, n: nat, i: nat, j: nat)
    requires WellFormed(e)
    ensures Increasing(Columns(RowUpTo(e, n, i, j)))
    ensures forall p :: 0 <= p < |RowUpTo(e, n, i, j)| ==> RowUpTo(e, n, i, j)[p].col < j
    ensures forall c: nat :: c in Columns(RowUpTo(e, n, i, j)) <==> c < j && Keep(e, n, i, c)
  {
    if j > 0 {
      RowUpToColumns(e, n, i, j - 1);
      var pre, row := RowUpTo(e, n, i, j - 1), RowUpTo(e, n, i, j);
      assert row[..|pre|] == pre;
      assert Columns(row)[..|pre|] == Columns(pre);
      forall c: nat ensures c in Columns(row) <==> c < j && Keep(e, n, i, c) {
        if Keep(e, n, i, j - 1) {
          assert Columns(row) == Columns(pre) + [j - 1];
        } else {
          assert Columns(row) == Columns(pre);
        }
      }
    }
  }

  lemma {:induction false} RowUpToWeight(e: EdgeList, n: nat, i: nat, j: nat, c: nat)
    requires WellFormed(e)
    ensures EntryWeight(RowUpTo(e, n, i, j), c) == if c < j && Keep(e, n, i, c) then SymWeight(e, i, c) else 0.0
  {
    if j > 0 {
      RowUpToWeight(e, n, i, j - 1, c);
      var pre, row := RowUpTo(e, n, i, j - 1), RowUpTo(e, n, i, j);
      if Keep(e, n, i, j - 1) {
        assert row[..|row| - 1] == pre;
      } else {
        assert row == pre;
      }
    }
  }

  /** Where nothing is stored, the symmetrised weight is zero. */
  lemma UnkeptWeighsZero(e: EdgeList, n: nat, i: nat, j: nat)
    requires WellFormed(e) && i < n && j < n && !Keep(e, n, i, j)
    ensures SymWeight(e, i, j) == 0.0
  {
    if InputSymmetric(e, n) {
      AbsentInputWeighsZero(e, i, j);
    }
  }

  // ---- Properties of the built graph ----

  /** The built arrays are canonical CSR over `max(max source, max target) + 1`
      vertices, row `i` holding the kept cells of row `i` in column order. */
  lemma BuildShape(e: EdgeList)
    requires WellFormed(e)
    ensures Canonical(Build(e))
    ensures Build(e).n == NumVertices(e.src, e.tgt)
    ensures forall i :: 0 <= i < Build(e).n ==>
      Row(Build(e), i) == RowUpTo(e, Build(e).n, i, Build(e).n)
  {
    var n := NumVertices(e.src, e.tgt);
    var rows: seq<seq<Entry>> := seq(n, i requires 0 <= i < n => RowUpTo(e, n, i, n));
    forall i | 0 <= i < n ensures forall p :: 0 <= p < |rows[i]| ==> rows[i][p].col < n {
      RowUpToColumns(e, n, i, n);
    }
    FromRowsRows(rows);
    var g := Build(e);
    forall i | 0 <= i < n ensures Increasing(Cols(g, i)) {
      RowUpToColumns(e, n, i, n);
      RowColumns(g, i);
    }
  }

  /** After construction W'(i, j) = max(W(i, j), W(j, i)), where W sums the
      input edges of each cell. */
  lemma BuildWeight(e: EdgeList, i: nat, j: nat)
    requires WellFormed(e)
    requires i < NumVertices(e.src, e.tgt) && j < NumVertices(e.src, e.tgt)
    ensures Valid(Build(e))
    ensures Weight(Build(e), i, j) >= InputWeight(e, i, j)
    ensures Weight(Build(e), i, j) >= InputWeight(e, j, i)
    ensures Weight(Build(e), i, j) == InputWeight(e, i, j) || Weight(Build(e), i, j) == InputWeight(e, j, i)
  {
    var n := NumVertices(e.src, e.tgt);
    BuildShape(e);
    RowUpToWeight(e, n, i, n, j);
    if !Keep(e, n, i, j) {
      UnkeptWeighsZero(e, n, i, j);
    }
  }

  /** Where W(i, j) >= W(j, i) the stored entry keeps its input weight. */
  lemma BuildKeepsDominantEntry(e: EdgeList, i: nat, j: nat)
    requires WellFormed(e)
    requires i < NumVertices(e.src, e.tgt) && j < NumVertices(e.src, e.tgt)
    requires InputWeight(e, i, j) >= InputWeight(e, j, i)
    ensures Valid(Build(e)) && Weight(Build(e), i, j) == InputWeight(e, i, j)
  {
    BuildWeight(e, i, j);
  }

  /** The built matrix equals its transpose (the assertion after symmetrising). */
  lemma BuildSymmetric(e: EdgeList)
    requires WellFormed(e)
    ensures Symmetric(Build(e))
  {
    BuildShape(e);
    var g := Build(e);
    forall i, j | 0 <= i < g.n && 0 <= j < g.n ensures Weight(g, i, j) == Weight(g, j, i) {
      BuildWeight(e, i, j);
      BuildWeight(e, j, i);
    }
  }

  /** Column `j` is stored in row `i` exactly for the kept cells. */
  lemma BuildStored(e: EdgeList, i: nat, j: nat)
    requires WellFormed(e) && i < NumVertices(e.src, e.tgt)
    ensures Valid(Build(e))
    ensures j in Cols(Build(e), i) <==> j < NumVertices(e.src, e.tgt) && Keep(e, NumVertices(e.src, e.tgt), i, j)
  {
    var n := NumVertices(e.src, e.tgt);
    BuildShape(e);
    RowUpToColumns(e, n, i, n);
    RowColumns(Build(e), i);
  }

  /** With positive weights, `j` is stored in row `i` exactly when an input
      edge joins `i` and `j` in either direction; so stored entries come in
      pairs (i, j), (j, i). */
  lemma BuildNeighborsFromInput(e: EdgeList, i: nat, j: nat)
    requires WellFormed(e)
    requires forall l :: 0 <= l < |e.w| ==> e.w[l] > 0.0
    requires i < NumVertices(e.src, e.tgt) && j < NumVertices(e.src, e.tgt)
    ensures Valid(Build(e))
    ensures j in Cols(Build(e), i) <==> InputStored(e, i, j) || InputStored(e, j, i)
    ensures j in Cols(Build(e), i) <==> i in Cols(Build(e), j)
  {
    var n := NumVertices(e.src, e.tgt);
    BuildStored(e, i, j);
    BuildStored(e, j, i);
    StoredIffPositive(e, i, j);
    StoredIffPositive(e, j, i);
    if InputSymmetric(e, n) {
      assert InputWeight(e, i, j) == InputWeight(e, j, i);
    }
  }

  // ---- Discarding the weights against rebuilding with unit weights ----

  /** The same edges, each of weight 1 (`list_to_gl` with unit weights). */
  function UnitWeights(e: EdgeList): (u: EdgeList)
    ensures u.src == e.src && u.tgt == e.tgt && |u.w| == |e.src|
    ensures forall k :: 0 <= k < |u.w| ==> u.w[k] == 1.0
  {
    EdgeList(e.src, e.tgt, seq(|e.src|, _ => 1.0))
  }

  predicate PositiveWeights(e: EdgeList)
  {
    forall l :: 0 <= l < |e.w| ==> e.w[l] > 0.0
  }

  /** No two edges join the same ordered pair. */
  predicate DistinctEdges(e: EdgeList)
    requires WellFormed(e)
  {
    forall k, l :: 0 <= k < l < |e.src| ==> !(e.src[k] == e.src[l] && e.tgt[k] == e.tgt[l])
  }

  lemma {:induction false} UnitWeightUpTo(e: EdgeList, k: nat, i: nat, j: nat)
    requires WellFormed(e) && DistinctEdges(e) && k <= |e.src|
    ensures InputWeightUpTo(UnitWeights(e), k, i, j) ==
      if exists l :: 0 <= l < k && e.src[l] == i && e.tgt[l] == j then 1.0 else 0.0
  {
    if k > 0 {
      UnitWeightUpTo(e, k - 1, i, j);
    }
  }

  /** With distinct edges of weight 1, a cell weighs 1 where an edge names it and 0 elsewhere. */
  lemma UnitInputWeight(e: EdgeList, i: nat, j: nat)
    requires WellFormed(e) && DistinctEdges(e)
    ensures InputWeight(UnitWeights(e), i, j) == if InputStored(e, i, j) then 1.0 else 0.0
  {
    UnitWeightUpTo(e, |e.src|, i, j);
  }

  /** With positive weights a cell is kept exactly when an edge joins its
      ends in either direction, whether or not the input was symmetric. */
  lemma KeepPositive(e: EdgeList, n: nat, i: nat, j: nat)
    requires WellFormed(e) && PositiveWeights(e) && i < n && j < n
    ensures Keep(e, n, i, j) <==> InputStored(e, i, j) || InputStored(e, j, i)
  {
    StoredIffPositive(e, i, j);
    StoredIffPositive(e, j, i);
  }

  lemma {:induction false} UnitRowUpTo(e: EdgeList, n: nat, i: nat, j: nat)
    requires WellFormed(e) && PositiveWeights(e) && DistinctEdges(e) && i < n && j <= n
    ensures RowUpTo(UnitWeights(e), n, i, j) == UnitRow(RowUpTo(e, n, i, j))
  {
    if j > 0 {
      var u := UnitWeights(e);
      UnitRowUpTo(e, n, i, j - 1);
      KeepPositive(e, n, i, j - 1);
      KeepPositive(u, n, i, j - 1);
      assert InputStored(u, i, j - 1) == InputStored(e, i, j - 1);
      assert InputStored(u, j - 1, i) == InputStored(e, j - 1, i);
      UnitInputWeight(e, i, j - 1);
      UnitInputWeight(e, j - 1, i);
      var pre, last := RowUpTo(e, n, i, j - 1), if Keep(e, n, i, j - 1) then [Entry(j - 1, SymWeight(e, i, j - 1))] else [];
      assert UnitRow(pre + last) == UnitRow(pre) + UnitRow(last);
    }
  }

  /** `discard_weights` after building from positive, pairwise distinct edges
      leaves exactly the store the same edges give with unit weights: the
      same vertex count and index arrays, every stored weight 1, and the
      rebuilt graph unweighted. */
  lemma DiscardMatchesUnitRebuild(e: EdgeList)
    requires WellFormed(e) && PositiveWeights(e) && DistinctEdges(e)
    ensures Build(UnitWeights(e)) == Build(e).(a := Build(UnitWeights(e)).a)
    ensures forall k :: 0 <= k < |Build(UnitWeights(e)).a| ==> Build(UnitWeights(e)).a[k] == 1.0
    ensures !InputWeighted(UnitWeights(e))
  {
    var u := UnitWeights(e);
    var n := NumVertices(e.src, e.tgt);
    var rows: seq<seq<Entry>> := seq(n, i requires 0 <= i < n => RowUpTo(e, n, i, n));
    forall i | 0 <= i < n ensures RowUpTo(u, n, i, n) == UnitRows(rows)[i] {
      UnitRowUpTo(e, n, i, n);
    }
    assert seq(n, i requires 0 <= i < n => RowUpTo(u, n, i, n)) == UnitRows(rows);
    FromUnitRows(rows);
    forall k | 0 <= k < |u.src| ensures InputWeight(u, u.src[k], u.tgt[k]) == 1.0 {
      UnitInputWeight(e, e.src[k], e.tgt[k]);
    }
  }

  /** A store with the index arrays built from `e` and every weight 1 is the
      store built from `e` with unit weights. */
  lemma UnitStoreIsUnitRebuild(e: EdgeList, g: Csr)
    requires WellFormed(e) && PositiveWeights(e) && DistinctEdges(e)
    requires g.n == Build(e).n && g.ai == Build(e).ai && g.aj == Build(e).aj
    requires |g.a| == |g.aj| && forall k :: 0 <= k < |g.a| ==> g.a[k] == 1.0
    ensures g == Build(UnitWeights(e))
  {
    DiscardMatchesUnitRebuild(e);
    BuildShape(UnitWeights(e));
    assert g.a == Build(UnitWeights(e)).a;
  }

  /** Two edges 0 -> 1 of weight 2. */
  function RepeatedEdges(): EdgeList
  {
    EdgeList([0, 0], [1, 1], [2.0, 2.0])
  }

  /** Repeated edges break that agreement: the two edges 0 -> 1, rebuilt with
      unit weights, store weight 2, where discarding the weights stores 1. */
  lemma RepeatedEdgesRebuildHeavier()
    ensures Valid(Build(UnitWeights(RepeatedEdges())))
    ensures Build(UnitWeights(RepeatedEdges())).n == 2
    ensures Weight(Build(UnitWeights(RepeatedEdges())), 0, 1) == 2.0
  {
    var u := UnitWeights(RepeatedEdges());
    assert u.w == [1.0, 1.0];
    assert NumVertices(u.src, u.tgt) == 2;
    BuildShape(u);
    BuildKeepsDominantEntry(u, 0, 1);
  }
}
