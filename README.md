# GraphLocal: a verified model of the CSR graph core

`GraphLocal` is the graph object of the `localgraphclustering` library. It
stores an undirected weighted graph as a compressed sparse row (CSR) matrix:
`ai` holds the row offsets, `aj` the column indices and the data array the
weights. It also keeps the statistics the clustering routines read: the
degrees `d`, the guarded reciprocal degrees `dn`, the volume `vol_G` and the
`_weighted` flag. This project models the operations that build, change and
read that store, and proves what they promise.

The modules follow the program's structure:

- `Results`: the error kinds and the `Result` and `Outcome` types that stand for the Python exceptions.
- `Sums`: left-to-right sums: plain sums, sums over a list of indices, dot products.
- `CsrMatrix`: the CSR value `Csr` and its validity predicate.
  - `Canonical` adds strictly increasing columns in every row.
  - The abstraction `Weight(g, i, j)` is the weight matrix the store represents.
  - `FromRows` assembles a store from a list of rows.
- `Construction`: what `list_to_gl` (and `read_graph` after parsing) builds from the edge arrays.
  - The vertex count comes from the largest endpoint.
  - Duplicate edges are summed into one cell.
  - An asymmetric matrix is symmetrised by keeping the larger directed weight of each pair.
  - Discarding the weights of a built store is compared with rebuilding from the same edges with unit weights.
- `Statistics`: `compute_statistics` without the square-root fields.
- `Scoring`: the reference path of `set_scores`, `compute_conductance`, and a row-iterating cut proved equal to the quadratic form.
- `Extrema`: what the `local_extrema` scan returns.
- `Components`: `is_disconnected`'s count test, `Counter.most_common(1)`, the kept-vertex list and the induced subgraph of `largest_component`.
- `GraphLocalModel`: the class `GraphLocal`.
  - Its fields are the store, the flag and the statistics.
  - `ListToGl`, `DiscardWeights` (fills the data array in place), `ComputeStatistics`, `LocalExtrema` (the nested scan with its early `break`) and `LargestComponent` are methods proved against the functions above.

Weights are `real`: float64 arithmetic is treated as exact. Vertex ids are `nat`.

Where the code and its documentation differ, the model follows the code:

- The tie among equally frequent component labels is decided by `Counter.most_common(1)`: the label that appears first in the label array wins.
- `local_extrema` with `reverse=True` returns the original values of the maxima, not the negated ones.
- A vertex id repeated in `R` counts as often as it occurs in `set_scores`' volume and size, but only once in its quadratic form.
- Duplicate edges in the input are summed, as the sparse-matrix assembly does, rather than assumed absent.
- `discard_weights` is documented as the no-weight case of the same graph, but it does not always give the graph the same edges build with unit weights. It matches that graph when the edges have positive weights and no ordered pair repeats (DiscardMatchesUnitRebuild). A repeated edge is summed, so two unit edges 0 -> 1 rebuild to weight 2 where discarding stores 1 (RepeatedEdgesRebuildHeavier). A zero or negative weight changes which cells are stored.
- The Returns section of `is_disconnected`'s docstring pairs True with "connected" and False with "disconnected". The code (:431-436) returns True when there is more than one component, and `IsDisconnected` models the code.
- Only the weights of the built graph are symmetric (BuildSymmetric), not its stored pattern. A symmetric input keeps its explicit zeros, so a one-way edge of weight 0 stays stored at (i,j) with nothing stored at (j,i): `Build(EdgeList([0],[1],[0.0]))` is `Csr(2,[0,1,1],[1],[0.0])`. So the documented symmetry invariant, that every stored (u,v,w) has a stored (v,u,w), does not hold for the code.

## Model

| member | source | states |
|---|---|---|
| Construction.ReadEdgeTable | localgraphclustering/GraphLocal.py:185-190 | a two-column table gets unit weights, a three-column one its third column, any other column count is an error |
| Construction.MaxOf | localgraphclustering/GraphLocal.py:300 | the maximum of a non-empty id array is one of its elements and bounds all of them |
| Construction.NumVertices | localgraphclustering/GraphLocal.py:300 | the vertex count exceeds every source and target id, and n−1 is one of them (the least such count) |
| Construction.StoredIffPositive | localgraphclustering/GraphLocal.py:301 | with positive edge weights, a cell of the assembled matrix is stored exactly when its summed weight is positive, and every cell's summed weight is non-negative |
| Construction.InputWeight | localgraphclustering/GraphLocal.py:301 | cell (i,j) of the assembled matrix: the weights of all edges from i to j summed; a definition, whose meaning is stated by AbsentInputWeighsZero (no such edge gives 0), StoredIffPositive and BuildWeight |
| Construction.AbsentInputWeighsZero | localgraphclustering/GraphLocal.py:301 | a cell that no edge names weighs 0 in the assembled matrix |
| Construction.InputStored | localgraphclustering/GraphLocal.py:301 | the stored pattern of the assembled matrix: cell (i,j) is stored when some edge goes from i to j; a definition, whose meaning is stated by AbsentInputWeighsZero (an unstored cell weighs 0), StoredIffPositive and BuildStored |
| Construction.InputWeighted | localgraphclustering/GraphLocal.py:302-306 | `_weighted` holds exactly when some stored entry of the assembled matrix (duplicates summed, before symmetrisation) differs from 1; a definition, whose value ListToGl's contract assigns to the flag |
| Construction.InputSymmetric | localgraphclustering/GraphLocal.py:307 | `is_symmetric`: the assembled matrix equals its transpose on every cell; a definition, whose consequence for the stored pattern is BuildStored |
| Construction.SymWeight | localgraphclustering/GraphLocal.py:310-311 | `A - A.multiply(sel) + A.T.multiply(sel)` at cell (i,j); a definition, whose meaning (the larger of the two directed weights) is stated by BuildWeight and BuildKeepsDominantEntry |
| Construction.Keep | localgraphclustering/GraphLocal.py:301-316 | whether cell (i,j) is stored after symmetrisation; a definition, whose meaning is stated by BuildStored, and whose unkept cells weigh 0 by UnkeptWeighsZero |
| Construction.UnkeptWeighsZero | localgraphclustering/GraphLocal.py:307-316 | a cell that is not kept after symmetrisation has symmetrised weight 0, so dropping it loses no weight |
| Construction.Build | localgraphclustering/GraphLocal.py:301-317 | the final CSR arrays of `list_to_gl`: row i holds the kept cells of the symmetrised matrix in column order; a definition, whose contract is stated by BuildShape, BuildWeight, BuildKeepsDominantEntry, BuildSymmetric, BuildStored and BuildNeighborsFromInput |
| Construction.BuildShape | localgraphclustering/GraphLocal.py:299-317 | the built store is canonical CSR over NumVertices vertices, and each row holds the kept columns in increasing order with their symmetrised weights |
| Construction.BuildWeight | localgraphclustering/GraphLocal.py:307-312 | every built weight W'(i,j) is at least both directed input weights and equals one of them (the maximum) |
| Construction.BuildKeepsDominantEntry | localgraphclustering/GraphLocal.py:307-312 | where the input weight W(i,j) is at least W(j,i), the built weight is W(i,j) unchanged |
| Construction.BuildSymmetric | localgraphclustering/GraphLocal.py:307-313 | the built weight matrix is symmetric |
| Construction.BuildStored | localgraphclustering/GraphLocal.py:307-316 | column j is stored in row i exactly when j < n and the cell is kept: a symmetric input keeps its own stored cells, an asymmetric one keeps the non-zero maxima |
| Construction.BuildNeighborsFromInput | localgraphclustering/GraphLocal.py:299-317 | with positive edge weights, j is stored in row i exactly when an input edge joins i and j in either direction, exactly when i is stored in row j |
| CsrMatrix.Valid | localgraphclustering/GraphLocal.py:301-317 | the shape of `indptr`, `indices` and `data`: n+1 non-decreasing offsets from 0 to the entry count, one weight per column index, every column below n; a definition, established for every built and induced store by FromRowsRows, BuildShape and InduceShape, and kept by GraphLocal.Valid |
| CsrMatrix.Canonical | localgraphclustering/GraphLocal.py:301-317 | scipy's canonical CSR: valid, and the columns of each row strictly increasing; a definition, established by BuildShape and InduceCanonical and kept by ReweightedCanonical |
| CsrMatrix.ReweightedCanonical | localgraphclustering/GraphLocal.py:323 | replacing the stored weights and nothing else, as `data.fill(1.0)` does, keeps a store canonical |
| CsrMatrix.Weight | localgraphclustering/GraphLocal.py:301-317 | the matrix `adjacency_matrix` denotes: W(i,j) the weight stored at column j of row i, 0 where nothing is stored; a definition, whose meaning is stated by EntryWeightAbsent, BuildWeight and InducedWeight |
| CsrMatrix.RowColumns | localgraphclustering/GraphLocal.py:316-317 | the columns and weights of row i are the slices aj[ai[i]..ai[i+1]] and data[ai[i]..ai[i+1]] |
| CsrMatrix.EntryWeightAbsent | localgraphclustering/GraphLocal.py:316-317 | a column not stored in a row has weight 0 there |
| CsrMatrix.FromRowsRows | localgraphclustering/GraphLocal.py:541 | assembling rows whose columns are below their count yields a valid store whose row i is exactly the i-th given row |
| CsrMatrix.FromUnitRows | localgraphclustering/GraphLocal.py:323 | assembling rows with every weight set to 1 gives the same index arrays as assembling the rows themselves, with every stored weight 1 |
| Construction.UnitWeights | localgraphclustering/GraphLocal.py:299-317 | the same edge arrays with every weight 1; a definition, whose rebuilt store is stated by DiscardMatchesUnitRebuild |
| Construction.UnitInputWeight | localgraphclustering/GraphLocal.py:301 | with no repeated ordered pair and unit weights, a cell of the assembled matrix weighs 1 where an edge names it and 0 elsewhere |
| Construction.KeepPositive | localgraphclustering/GraphLocal.py:307-316 | with positive weights, a cell is stored after symmetrisation exactly when an edge joins its ends in either direction, whether or not the input was symmetric |
| Construction.DiscardMatchesUnitRebuild | localgraphclustering/GraphLocal.py:319-325 | for positive edge weights with no repeated ordered pair, the built store with its weights replaced by 1 is the store built from the same edges with unit weights, and that rebuilt graph is unweighted |
| Construction.UnitStoreIsUnitRebuild | localgraphclustering/GraphLocal.py:319-325 | under the same conditions, any store with the built index arrays and every weight 1 is the unit-weight rebuild |
| Construction.RepeatedEdgesRebuildHeavier | localgraphclustering/GraphLocal.py:301 | two edges 0 -> 1, rebuilt with unit weights, weigh 2 at (0,1), so discarding weights (which stores 1) differs from a unit rebuild when edges repeat |
| Statistics.Degrees | localgraphclustering/GraphLocal.py:333 | one degree per vertex, d[i] the sum of row i's stored weights; its totals are stated by DegreesPrefix, VolumeIsTotalWeight and UnitWeightStatistics |
| Statistics.InvDegrees | localgraphclustering/GraphLocal.py:334-335 | dn[i]·d[i] = 1 where d[i] ≠ 0, and dn[i] = 0 where d[i] = 0 |
| Statistics.DegreesPrefix | localgraphclustering/GraphLocal.py:333 | the degrees of rows below p sum to the weights stored in those rows, data[..ai[p]] |
| Statistics.VolumeIsTotalWeight | localgraphclustering/GraphLocal.py:333-338 | vol_G, the sum of the degrees, equals the sum of all stored weights |
| Statistics.UnitWeightStatistics | localgraphclustering/GraphLocal.py:323-325 | when every stored weight is 1, d[i] = ai[i+1] − ai[i] and the volume is the number of stored entries |
| Statistics.NonNegativeStatistics | localgraphclustering/GraphLocal.py:333-338 | non-negative weights give non-negative degrees and a non-negative volume |
| Scoring.Scores | localgraphclustering/GraphLocal.py:496-517 | the record `set_scores` returns, its `locals()`: voltrue, cut, voleff, sizetrue, sizeeff, edgestrue, edgeseff, cond and isop; a definition, whose fields are related by DeriveScores and SetScores |
| Scoring.SetScores | localgraphclustering/GraphLocal.py:484-517 | scores exist exactly when every id of R is a vertex (an index error otherwise), with sizetrue = \|R\|, voleff the smaller of voltrue and vol_G − voltrue, sizeeff = n − \|R\| exactly when voleff < voltrue, edgestrue + cut = voltrue, edgeseff + cut = voleff, cond·voleff = cut and isop·sizeeff = cut, with 1 on a zero denominator |
| Scoring.DeriveScores | localgraphclustering/GraphLocal.py:496-514 | from a volume and cut, the derived fields: voleff the smaller of voltrue and vol_G − voltrue, sizeeff the complement's size exactly when the complement is the smaller side, edgestrue + cut = voltrue, edgeseff + cut = voleff, cond·voleff = cut and isop·sizeeff = cut with 1 on a zero denominator |
| Scoring.ComputeConductance | localgraphclustering/GraphLocal.py:475-482 | the conductance is the cond field of set_scores, and fails exactly when set_scores does |
| Scoring.Indicator | localgraphclustering/GraphLocal.py:493-494 | `v_ones_R`, one entry per vertex; a definition, whose meaning is stated by RowDotIndicator and DotIndicator |
| Scoring.MatVec | localgraphclustering/GraphLocal.py:495 | `adjacency_matrix.dot(x)`, one entry per vertex; a definition, whose meaning on the indicator is stated by RowDotIndicator and VolumeMinusInner |
| Scoring.RowDotIndicator | localgraphclustering/GraphLocal.py:493-495 | the product of a row with `v_ones_S` is the weight of that row's stored entries whose column is in S |
| Scoring.DotIndicator | localgraphclustering/GraphLocal.py:493-495 | the dot product of `v_ones_R` with y, over the first p positions, is the sum of y over the indices below p that occur in R, each once |
| Scoring.VolumeMinusInner | localgraphclustering/GraphLocal.py:492-495 | the degree sum over R minus the sum over R of (A·1_S) is the weight of the stored entries from R's rows to columns outside S |
| Sums.SumAt | localgraphclustering/GraphLocal.py:492 | `sum(d[R])`, repeats counted; a definition, whose meaning for duplicate-free R is stated by VolumeOfSet |
| Scoring.VolumeOfSet | localgraphclustering/GraphLocal.py:492 | for duplicate-free R, voltrue is the total degree of the vertices in R |
| Scoring.QuadraticForm | localgraphclustering/GraphLocal.py:493-495 | for duplicate-free R, 1_Rᵀ A 1_R is the sum over v in R of (A 1_R)[v] |
| Scoring.BoundaryWeight | localgraphclustering/GraphLocal.py:490 | the row-iterating cut standing in for `set_scores_cpp`: the weight of the stored entries of the rows of R whose column is outside S; a definition, whose agreement with the reference cut is CutIsBoundaryWeight |
| Scoring.CutIsBoundaryWeight | localgraphclustering/GraphLocal.py:488-495 | for current degrees and duplicate-free R, the quadratic-form cut equals the row-iterating cut: the weight of stored entries from R to vertices outside R |
| Scoring.CutBounds | localgraphclustering/GraphLocal.py:488-495 | with non-negative weights and duplicate-free R, 0 ≤ cut ≤ voltrue |
| Scoring.BoundaryBelowVolume | localgraphclustering/GraphLocal.py:488-495 | with non-negative weights, the weight leaving R is at most R's volume |
| Scoring.BoundaryOfWholeSet | localgraphclustering/GraphLocal.py:488-495 | no stored entry leaves the set of all vertices |
| Scoring.WholeSetCutAndVolume | localgraphclustering/GraphLocal.py:488-495 | for R listing every vertex once, against current statistics, whatever the signs of the weights: cut = 0 and voltrue = vol_G |
| Scoring.WholeSetScores | localgraphclustering/GraphLocal.py:488-514 | for R listing every vertex once, against current statistics (d the row sums, vol_G their total) and with non-negative weights: voleff = 0 and cond = 1 |
| Scoring.EmptySetScores | localgraphclustering/GraphLocal.py:488-514 | for the empty set: when vol_G ≥ 0 every field is 0 except cond = isop = 1; when vol_G < 0 the effective side is the complement (voleff = edgeseff = vol_G, sizeeff = n), cond = 0, and isop = 0 (1 when n = 0) |
| Scoring.PathGraphExample | localgraphclustering/GraphLocal.py:484-517 | on the unit-weight path 0–1–2–3 the set {0,1} has volume 3, cut 1, sizeeff 2, cond 1/3 and isop 1/2 |
| Scoring.PathGraphBuilt | localgraphclustering/GraphLocal.py:299-317 | construction from the edge arrays 0→1, 1→2, 2→3 of weight 1 symmetrises them into exactly the CSR arrays of the unit-weight path 0–1–2–3 |
| Scoring.PathEdgesExample | localgraphclustering/GraphLocal.py:484-517 | on the graph built from those edge arrays, the set {0,1} scores volume 3, cut 1, sizeeff 2, cond 1/3 and isop 1/2 |
| Extrema.Factor | localgraphclustering/GraphLocal.py:587-589 | `factor`, −1 when reverse and 1 otherwise; a definition, whose effect is stated by ReverseIsNegatedScan |
| Extrema.Scan | localgraphclustering/GraphLocal.py:614-616 | the pair `minverts, minvals` that `local_extrema` returns; a definition, whose contents are stated by GraphLocal.LocalExtrema and ValuesAt |
| Extrema.IsLocalExtremum | localgraphclustering/GraphLocal.py:590-610 | the final `lmin` for vertex i: factor·vals[i] beats factor·vals[j] (strictly when strict) for every stored neighbour j other than i; a definition, which ScanRow proves the early-break loop computes and ExtremaMembership ties to the returned list |
| Extrema.ExtremaUpTo | localgraphclustering/GraphLocal.py:590-612 | the vertices below p that the scan keeps, in scan order, each below p; which vertices they are is stated by ExtremaMembership |
| Extrema.ExtremaMembership | localgraphclustering/GraphLocal.py:583-612 | the returned vertices are strictly increasing, and i is returned exactly when factor·vals[i] ≤ factor·vals[j] (or < when strict) for every stored neighbour j ≠ i |
| Extrema.ValuesAt | localgraphclustering/GraphLocal.py:614 | minvals[k] = vals[minverts[k]] |
| Extrema.IsolatedVertexQualifies | localgraphclustering/GraphLocal.py:583-612 | a vertex whose only stored neighbour is itself (or none) is always returned |
| Extrema.ReverseIsNegatedScan | localgraphclustering/GraphLocal.py:587-614 | reverse=True returns the vertices of the reverse=False scan of the negated values, with values that are the negation of that scan's |
| Extrema.ConstantValuesAllQualify | localgraphclustering/GraphLocal.py:583-612 | with equal values everywhere, the non-strict scan returns every vertex |
| Extrema.StrictWithinNonStrict | localgraphclustering/GraphLocal.py:590-604 | every strict extremum is also a non-strict one |
| Components.Labelling | localgraphclustering/GraphLocal.py:401-404 | what `connected_components` stores: every vertex's label is below the component count and every label below it is used; a definition, whose consequence is DisconnectedIffLabelsDiffer and which LargestComponent requires of its labels |
| Components.IsDisconnected | localgraphclustering/GraphLocal.py:431 | the count test of `is_disconnected`, more than one component; its meaning for a labelling is DisconnectedIffLabelsDiffer |
| Components.DisconnectedIffLabelsDiffer | localgraphclustering/GraphLocal.py:431-436 | for a labelling using every label below the count, the graph is disconnected exactly when two vertices carry different labels |
| Components.Count | localgraphclustering/GraphLocal.py:526 | the `Counter` entry of a label: its number of occurrences; a definition, whose meaning is stated by CountAbsent, MostCommonSpec and KeptVerticesSpec |
| Components.CountAbsent | localgraphclustering/GraphLocal.py:526 | a label that does not occur has count 0 |
| Components.MostCommon | localgraphclustering/GraphLocal.py:526-528 | `Counter(labels).most_common(1)[0][0]` as a scan that replaces its choice only on a strictly larger count; its contract is MostCommonSpec |
| Components.MostCommonSpec | localgraphclustering/GraphLocal.py:526-528 | most_common(1) picks a label that occurs, no label occurs more often, and among equally frequent labels it is the one appearing first |
| Components.KeptVertices | localgraphclustering/GraphLocal.py:529-531 | `maxccnodes` up to p: every listed vertex is below p; membership, order and length are stated by KeptVerticesSpec |
| Components.KeptVerticesSpec | localgraphclustering/GraphLocal.py:529-531 | the kept list is strictly increasing, holds exactly the vertices carrying the chosen label, and its length is that label's count |
| Components.IndexOf | localgraphclustering/GraphLocal.py:541 | the new id of a kept vertex is its first position in the kept list |
| Components.RestrictRowWeight | localgraphclustering/GraphLocal.py:541 | restricting a row to the kept vertices gives new column p the weight the row had at column keep[p] |
| Components.Induce | localgraphclustering/GraphLocal.py:541 | `A[keep,:][:,keep]` as CSR arrays; its contract is stated by InduceShape, InduceCanonical, InducedWeight and InduceSymmetric |
| Components.InduceShape | localgraphclustering/GraphLocal.py:541-542 | the induced store is valid with n = \|keep\| and row p is row keep[p] restricted and relabelled |
| Components.InduceCanonical | localgraphclustering/GraphLocal.py:541 | inducing a canonical store on an increasing kept list gives a canonical store |
| Components.InducedWeight | localgraphclustering/GraphLocal.py:541 | the induced weights are W restricted to the kept vertices, relabelled in order: W'(p,q) = W(keep[p], keep[q]) |
| Components.InduceSymmetric | localgraphclustering/GraphLocal.py:541 | the subgraph induced by a symmetric graph on an increasing vertex list is symmetric |
| Components.LargestComponentGraph | localgraphclustering/GraphLocal.py:524-542 | the graph induced on the vertices carrying the most common label is canonical, non-empty, has one vertex per kept vertex, and is symmetric when the original is |
| GraphLocalModel.GraphLocal.Valid | localgraphclustering/GraphLocal.py:314-338 | a loaded graph object: at least one vertex, canonical CSR arrays, `_num_edges` the number of stored entries, and d, dn and vol_G computed from the current store; a definition, established by ListToGl and Store and kept by DiscardWeights and LargestComponent |
| GraphLocalModel.GraphLocal.constructor | localgraphclustering/GraphLocal.py:113-130 | a graph object with nothing loaded: no vertices, no entries, unweighted |
| GraphLocalModel.GraphLocal.ComputeStatistics | localgraphclustering/GraphLocal.py:327-338 | d becomes the row sums of the current store, dn their guarded reciprocals and vol_G their sum; nothing else changes |
| GraphLocalModel.GraphLocal.Store | localgraphclustering/GraphLocal.py:314-317 | the shared tail of `list_to_gl` and `largest_component` (:543-551): the store becomes the given canonical CSR arrays in a fresh data array, the edge count the number of stored entries, the statistics current, `_weighted` untouched |
| GraphLocalModel.GraphLocal.ListToGl | localgraphclustering/GraphLocal.py:269-317 | succeeds exactly for non-empty arrays of equal length; then the store is the built symmetrised matrix with current statistics and `_weighted` taken from the assembled matrix; an empty array fails with only the edge count set, unequal lengths fail after the vertex count is set |
| GraphLocalModel.GraphLocal.DiscardWeights | localgraphclustering/GraphLocal.py:319-325 | every stored weight becomes 1.0 in the same data array, ai and aj are unchanged, `_weighted` is false, d[i] = ai[i+1] − ai[i] and vol_G is the number of stored entries |
| GraphLocalModel.DiscardAfterLoad | localgraphclustering/GraphLocal.py:299-325 | loading positive edges with no repeated ordered pair and then calling `discard_weights` leaves the same store, `_weighted` flag (false) and statistics as loading the same edges with unit weights |
| GraphLocalModel.CollectLabelled | localgraphclustering/GraphLocal.py:529-531 | the `maxccnodes` loop returns exactly KeptVertices over all vertices, which KeptVerticesSpec characterises: the vertices carrying the key, increasing |
| GraphLocalModel.FillOnes | localgraphclustering/GraphLocal.py:323 | every element of the data array is 1.0 afterwards |
| GraphLocalModel.GraphLocal.Neighbors | localgraphclustering/GraphLocal.py:467-472 | returns aj[ai[v]..ai[v+1]] in storage order, which are the columns of row v, of length ai[v+1] − ai[v]; every vertex not listed has weight 0 in row v; an id outside the graph is an index error |
| GraphLocalModel.ScanRow | localgraphclustering/GraphLocal.py:588-610 | the inner scan answers true exactly when every stored neighbour other than i is beaten by i's scaled value |
| GraphLocalModel.GraphLocal.LocalExtrema | localgraphclustering/GraphLocal.py:554-616 | succeeds exactly when there is a value per vertex; the vertices are those of ExtremaUpTo over all vertices and the values are vals at those vertices |
| GraphLocalModel.GraphLocal.LargestComponent | localgraphclustering/GraphLocal.py:519-552 | with one component returns the graph itself; otherwise a new graph induced on the vertices with the most common label, in increasing order, with current statistics and the same `_weighted` flag; a symmetric store gives a symmetric result |

## Left out

- File parsing in `read_graph` (pandas, gml, graphml) and `from_networkx` are I/O and library calls. Only the two-or-three-column rule for edge tables is kept, as `ReadEdgeTable`; a table with fewer than two columns is not modelled.
- `is_disconnected`'s guard `self.d == []` (:425-427) is not modelled. With no graph loaded `self.d` was never set, so the guard raises AttributeError as the other operations do; only the count test at :431 is modelled.
- The shared-memory plumbing (`_copy_to_shared`, `_load_from_shared`, `to_shared`, `from_shared`) only copies buffers between processes.
- `connected_components` is delegated to a sparse-graph library. Its labels and count are parameters of `LargestComponent` and `IsDisconnected`.
- `biconnected_components` and `core_number` are delegated to a graph library.
- `set_scores_cpp` is a foreign call whose code is not part of this model. The row-iterating `BoundaryWeight` stands in for it and is proved equal to the reference cut. The `cpp` flag is not modelled: the scores are those of the reference path.
- `d_sqrt` and `dn_sqrt` are square roots of floating-point values. All float64 arithmetic is treated as exact.
- The `itype`/`vtype` integer widths are not modelled: ids are unbounded naturals. Negative ids, which numpy would wrap or index from the end, are not representable; this covers negative entries of `R`.
- Drawing, `print` output and `warnings` are side output.
- GraphLocalModel.GraphLocal.constructor: `GraphLocal()` without a file sets no attribute at all. The zero and empty defaults of the model stand for those unset attributes. Calling `neighbors`, `set_scores`, `local_extrema`, `discard_weights` or `largest_component` on such an object raises AttributeError in the source; the model excludes that case by the precondition `Valid()` rather than modelling the error.
- `_weighted` is computed from the assembled matrix before symmetrisation, as the code does. No invariant ties it to the weights stored afterwards, because it can be stale.
- `local_extrema` indexes `vals` with a list of vertices, which fails when `vals` is a plain Python list. The model treats `vals` as an array.
- GraphLocalModel.GraphLocal.ListToGl: on failure the state is the one the code leaves before raising. The half-built sparse matrix that numpy/scipy discard is not modelled.
